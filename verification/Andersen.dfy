/** The points-to solver of src/pointer_analysis/andersen.rs: a worklist fixpoint over inclusion
    constraints with fields, loads and stores. Locations and pointers are names, as in the source. */
module Andersen {
  import opened Formulas
  import opened Versions

  /** The location of a struct field. */
  function Field(loc: string, field: nat): string {
    loc + "$f" + Digits(field)
  }

  /** Different fields, and fields of different locations, are different locations. */
  lemma FieldInjective(l: string, n: nat, m: string, k: nat)
    requires Field(l, n) == Field(m, k)
    ensures l == m && n == k
  {
    NoLetter(n);
    NoLetter(k);
    assert Field(l, n) == (l + "$") + ['f'] + Digits(n) && Field(m, k) == (m + "$") + ['f'] + Digits(k);
    SplitAtLast(l + "$", Digits(n), m + "$", Digits(k), 'f');
    assert l == (l + "$")[..|l|] == (m + "$")[..|m|] == m;
    DigitsInjective(n, k);
  }

  lemma NoLetter(n: nat)
    ensures 'f' !in Digits(n)
  {
    forall i | 0 <= i < |Digits(n)| ensures Digits(n)[i] != 'f' {
      DigitsOnly(n, i);
    }
  }

  datatype Constraint =
    | Seed(target: string, loc: string)
    | Copy(target: string, source: string)
    | StructField(target: string, source: string, field: nat)
    | LoadPtr(target: string, sourceSlot: string)
    | StorePtr(targetSlot: string, valuePtr: string)

  /** One element of a points-to set, of a pointer or of what is stored in a region. */
  datatype Fact =
    | PointsTo(ptr: string, loc: string)
    | StoredIn(region: string, loc: string)

  ghost predicate Satisfied(c: Constraint, facts: set<Fact>) {
    match c
    case Seed(t, l) => PointsTo(t, l) in facts
    case Copy(t, s) => forall l | PointsTo(s, l) in facts :: PointsTo(t, l) in facts
    case StructField(t, s, n) => forall l | PointsTo(s, l) in facts :: PointsTo(t, Field(l, n)) in facts
    case LoadPtr(t, s) =>
      forall r, l | PointsTo(s, r) in facts && StoredIn(r, l) in facts :: PointsTo(t, l) in facts
    case StorePtr(s, v) =>
      forall r, l | PointsTo(s, r) in facts && PointsTo(v, l) in facts :: StoredIn(r, l) in facts
  }

  ghost predicate Solves(facts: set<Fact>, constraints: seq<Constraint>) {
    forall i | 0 <= i < |constraints| :: Satisfied(constraints[i], facts)
  }

  /** The facts are in every solution. */
  ghost predicate Forced(facts: set<Fact>, constraints: seq<Constraint>) {
    forall solution | Solves(solution, constraints) :: facts <= solution
  }

  ghost predicate LeastSolution(facts: set<Fact>, constraints: seq<Constraint>) {
    Solves(facts, constraints) && Forced(facts, constraints)
  }

  /** The constraint reads the points-to set of `p`. */
  predicate Depends(c: Constraint, p: string) {
    match c
    case Seed(_, _) => false
    case Copy(_, s) => s == p
    case StructField(_, s, _) => s == p
    case LoadPtr(_, s) => s == p
    case StorePtr(s, v) => s == p || v == p
  }

  lemma PointsToKeeps(c: Constraint, facts: set<Fact>, p: string, l: string)
    requires Satisfied(c, facts) && !Depends(c, p)
    ensures Satisfied(c, facts + {PointsTo(p, l)})
  {
  }

  lemma StoredInKeeps(c: Constraint, facts: set<Fact>, r: string, l: string)
    requires Satisfied(c, facts) && !(c.LoadPtr? && PointsTo(c.sourceSlot, r) in facts)
    ensures Satisfied(c, facts + {StoredIn(r, l)})
  {
  }

  function Among(m: map<string, set<string>>, k: string): set<string> {
    if k in m then m[k] else {}
  }

  function PtsFacts(pts: map<string, set<string>>): set<Fact> {
    set p, l | p in pts && l in pts[p] :: PointsTo(p, l)
  }

  function MemFacts(mem: map<string, set<string>>): set<Fact> {
    set r, l | r in mem && l in mem[r] :: StoredIn(r, l)
  }

  class AliasSolver {
    const constraints: seq<Constraint>
    var pts: map<string, set<string>>
    var ptsMem: map<string, set<string>>
    var sourceIndex: map<string, seq<nat>>
    var worklist: seq<nat>
    var inWorklist: seq<bool>

    constructor (constraints: seq<Constraint>)
      ensures this.constraints == constraints && Facts() == {} && sourceIndex == map[]
      ensures worklist == [] && inWorklist == seq(|constraints|, i requires 0 <= i < |constraints| => false)
    {
      this.constraints := constraints;
      pts, ptsMem, sourceIndex, worklist := map[], map[], map[], [];
      inWorklist := seq(|constraints|, i requires 0 <= i < |constraints| => false);
    }

    ghost function Facts(): set<Fact>
      reads this`pts, this`ptsMem
    {
      PtsFacts(pts) + MemFacts(ptsMem)
    }

    function Dependents(p: string): seq<nat>
      reads this`sourceIndex
    {
      if p in sourceIndex then sourceIndex[p] else []
    }

    ghost predicate Indexed()
      reads this`sourceIndex
    {
      forall p, i: nat {:trigger i in Dependents(p)} ::
        i in Dependents(p) <==> i < |constraints| && Depends(constraints[i], p)
    }

    /** The flags say exactly what is queued, and nothing is queued twice. */
    ghost predicate Queued()
      reads this`worklist, this`inWorklist
    {
      |inWorklist| == |constraints|
      && (forall i: nat :: i in worklist <==> i < |constraints| && inWorklist[i])
      && forall i, j :: 0 <= i < j < |worklist| ==> worklist[i] != worklist[j]
    }

    /** Every constraint that is not queued, except `busy`, is satisfied. */
    ghost predicate Closed(busy: set<nat>)
      requires Queued()
      reads this
    {
      forall i | 0 <= i < |constraints| && !inWorklist[i] && i !in busy :: Satisfied(constraints[i], Facts())
    }

    method InsertPts(target: string, loc: string) returns (grew: bool)
      modifies this`pts
      ensures Facts() == old(Facts()) + {PointsTo(target, loc)}
      ensures grew <==> PointsTo(target, loc) !in old(Facts())
    {
      grew := loc !in Among(pts, target);
      ghost var before := pts;
      pts := pts[target := Among(pts, target) + {loc}];
      InsertedPts(before, target, loc);
    }

    method InsertPtsMem(region: string, loc: string) returns (grew: bool)
      modifies this`ptsMem
      ensures Facts() == old(Facts()) + {StoredIn(region, loc)}
      ensures grew <==> StoredIn(region, loc) !in old(Facts())
    {
      grew := loc !in Among(ptsMem, region);
      ghost var before := ptsMem;
      ptsMem := ptsMem[region := Among(ptsMem, region) + {loc}];
      InsertedMem(before, region, loc);
    }

    method Push(i: nat)
      requires Queued() && i < |constraints|
      modifies this`worklist, this`inWorklist
      ensures Queued() && inWorklist == old(inWorklist)[i := true]
    {
      if !inWorklist[i] {
        worklist := worklist + [i];
        inWorklist := inWorklist[i := true];
      }
    }

    /** Queue what reads `p`. */
    method PushDependents(p: string)
      requires Queued() && Indexed()
      modifies this`worklist, this`inWorklist
      ensures Queued()
      ensures forall i | 0 <= i < |constraints| :: inWorklist[i] <==> old(inWorklist[i]) || Depends(constraints[i], p)
    {
      var deps := Dependents(p);
      assert forall i: nat | i in deps :: i < |constraints|;
      for k := 0 to |deps|
        invariant Queued()
        invariant forall i | 0 <= i < |constraints| :: inWorklist[i] <==> old(inWorklist[i]) || i in deps[..k]
      {
        assert deps[k] in deps;
        Push(deps[k]);
      }
      assert deps[..|deps|] == deps;
    }

    /** Queue the loads that read the region. */
    method PushLoads(r: string)
      requires Queued()
      modifies this`worklist, this`inWorklist
      ensures Queued()
      ensures forall i | 0 <= i < |constraints| :: inWorklist[i] <==>
                old(inWorklist[i]) || (constraints[i].LoadPtr? && PointsTo(constraints[i].sourceSlot, r) in Facts())
    {
      for k := 0 to |constraints|
        invariant Queued()
        invariant forall i | 0 <= i < |constraints| :: inWorklist[i] <==>
                    old(inWorklist[i])
                    || (i < k && constraints[i].LoadPtr? && PointsTo(constraints[i].sourceSlot, r) in Facts())
      {
        if constraints[k].LoadPtr? && r in Among(pts, constraints[k].sourceSlot) && !inWorklist[k] {
          Push(k);
        }
      }
    }

    /** Insert a location and queue what the growth may have broken. */
    method AddPts(target: string, loc: string, ghost busy: set<nat>)
      requires Queued() && Indexed() && Closed(busy)
      modifies this`pts, this`worklist, this`inWorklist
      ensures Queued() && Closed(busy) && Facts() == old(Facts()) + {PointsTo(target, loc)}
      ensures Facts() == old(Facts()) ==> worklist == old(worklist)
      ensures forall i | 0 <= i < |constraints| ::
                old(inWorklist[i]) || (Facts() != old(Facts()) && Depends(constraints[i], target)) ==> inWorklist[i]
    {
      ghost var before := Facts();
      var grew := InsertPts(target, loc);
      if grew {
        PushDependents(target);
        forall i | 0 <= i < |constraints| && !inWorklist[i] && i !in busy ensures Satisfied(constraints[i], Facts()) {
          PointsToKeeps(constraints[i], before, target, loc);
        }
      } else {
        assert Facts() == before;
      }
    }

    method AddMem(region: string, loc: string, ghost busy: set<nat>)
      requires Queued() && Closed(busy)
      modifies this`ptsMem, this`worklist, this`inWorklist
      ensures Queued() && Closed(busy) && Facts() == old(Facts()) + {StoredIn(region, loc)}
      ensures Facts() == old(Facts()) ==> worklist == old(worklist)
      ensures forall i | 0 <= i < |constraints| && old(inWorklist[i]) :: inWorklist[i]
    {
      ghost var before := Facts();
      var grew := InsertPtsMem(region, loc);
      if grew {
        PushLoads(region);
        forall i | 0 <= i < |constraints| && !inWorklist[i] && i !in busy ensures Satisfied(constraints[i], Facts()) {
          StoredInKeeps(constraints[i], before, region, loc);
        }
      } else {
        assert Facts() == before;
      }
    }

    // ---- One constraint at a time -----------------------------------------------------------

    /** The constraint just popped may be unsatisfied and is not queued; all others are in order,
        and every fact so far is forced. */
    ghost predicate Popped(idx: nat)
      reads this
    {
      Queued() && Indexed() && idx < |constraints| && !inWorklist[idx] && Closed({idx}) && Forced(Facts(), constraints)
    }

    /** Everything that is not queued is satisfied, and every fact so far is forced. */
    ghost predicate Consistent()
      reads this
    {
      Queued() && Indexed() && Closed({}) && Forced(Facts(), constraints)
    }

    /** `pts(target)` gets the locations `locs`, one after the other. */
    method AddAllPts(target: string, locs: set<string>, ghost idx: nat)
      requires Queued() && Indexed() && Closed({idx})
      modifies this`pts, this`worklist, this`inWorklist
      ensures Queued() && Closed({idx})
      ensures Facts() == old(Facts()) + Pointed(target, locs)
      ensures Facts() == old(Facts()) ==> worklist == old(worklist)
      ensures forall i | 0 <= i < |constraints| ::
                old(inWorklist[i]) || (Facts() != old(Facts()) && Depends(constraints[i], target)) ==> inWorklist[i]
    {
      var todo := locs;
      ghost var done: set<string> := {};
      while todo != {}
        invariant done + todo == locs && Queued() && Closed({idx})
        invariant Facts() == old(Facts()) + Pointed(target, done)
        invariant Facts() == old(Facts()) ==> worklist == old(worklist)
        invariant forall i | 0 <= i < |constraints| ::
                    old(inWorklist[i]) || (Facts() != old(Facts()) && Depends(constraints[i], target)) ==> inWorklist[i]
        decreases |todo|
      {
        var l :| l in todo;
        PointedNext(target, done, l);
        AddPts(target, l, {idx});
        done, todo := done + {l}, todo - {l};
      }
    }

    method AddAllMem(region: string, locs: set<string>, ghost idx: nat)
      requires Queued() && Closed({idx})
      modifies this`ptsMem, this`worklist, this`inWorklist
      ensures Queued() && Closed({idx})
      ensures Facts() == old(Facts()) + Stored({region}, locs)
      ensures Facts() == old(Facts()) ==> worklist == old(worklist)
    {
      var todo := locs;
      ghost var done: set<string> := {};
      while todo != {}
        invariant done + todo == locs && Queued() && Closed({idx})
        invariant Facts() == old(Facts()) + Stored({region}, done)
        invariant Facts() == old(Facts()) ==> worklist == old(worklist)
        decreases |todo|
      {
        var l :| l in todo;
        StoredOne(region, done, l);
        AddMem(region, l, {idx});
        done, todo := done + {l}, todo - {l};
      }
    }

    method ProcessCopy(idx: nat)
      requires Popped(idx) && constraints[idx].Copy?
      modifies this`pts, this`worklist, this`inWorklist
      ensures Consistent() && old(Facts()) <= Facts() && (Facts() == old(Facts()) ==> worklist == old(worklist))
    {
      var c := constraints[idx];
      AddAllPts(c.target, Among(pts, c.source), idx);
      assert forall solution | Solves(solution, constraints) :: Satisfied(c, solution);
    }

    method ProcessField(idx: nat)
      requires Popped(idx) && constraints[idx].StructField?
      modifies this`pts, this`worklist, this`inWorklist
      ensures Consistent() && old(Facts()) <= Facts() && (Facts() == old(Facts()) ==> worklist == old(worklist))
    {
      var c := constraints[idx];
      AddAllPts(c.target, set l | l in Among(pts, c.source) :: Field(l, c.field), idx);
      assert forall solution | Solves(solution, constraints) :: Satisfied(c, solution);
    }

    /** The loop of a load over the regions its slot may name. */
    method LoadAll(target: string, slots: set<string>, ghost idx: nat)
      requires Queued() && Indexed() && Closed({idx})
      modifies this`pts, this`worklist, this`inWorklist
      ensures Queued() && Closed({idx})
      ensures Facts() == old(Facts()) + Loaded(target, old(Facts()), slots)
      ensures Facts() == old(Facts()) ==> worklist == old(worklist)
      ensures forall i | 0 <= i < |constraints| ::
                Facts() != old(Facts()) && Depends(constraints[i], target) ==> inWorklist[i]
    {
      ghost var before := Facts();
      var todo := slots;
      ghost var done: set<string> := {};
      while todo != {}
        invariant done + todo == slots && Queued() && Closed({idx})
        invariant Facts() == before + Loaded(target, before, done)
        invariant Facts() == before ==> worklist == old(worklist)
        invariant forall i | 0 <= i < |constraints| ::
                    Facts() != before && Depends(constraints[i], target) ==> inWorklist[i]
        decreases |todo|
      {
        var r :| r in todo;
        LoadedNext(target, before, done, r, Among(ptsMem, r));
        ghost var now, some := Facts(), Loaded(target, before, done);
        ghost var more := Pointed(target, Among(ptsMem, r));
        AddAllPts(target, Among(ptsMem, r), idx);
        Regrouped(before, some, more);
        assert now <= Facts();
        done, todo := done + {r}, todo - {r};
      }
    }

    method ProcessLoad(idx: nat)
      requires Popped(idx) && constraints[idx].LoadPtr?
      modifies this`pts, this`worklist, this`inWorklist
      ensures Consistent() && old(Facts()) <= Facts() && (Facts() == old(Facts()) ==> worklist == old(worklist))
    {
      var c := constraints[idx];
      var slots := Among(pts, c.sourceSlot);
      LoadDone(constraints, idx, Facts(), slots);
      LoadAll(c.target, slots, idx);
    }

    /** The loop of a store over the regions its slot may name. */
    method StoreAll(slots: set<string>, vals: set<string>, ghost idx: nat)
      requires Queued() && Closed({idx})
      modifies this`ptsMem, this`worklist, this`inWorklist
      ensures Queued() && Closed({idx})
      ensures Facts() == old(Facts()) + Stored(slots, vals)
      ensures Facts() == old(Facts()) ==> worklist == old(worklist)
    {
      var todo := slots;
      ghost var done: set<string> := {};
      while todo != {}
        invariant done + todo == slots && Queued() && Closed({idx})
        invariant Facts() == old(Facts()) + Stored(done, vals)
        invariant Facts() == old(Facts()) ==> worklist == old(worklist)
        decreases |todo|
      {
        var r :| r in todo;
        StoredNext(done, r, vals);
        ghost var now := Facts();
        AddAllMem(r, vals, idx);
        assert now != old(Facts()) ==> Facts() != old(Facts());
        done, todo := done + {r}, todo - {r};
      }
    }

    method ProcessStore(idx: nat)
      requires Popped(idx) && constraints[idx].StorePtr?
      modifies this`ptsMem, this`worklist, this`inWorklist
      ensures Consistent() && old(Facts()) <= Facts() && (Facts() == old(Facts()) ==> worklist == old(worklist))
    {
      var c := constraints[idx];
      var slots, vals := Among(pts, c.targetSlot), Among(pts, c.valuePtr);
      StoreDone(constraints, idx, Facts(), slots, vals);
      StoreAll(slots, vals, idx);
    }

    // ---- The whole run ----------------------------------------------------------------------

    method InsertSeeds()
      requires Facts() == {}
      modifies this`pts
      ensures Facts() == SeedFacts(constraints, |constraints|)
    {
      for i := 0 to |constraints|
        invariant Facts() == SeedFacts(constraints, i)
      {
        match constraints[i] {
          case Seed(target, loc) =>
            var grew := InsertPts(target, loc);
          case _ =>
        }
      }
    }

    method AddSource(p: string, i: nat)
      modifies this`sourceIndex
      ensures Dependents(p) == old(Dependents(p)) + [i]
      ensures forall q | q != p :: Dependents(q) == old(Dependents(q))
    {
      sourceIndex := sourceIndex[p := Dependents(p) + [i]];
    }

    /** The reverse index from a pointer to the constraints that read it. */
    method BuildIndex()
      requires sourceIndex == map[]
      modifies this`sourceIndex
      ensures Indexed()
    {
      for k := 0 to |constraints|
        invariant forall p, i: nat {:trigger i in Dependents(p)} ::
                    i in Dependents(p) <==> i < k && Depends(constraints[i], p)
      {
        match constraints[k] {
          case Seed(_, _) =>
          case Copy(_, source) => AddSource(source, k);
          case StructField(_, source, _) => AddSource(source, k);
          case LoadPtr(_, slot) => AddSource(slot, k);
          case StorePtr(slot, value) =>
            AddSource(slot, k);
            AddSource(value, k);
        }
      }
    }

    /** Queue what reads a pointer that has a location, in no particular order of the pointers. */
    method Start()
      requires Queued() && Indexed() && worklist == []
      modifies this`worklist, this`inWorklist
      ensures Queued()
      ensures forall i, p | 0 <= i < |constraints| && Depends(constraints[i], p) && p in pts :: inWorklist[i]
    {
      var todo := sourceIndex.Keys;
      forall i, p | 0 <= i < |constraints| && Depends(constraints[i], p) ensures p in sourceIndex {
        assert i in Dependents(p);
      }
      while todo != {}
        invariant todo <= sourceIndex.Keys && Queued()
        invariant forall i, p | 0 <= i < |constraints| && Depends(constraints[i], p) && p in pts && p !in todo ::
                    inWorklist[i]
        decreases |todo|
      {
        var p :| p in todo;
        if p in pts {
          PushDependents(p);
        }
        todo := todo - {p};
      }
    }

    method Pop() returns (idx: nat)
      requires Consistent() && worklist != []
      modifies this`worklist, this`inWorklist
      ensures Popped(idx) && worklist == old(worklist)[1..]
    {
      idx := worklist[0];
      PoppedMembers(worklist);
      assert idx in worklist;
      worklist := worklist[1..];
      inWorklist := inWorklist[idx := false];
    }

    ghost predicate Running()
      reads this
    {
      Consistent() && SeedFacts(constraints, |constraints|) <= Facts()
    }

    /** One iteration of the main loop. It adds facts or shortens the queue. */
    method Iterate()
      requires Running() && worklist != []
      modifies this`pts, this`ptsMem, this`worklist, this`inWorklist
      ensures Running() && old(Facts()) <= Facts()
      ensures Facts() == old(Facts()) ==> |worklist| < |old(worklist)|
    {
      var idx := Pop();
      match constraints[idx] {
        case Seed(target, loc) => assert PointsTo(target, loc) in SeedFacts(constraints, |constraints|);
        case Copy(_, _) => ProcessCopy(idx);
        case StructField(_, _, _) => ProcessField(idx);
        case LoadPtr(_, _) => ProcessLoad(idx);
        case StorePtr(_, _) => ProcessStore(idx);
      }
    }

    /** The main loop. It ends because it only ever adds facts of any given solution. */
    method Saturate(ghost solution: set<Fact>)
      requires Running() && Solves(solution, constraints)
      modifies this`pts, this`ptsMem, this`worklist, this`inWorklist
      ensures LeastSolution(Facts(), constraints)
    {
      while worklist != []
        invariant Running()
        decreases solution - Facts(), |worklist|
      {
        Iterate();
      }
    }

    /** The main loop cut off after a number of iterations. */
    method SaturateWithin(steps: nat)
      requires Running()
      modifies this`pts, this`ptsMem, this`worklist, this`inWorklist
      ensures Running() && (worklist == [] ==> LeastSolution(Facts(), constraints))
    {
      var taken := 0;
      while worklist != [] && taken < steps
        invariant Running() && taken <= steps
        decreases steps - taken
      {
        Iterate();
        taken := taken + 1;
      }
    }
  }

  lemma PoppedMembers(list: seq<nat>)
    requires list != [] && forall i, j :: 0 <= i < j < |list| ==> list[i] != list[j]
    ensures forall i :: i in list[1..] <==> i in list && i != list[0]
  {
    assert list == [list[0]] + list[1..];
  }

  ghost function SeedFacts(constraints: seq<Constraint>, k: nat): set<Fact>
    requires k <= |constraints|
  {
    set i | 0 <= i < k && constraints[i].Seed? :: PointsTo(constraints[i].target, constraints[i].loc)
  }

  /** The state of `solve` before its main loop. */
  method Begin(constraints: seq<Constraint>) returns (solver: AliasSolver)
    ensures fresh(solver) && solver.constraints == constraints && solver.Running()
  {
    solver := new AliasSolver(constraints);
    solver.InsertSeeds();
    solver.BuildIndex();
    solver.Start();
    forall sol | Solves(sol, constraints) ensures solver.Facts() <= sol {
      forall i | 0 <= i < |constraints| && constraints[i].Seed?
        ensures PointsTo(constraints[i].target, constraints[i].loc) in sol
      {
        assert Satisfied(constraints[i], sol);
      }
    }
  }

  ghost predicate Solvable(constraints: seq<Constraint>) {
    exists solution :: Solves(solution, constraints)
  }

  /** `solve`: whenever a finite solution exists the run ends, with the least solution. */
  method Solve(constraints: seq<Constraint>)
    returns (pts: map<string, set<string>>, ptsMem: map<string, set<string>>)
    requires Solvable(constraints)
    ensures LeastSolution(PtsFacts(pts) + MemFacts(ptsMem), constraints)
  {
    var solver := Begin(constraints);
    ghost var solution :| Solves(solution, constraints);
    solver.Saturate(solution);
    pts, ptsMem := solver.pts, solver.ptsMem;
  }

  /** `solve` on any constraints, looked at after a number of iterations: all facts found so far are
      in every solution, and if it has ended it has found the least one. Without a finite solution
      it has not ended, whatever the number. */
  method SolveWithin(constraints: seq<Constraint>, steps: nat)
    returns (ended: bool, pts: map<string, set<string>>, ptsMem: map<string, set<string>>)
    ensures Forced(PtsFacts(pts) + MemFacts(ptsMem), constraints)
    ensures ended ==> LeastSolution(PtsFacts(pts) + MemFacts(ptsMem), constraints)
    ensures !Solvable(constraints) ==> !ended
  {
    var solver := Begin(constraints);
    solver.SaturateWithin(steps);
    ended, pts, ptsMem := solver.worklist == [], solver.pts, solver.ptsMem;
  }

  lemma Regrouped(a: set<Fact>, b: set<Fact>, c: set<Fact>)
    ensures a + b + c == a + (b + c)
    ensures a + b + c == a ==> a + b == a
  {
  }

  ghost function Pointed(target: string, locs: set<string>): set<Fact> {
    set l | l in locs :: PointsTo(target, l)
  }

  lemma PointedNext(target: string, locs: set<string>, l: string)
    ensures Pointed(target, locs + {l}) == Pointed(target, locs) + {PointsTo(target, l)}
  {
  }

  ghost function Loaded(target: string, facts: set<Fact>, slots: set<string>): set<Fact> {
    set f | f in facts && f.StoredIn? && f.region in slots :: PointsTo(target, f.loc)
  }

  ghost function Stored(slots: set<string>, vals: set<string>): set<Fact> {
    set r, l | r in slots && l in vals :: StoredIn(r, l)
  }

  lemma LoadedNext(target: string, facts: set<Fact>, slots: set<string>, r: string, locs: set<string>)
    requires forall l :: l in locs <==> StoredIn(r, l) in facts
    ensures Loaded(target, facts, slots + {r}) == Loaded(target, facts, slots) + Pointed(target, locs)
  {
    forall l | l in locs ensures PointsTo(target, l) in Loaded(target, facts, slots + {r}) {
      assert StoredIn(r, l) in facts && StoredIn(r, l).region in slots + {r};
    }
    forall f | f in facts && f.StoredIn? && f.region in slots
      ensures PointsTo(target, f.loc) in Loaded(target, facts, slots + {r})
    {
    }
  }

  lemma StoredNext(slots: set<string>, r: string, vals: set<string>)
    ensures Stored(slots + {r}, vals) == Stored(slots, vals) + Stored({r}, vals)
  {
  }

  lemma StoredOne(r: string, vals: set<string>, l: string)
    ensures Stored({r}, vals + {l}) == Stored({r}, vals) + {StoredIn(r, l)}
  {
  }

  /** A load that added what its slots hold is satisfied, unless it feeds its own slot. */
  lemma LoadDone(constraints: seq<Constraint>, idx: nat, facts: set<Fact>, slots: set<string>)
    requires idx < |constraints| && constraints[idx].LoadPtr? && Forced(facts, constraints)
    requires forall r :: r in slots <==> PointsTo(constraints[idx].sourceSlot, r) in facts
    ensures var c, all := constraints[idx], facts + Loaded(constraints[idx].target, facts, slots);
            Forced(all, constraints) && (all == facts || c.target != c.sourceSlot ==> Satisfied(c, all))
  {
    var c := constraints[idx];
    var all := facts + Loaded(c.target, facts, slots);
    forall solution | Solves(solution, constraints) ensures all <= solution {
      assert Satisfied(c, solution);
      forall f | f in facts && f.StoredIn? && f.region in slots ensures PointsTo(c.target, f.loc) in solution {
        assert f == StoredIn(f.region, f.loc) && PointsTo(c.sourceSlot, f.region) in solution;
      }
    }
    if all == facts || c.target != c.sourceSlot {
      forall r, l | PointsTo(c.sourceSlot, r) in all && StoredIn(r, l) in all ensures PointsTo(c.target, l) in all {
        assert PointsTo(c.sourceSlot, r) in facts && StoredIn(r, l) in facts;
      }
    }
  }

  lemma StoreDone(constraints: seq<Constraint>, idx: nat, facts: set<Fact>, slots: set<string>, vals: set<string>)
    requires idx < |constraints| && constraints[idx].StorePtr? && Forced(facts, constraints)
    requires forall r :: r in slots <==> PointsTo(constraints[idx].targetSlot, r) in facts
    requires forall l :: l in vals <==> PointsTo(constraints[idx].valuePtr, l) in facts
    ensures var all := facts + Stored(slots, vals);
            Forced(all, constraints) && Satisfied(constraints[idx], all)
  {
    var c := constraints[idx];
    forall solution | Solves(solution, constraints) ensures facts + Stored(slots, vals) <= solution {
      assert Satisfied(c, solution);
    }
  }

  lemma InsertedPts(pts: map<string, set<string>>, target: string, loc: string)
    ensures PtsFacts(pts[target := Among(pts, target) + {loc}]) == PtsFacts(pts) + {PointsTo(target, loc)}
  {
    var after := pts[target := Among(pts, target) + {loc}];
    forall f ensures f in PtsFacts(after) <==> f in PtsFacts(pts) + {PointsTo(target, loc)} {
    }
  }

  lemma InsertedMem(mem: map<string, set<string>>, region: string, loc: string)
    ensures MemFacts(mem[region := Among(mem, region) + {loc}]) == MemFacts(mem) + {StoredIn(region, loc)}
  {
    var after := mem[region := Among(mem, region) + {loc}];
    forall f ensures f in MemFacts(after) <==> f in MemFacts(mem) + {StoredIn(region, loc)} {
    }
  }

  // ---- When a finite solution exists ----------------------------------------------------------

  /** The worklist order does not matter: there is one least solution. */
  lemma LeastUnique(a: set<Fact>, b: set<Fact>, constraints: seq<Constraint>)
    requires LeastSolution(a, constraints) && LeastSolution(b, constraints)
    ensures a == b
  {
    assert a <= b && b <= a;
  }

  function Targets(constraints: seq<Constraint>): set<string> {
    set i | 0 <= i < |constraints| && !constraints[i].StorePtr? :: constraints[i].target
  }

  function Seeds(constraints: seq<Constraint>): set<string> {
    set i | 0 <= i < |constraints| && constraints[i].Seed? :: constraints[i].loc
  }

  function FieldNumbers(constraints: seq<Constraint>): set<nat> {
    set i | 0 <= i < |constraints| && constraints[i].StructField? :: constraints[i].field
  }

  /** The seeded locations and their fields, at most `k` deep. */
  function Locations(constraints: seq<Constraint>, k: nat): set<string> {
    if k == 0 then Seeds(constraints)
    else
      var below := Locations(constraints, k - 1);
      below + set l, n | l in below && n in FieldNumbers(constraints) :: Field(l, n)
  }

  lemma {:induction false} LocationsGrow(constraints: seq<Constraint>, j: nat, k: nat)
    requires j <= k
    ensures Locations(constraints, j) <= Locations(constraints, k)
  {
    if j < k {
      LocationsGrow(constraints, j, k - 1);
    }
  }

  lemma FieldBelow(constraints: seq<Constraint>, i: nat, l: string, k: nat)
    requires i < |constraints| && constraints[i].StructField? && l in Locations(constraints, k)
    ensures Field(l, constraints[i].field) in Locations(constraints, k + 1)
  {
    assert constraints[i].field in FieldNumbers(constraints);
  }

  /** The pointers can be layered so that constraints never lead down and field constraints lead up,
      with all of memory on one layer: no cycle through a field constraint, memory as one node. */
  ghost predicate Layered(constraints: seq<Constraint>, level: string -> nat, mem: nat, top: nat) {
    forall i | 0 <= i < |constraints| ::
      match constraints[i]
      case Seed(_, _) => true
      case Copy(t, s) => level(s) <= level(t)
      case StructField(t, s, _) => level(s) < level(t)
      case LoadPtr(t, _) => mem <= level(t)
      case StorePtr(s, v) => level(v) <= mem && level(s) <= top
  }

  /** Every target gets the locations up to its layer. */
  ghost function LayerFacts(constraints: seq<Constraint>, level: string -> nat, mem: nat, top: nat): set<Fact> {
    (set p, l | p in Targets(constraints) && l in Locations(constraints, level(p)) :: PointsTo(p, l))
    + (set r, l | r in Locations(constraints, top) && l in Locations(constraints, mem) :: StoredIn(r, l))
  }

  lemma LayerMembers(constraints: seq<Constraint>, level: string -> nat, mem: nat, top: nat)
    ensures var facts := LayerFacts(constraints, level, mem, top);
            (forall p, l ::
               PointsTo(p, l) in facts <==> p in Targets(constraints) && l in Locations(constraints, level(p)))
            && forall r, l :: StoredIn(r, l) in facts <==>
                 r in Locations(constraints, top) && l in Locations(constraints, mem)
  {
  }

  lemma LayerField(constraints: seq<Constraint>, i: nat, l: string, j: nat, k: nat)
    requires i < |constraints| && constraints[i].StructField? && l in Locations(constraints, j) && j < k
    ensures Field(l, constraints[i].field) in Locations(constraints, k)
  {
    FieldBelow(constraints, i, l, j);
    LocationsGrow(constraints, j + 1, k);
  }

  lemma LayerSatisfies(constraints: seq<Constraint>, level: string -> nat, mem: nat, top: nat, i: nat)
    requires Layered(constraints, level, mem, top) && i < |constraints|
    ensures Satisfied(constraints[i], LayerFacts(constraints, level, mem, top))
  {
    var facts := LayerFacts(constraints, level, mem, top);
    LayerMembers(constraints, level, mem, top);
    assert !constraints[i].StorePtr? ==> constraints[i].target in Targets(constraints);
    match constraints[i]
    case Seed(t, l) =>
      assert l in Seeds(constraints);
      LocationsGrow(constraints, 0, level(t));
    case Copy(t, s) => LocationsGrow(constraints, level(s), level(t));
    case StructField(t, s, n) =>
      forall l | PointsTo(s, l) in facts ensures PointsTo(t, Field(l, n)) in facts {
        LayerField(constraints, i, l, level(s), level(t));
      }
    case LoadPtr(t, _) => LocationsGrow(constraints, mem, level(t));
    case StorePtr(s, v) =>
      LocationsGrow(constraints, level(v), mem);
      LocationsGrow(constraints, level(s), top);
  }

  /** Layered constraints have a finite solution. */
  lemma LayeredSolvable(constraints: seq<Constraint>, level: string -> nat, mem: nat, top: nat)
    requires Layered(constraints, level, mem, top)
    ensures Solvable(constraints)
  {
    var facts := LayerFacts(constraints, level, mem, top);
    forall i | 0 <= i < |constraints| ensures Satisfied(constraints[i], facts) {
      LayerSatisfies(constraints, level, mem, top, i);
    }
    assert Solves(facts, constraints);
  }

  /** Without field constraints the run always ends. */
  lemma FieldFreeSolvable(constraints: seq<Constraint>)
    requires forall i | 0 <= i < |constraints| :: !constraints[i].StructField?
    ensures Solvable(constraints)
  {
    LayeredSolvable(constraints, (p: string) => 0, 0, 0);
  }

  // ---- Exactly when a finite solution exists --------------------------------------------------

  /** One step of a derivation: the constraint used and, for loads and stores, the derivation of the
      fact that the slot names the region. */
  datatype Step = Step(index: nat, slot: seq<Step>)

  /** The fact that a derivation arrives at. It follows one location from its seed through the
      constraints; None when a step does not fit. */
  function Derived(constraints: seq<Constraint>, steps: seq<Step>): Option<Fact>
    decreases steps
  {
    if steps == [] then None
    else
      var front, last := steps[..|steps| - 1], steps[|steps| - 1];
      if last.index >= |constraints| then None
      else
        match constraints[last.index]
        case Seed(t, l) => if front == [] then Some(PointsTo(t, l)) else None
        case Copy(t, s) =>
          (match Derived(constraints, front)
           case Some(PointsTo(p, l)) => if p == s then Some(PointsTo(t, l)) else None
           case _ => None)
        case StructField(t, s, n) =>
          (match Derived(constraints, front)
           case Some(PointsTo(p, l)) => if p == s then Some(PointsTo(t, Field(l, n))) else None
           case _ => None)
        case LoadPtr(t, s) =>
          (match Derived(constraints, front)
           case Some(StoredIn(r, l)) =>
             if Derived(constraints, last.slot) == Some(PointsTo(s, r)) then Some(PointsTo(t, l)) else None
           case _ => None)
        case StorePtr(s, v) =>
          (match (Derived(constraints, front), Derived(constraints, last.slot))
           case (Some(PointsTo(p, l)), Some(PointsTo(q, r))) =>
             if p == v && q == s then Some(StoredIn(r, l)) else None
           case _ => None)
  }

  predicate FieldStep(constraints: seq<Constraint>, step: Step) {
    step.index < |constraints| && constraints[step.index].StructField?
  }

  /** The derivation goes through one field constraint twice. */
  ghost predicate Repeats(constraints: seq<Constraint>, steps: seq<Step>) {
    exists i, j :: 0 <= i < j < |steps| && FieldStep(constraints, steps[i]) && steps[i].index == steps[j].index
  }

  ghost predicate Repeating(constraints: seq<Constraint>) {
    exists steps :: Derived(constraints, steps).Some? && Repeats(constraints, steps)
  }

  /** What is derived is in every solution. */
  lemma {:induction false} DerivedForced(constraints: seq<Constraint>, steps: seq<Step>, facts: set<Fact>)
    requires Derived(constraints, steps).Some? && Solves(facts, constraints)
    ensures Derived(constraints, steps).value in facts
    decreases steps
  {
    var front, last := steps[..|steps| - 1], steps[|steps| - 1];
    assert Satisfied(constraints[last.index], facts);
    if !constraints[last.index].Seed? {
      DerivedForced(constraints, front, facts);
    }
    if constraints[last.index].LoadPtr? || constraints[last.index].StorePtr? {
      DerivedForced(constraints, last.slot, facts);
    }
  }

  ghost predicate SamePlace(a: Fact, b: Fact) {
    match (a, b)
    case (PointsTo(p, _), PointsTo(q, _)) => p == q
    case (StoredIn(r, _), StoredIn(q, _)) => r == q
    case _ => false
  }

  /** Steps that lead on from one place lead on from there whatever the location, which only gets
      longer, and strictly so when a field step comes last. */
  lemma {:induction false} LeadsOn(constraints: seq<Constraint>, a: seq<Step>, b: seq<Step>, more: seq<Step>)
    requires Derived(constraints, a).Some? && Derived(constraints, b).Some?
    requires SamePlace(Derived(constraints, a).value, Derived(constraints, b).value)
    requires Derived(constraints, b + more).Some?
    ensures var there := Derived(constraints, a + more);
            there.Some? && SamePlace(there.value, Derived(constraints, b + more).value)
            && |there.value.loc| >= |Derived(constraints, a).value.loc|
            && (more != [] && FieldStep(constraints, more[|more| - 1]) ==>
                  |there.value.loc| > |Derived(constraints, a).value.loc|)
    decreases |more|
  {
    if more == [] {
      assert a + more == a && b + more == b;
    } else {
      var front, last := more[..|more| - 1], more[|more| - 1];
      assert (b + more)[..|b + more| - 1] == b + front && (a + more)[..|a + more| - 1] == a + front;
      LeadsOn(constraints, a, b, front);
    }
  }

  /** A derivation that repeats a field constraint can be continued to ever longer locations. */
  lemma {:induction false} Pumped(constraints: seq<Constraint>, steps: seq<Step>, i: nat, j: nat, k: nat)
    returns (longer: seq<Step>)
    requires i < j < |steps| && FieldStep(constraints, steps[i]) && steps[i].index == steps[j].index
    requires Derived(constraints, steps[..i + 1]).Some? && Derived(constraints, steps[..j + 1]).Some?
    ensures Derived(constraints, longer).Some? && |Derived(constraints, longer).value.loc| >= k
    ensures SamePlace(Derived(constraints, longer).value, Derived(constraints, steps[..i + 1]).value)
  {
    if k == 0 {
      longer := steps[..i + 1];
    } else {
      var shorter := Pumped(constraints, steps, i, j, k - 1);
      var around := steps[i + 1..j + 1];
      assert steps[..i + 1] + around == steps[..j + 1] && around[|around| - 1] == steps[j];
      LeadsOn(constraints, shorter, steps[..i + 1], around);
      longer := shorter + around;
    }
  }

  lemma {:induction false} PrefixDerived(constraints: seq<Constraint>, steps: seq<Step>, k: nat)
    requires Derived(constraints, steps).Some? && 0 < k <= |steps|
    ensures Derived(constraints, steps[..k]).Some?
    decreases |steps|
  {
    if k == |steps| {
      assert steps[..k] == steps;
    } else {
      PrefixDerived(constraints, steps[..|steps| - 1], k);
      assert steps[..|steps| - 1][..k] == steps[..k];
    }
  }

  lemma {:induction false} LongestLocation(facts: set<Fact>) returns (n: nat)
    ensures forall f | f in facts :: |f.loc| <= n
  {
    if facts == {} {
      n := 0;
    } else {
      var f :| f in facts;
      n := LongestLocation(facts - {f});
      n := if |f.loc| > n then |f.loc| else n;
    }
  }

  lemma RepeatForcesMore(constraints: seq<Constraint>, steps: seq<Step>, i: nat, j: nat, n: nat)
    returns (longer: seq<Step>)
    requires i < j < |steps| && FieldStep(constraints, steps[i]) && steps[i].index == steps[j].index
    requires Derived(constraints, steps).Some?
    ensures Derived(constraints, longer).Some? && |Derived(constraints, longer).value.loc| > n
  {
    PrefixDerived(constraints, steps, i + 1);
    PrefixDerived(constraints, steps, j + 1);
    longer := Pumped(constraints, steps, i, j, n + 1);
  }

  lemma RepeatingUnsolvable(constraints: seq<Constraint>, facts: set<Fact>)
    requires Repeating(constraints)
    ensures !Solves(facts, constraints)
  {
    var steps: seq<Step> :| Derived(constraints, steps).Some? && Repeats(constraints, steps);
    var i, j :| 0 <= i < j < |steps| && FieldStep(constraints, steps[i]) && steps[i].index == steps[j].index;
    var n := LongestLocation(facts);
    var longer := RepeatForcesMore(constraints, steps, i, j, n);
    if Solves(facts, constraints) {
      DerivedForced(constraints, longer, facts);
    }
  }

  /** The field constraints that the derivation goes through. */
  ghost function FieldsUsed(constraints: seq<Constraint>, steps: seq<Step>): set<nat> {
    set i | 0 <= i < |steps| && FieldStep(constraints, steps[i]) :: steps[i].index
  }

  lemma FieldsUsedNext(constraints: seq<Constraint>, front: seq<Step>, last: Step)
    ensures FieldsUsed(constraints, front + [last])
            == FieldsUsed(constraints, front) + (if FieldStep(constraints, last) then {last.index} else {})
    ensures last.index in FieldsUsed(constraints, front) ==> Repeats(constraints, front + [last])
  {
    var steps := front + [last];
    forall k ensures k in FieldsUsed(constraints, steps) <==>
                     k in FieldsUsed(constraints, front) || (FieldStep(constraints, last) && k == last.index)
    {
      if i :| 0 <= i < |front| && FieldStep(constraints, front[i]) && front[i].index == k {
        assert steps[i] == front[i];
      }
      assert steps[|front|] == last;
    }
    if last.index in FieldsUsed(constraints, front) {
      var i :| 0 <= i < |front| && FieldStep(constraints, front[i]) && front[i].index == last.index;
      assert steps[i] == front[i] && steps[|front|] == last;
    }
  }

  lemma LastStep(constraints: seq<Constraint>, front: seq<Step>, last: Step)
    requires Derived(constraints, front + [last]).Some?
    ensures last.index < |constraints|
    ensures var c, loc := constraints[last.index], Derived(constraints, front + [last]).value.loc;
            if c.Seed? then front == [] && loc == c.loc
            else Derived(constraints, front).Some?
                 && loc == if c.StructField? then Field(Derived(constraints, front).value.loc, c.field)
                           else Derived(constraints, front).value.loc
  {
    assert (front + [last])[..|front|] == front;
  }

  lemma FieldsCount(constraints: seq<Constraint>, front: seq<Step>, last: Step)
    requires !Repeats(constraints, front + [last])
    ensures |FieldsUsed(constraints, front + [last])|
            == |FieldsUsed(constraints, front)| + (if FieldStep(constraints, last) then 1 else 0)
  {
    var before := FieldsUsed(constraints, front);
    FieldsUsedNext(constraints, front, last);
    assert FieldStep(constraints, last) ==> |before + {last.index}| == |before| + 1;
  }

  lemma DepthNext(constraints: seq<Constraint>, front: seq<Step>, last: Step, loc: string)
    requires last.index < |constraints| && !Repeats(constraints, front + [last])
    requires loc in Locations(constraints, |FieldsUsed(constraints, front)|)
    ensures var c := constraints[last.index];
            (if c.StructField? then Field(loc, c.field) else loc)
              in Locations(constraints, |FieldsUsed(constraints, front + [last])|)
  {
    FieldsCount(constraints, front, last);
    if constraints[last.index].StructField? {
      FieldBelow(constraints, last.index, loc, |FieldsUsed(constraints, front)|);
    }
  }

  /** A derivation that repeats no field constraint stays as deep as it uses field constraints. */
  lemma {:induction false} DerivedDepth(constraints: seq<Constraint>, steps: seq<Step>)
    requires Derived(constraints, steps).Some? && !Repeating(constraints)
    ensures Derived(constraints, steps).value.loc in Locations(constraints, |FieldsUsed(constraints, steps)|)
    decreases |steps|
  {
    var front, last := steps[..|steps| - 1], steps[|steps| - 1];
    assert steps == front + [last];
    LastStep(constraints, front, last);
    if front == [] {
      FieldsUsedNext(constraints, front, last);
      assert constraints[last.index].loc in Seeds(constraints) && FieldsUsed(constraints, steps) == {};
    } else {
      DerivedDepth(constraints, front);
      DepthNext(constraints, front, last, Derived(constraints, front).value.loc);
    }
  }

  lemma DerivedBounded(constraints: seq<Constraint>, steps: seq<Step>)
    requires Derived(constraints, steps).Some? && !Repeating(constraints)
    ensures Derived(constraints, steps).value.loc in Locations(constraints, |constraints|)
  {
    var fields := FieldsUsed(constraints, steps);
    DerivedDepth(constraints, steps);
    FewerFields(fields, |constraints|);
    LocationsGrow(constraints, |fields|, |constraints|);
  }

  lemma {:induction false} FewerFields(fields: set<nat>, k: nat)
    requires forall i | i in fields :: i < k
    ensures |fields| <= k
  {
    if k > 0 {
      FewerFields(fields - {k - 1}, k - 1);
    } else {
      assert fields == {};
    }
  }

  ghost predicate Derivable(constraints: seq<Constraint>, f: Fact) {
    exists steps :: Derived(constraints, steps) == Some(f)
  }

  lemma DerivableNext(constraints: seq<Constraint>, i: nat, front: seq<Step>, slot: seq<Step>)
    requires i < |constraints|
    ensures var steps := front + [Step(i, slot)];
            steps[..|steps| - 1] == front && steps[|steps| - 1] == Step(i, slot)
  {
  }

  /** The derivable facts satisfy every constraint. */
  lemma DerivableCloses(constraints: seq<Constraint>, i: nat, facts: set<Fact>)
    requires i < |constraints| && forall f :: f in facts <==> Derivable(constraints, f)
    ensures Satisfied(constraints[i], facts)
  {
    match constraints[i]
    case Seed(t, l) =>
      DerivableNext(constraints, i, [], []);
      assert Derived(constraints, [] + [Step(i, [])]) == Some(PointsTo(t, l));
    case Copy(t, s) =>
      forall l | PointsTo(s, l) in facts ensures PointsTo(t, l) in facts {
        var front :| Derived(constraints, front) == Some(PointsTo(s, l));
        DerivableNext(constraints, i, front, []);
        assert Derived(constraints, front + [Step(i, [])]) == Some(PointsTo(t, l));
      }
    case StructField(t, s, n) =>
      forall l | PointsTo(s, l) in facts ensures PointsTo(t, Field(l, n)) in facts {
        var front :| Derived(constraints, front) == Some(PointsTo(s, l));
        DerivableNext(constraints, i, front, []);
        assert Derived(constraints, front + [Step(i, [])]) == Some(PointsTo(t, Field(l, n)));
      }
    case LoadPtr(t, s) =>
      forall r, l | PointsTo(s, r) in facts && StoredIn(r, l) in facts ensures PointsTo(t, l) in facts {
        var slot :| Derived(constraints, slot) == Some(PointsTo(s, r));
        var front :| Derived(constraints, front) == Some(StoredIn(r, l));
        DerivableNext(constraints, i, front, slot);
        assert Derived(constraints, front + [Step(i, slot)]) == Some(PointsTo(t, l));
      }
    case StorePtr(s, v) =>
      forall r, l | PointsTo(s, r) in facts && PointsTo(v, l) in facts ensures StoredIn(r, l) in facts {
        var slot :| Derived(constraints, slot) == Some(PointsTo(s, r));
        var front :| Derived(constraints, front) == Some(PointsTo(v, l));
        DerivableNext(constraints, i, front, slot);
        assert Derived(constraints, front + [Step(i, slot)]) == Some(StoredIn(r, l));
      }
  }

  /** Where a derived fact speaks of: a target, or a region that is itself a derived location. */
  lemma DerivedPlace(constraints: seq<Constraint>, steps: seq<Step>)
    requires Derived(constraints, steps).Some? && !Repeating(constraints)
    ensures match Derived(constraints, steps).value
            case PointsTo(p, _) => p in Targets(constraints)
            case StoredIn(r, _) => r in Locations(constraints, |constraints|)
  {
    var last := steps[|steps| - 1];
    var c := constraints[last.index];
    if c.StorePtr? {
      DerivedBounded(constraints, last.slot);
    } else {
      assert c.target in Targets(constraints);
    }
  }

  /** Without a repeating derivation the derivable facts are finitely many and form a solution. */
  lemma DerivableSolution(constraints: seq<Constraint>) returns (facts: set<Fact>)
    requires !Repeating(constraints)
    ensures Solves(facts, constraints) && forall f :: f in facts <==> Derivable(constraints, f)
  {
    var locs := Locations(constraints, |constraints|);
    facts :=
      (set p, l | p in Targets(constraints) && l in locs && Derivable(constraints, PointsTo(p, l)) :: PointsTo(p, l))
      + (set r, l | r in locs && l in locs && Derivable(constraints, StoredIn(r, l)) :: StoredIn(r, l));
    forall f ensures f in facts <==> Derivable(constraints, f) {
      if steps :| Derived(constraints, steps) == Some(f) {
        DerivedBounded(constraints, steps);
        DerivedPlace(constraints, steps);
      }
    }
    forall i | 0 <= i < |constraints| ensures Satisfied(constraints[i], facts) {
      DerivableCloses(constraints, i, facts);
    }
  }

  /** A finite solution exists exactly when no derivation goes through one field constraint twice. */
  lemma SolvableExactly(constraints: seq<Constraint>)
    ensures Solvable(constraints) <==> !Repeating(constraints)
  {
    if Repeating(constraints) {
      forall facts ensures !Solves(facts, constraints) {
        RepeatingUnsolvable(constraints, facts);
      }
    } else {
      var facts := DerivableSolution(constraints);
    }
  }

  /** The least solution, and so the result of `solve`, is exactly the set of derivable facts. */
  lemma LeastIsDerivable(facts: set<Fact>, constraints: seq<Constraint>)
    requires LeastSolution(facts, constraints)
    ensures forall f :: f in facts <==> Derivable(constraints, f)
  {
    SolvableExactly(constraints);
    var all := DerivableSolution(constraints);
    forall f | Derivable(constraints, f) ensures f in facts {
      var steps :| Derived(constraints, steps) == Some(f);
      DerivedForced(constraints, steps, facts);
    }
  }

  // ---- Fields in the result -------------------------------------------------------------------

  /** The constraint adds to the points-to set of `p`. */
  predicate Feeds(c: Constraint, p: string) {
    !c.StorePtr? && c.target == p
  }

  /** A pointer that only one field constraint feeds points to exactly that field of the locations
      of its source. */
  lemma FieldOnly(facts: set<Fact>, constraints: seq<Constraint>, i: nat, l: string)
    requires LeastSolution(facts, constraints) && i < |constraints| && constraints[i].StructField?
    requires forall j | 0 <= j < |constraints| && Feeds(constraints[j], constraints[i].target) :: j == i
    ensures var c := constraints[i];
            PointsTo(c.target, l) in facts <==> exists k :: PointsTo(c.source, k) in facts && l == Field(k, c.field)
  {
    var c := constraints[i];
    LeastIsDerivable(facts, constraints);
    assert Satisfied(c, facts);
    if PointsTo(c.target, l) in facts {
      var steps: seq<Step> :| Derived(constraints, steps) == Some(PointsTo(c.target, l));
      var front, last := steps[..|steps| - 1], steps[|steps| - 1];
      assert Feeds(constraints[last.index], c.target);
      var before := Derived(constraints, front).value;
      assert Derivable(constraints, before) && before.ptr == c.source && l == Field(before.loc, c.field);
    }
  }

  /** Two pointers fed by different fields share no location, whatever structs they come from. */
  lemma DistinctFields(facts: set<Fact>, constraints: seq<Constraint>, i: nat, j: nat, l: string)
    requires LeastSolution(facts, constraints) && i < |constraints| && j < |constraints|
    requires constraints[i].StructField? && constraints[j].StructField? && constraints[i].field != constraints[j].field
    requires forall k | 0 <= k < |constraints| && Feeds(constraints[k], constraints[i].target) :: k == i
    requires forall k | 0 <= k < |constraints| && Feeds(constraints[k], constraints[j].target) :: k == j
    ensures !(PointsTo(constraints[i].target, l) in facts && PointsTo(constraints[j].target, l) in facts)
  {
    FieldOnly(facts, constraints, i, l);
    FieldOnly(facts, constraints, j, l);
    if PointsTo(constraints[i].target, l) in facts && PointsTo(constraints[j].target, l) in facts {
      var a :| l == Field(a, constraints[i].field);
      var b :| l == Field(b, constraints[j].field);
      FieldInjective(a, constraints[i].field, b, constraints[j].field);
    }
  }

  /** Two fields of one struct. */
  const TWO_FIELDS := [Seed("p", "s"), StructField("q", "p", 0), StructField("r", "p", 1)]

  lemma TwoFieldsLayered()
    ensures Solvable(TWO_FIELDS)
  {
    LayeredSolvable(TWO_FIELDS, (x: string) => if x == "p" then 0 else 1, 0, 0);
  }

  /** `solve` keeps them apart. */
  method SolveTwoFields() returns (pts: map<string, set<string>>, ptsMem: map<string, set<string>>)
    ensures forall l :: PointsTo("q", l) in PtsFacts(pts) + MemFacts(ptsMem) <==> l == "s$f0"
    ensures forall l :: PointsTo("r", l) in PtsFacts(pts) + MemFacts(ptsMem) <==> l == "s$f1"
  {
    TwoFieldsLayered();
    pts, ptsMem := Solve(TWO_FIELDS);
    ghost var facts := PtsFacts(pts) + MemFacts(ptsMem);
    TwoFieldsOnly(facts);
  }

  lemma TwoFieldsOnly(facts: set<Fact>)
    requires LeastSolution(facts, TWO_FIELDS)
    ensures forall l :: PointsTo("q", l) in facts <==> l == "s$f0"
    ensures forall l :: PointsTo("r", l) in facts <==> l == "s$f1"
  {
    forall l ensures PointsTo("p", l) in facts <==> l == "s" {
      SeedOnly(facts, l);
    }
    forall l
      ensures PointsTo("q", l) in facts <==> l == Field("s", 0)
      ensures PointsTo("r", l) in facts <==> l == Field("s", 1)
    {
      FieldOnly(facts, TWO_FIELDS, 1, l);
      FieldOnly(facts, TWO_FIELDS, 2, l);
    }
    assert Digits(0) == "0" && Digits(1) == "1" && Field("s", 0) == "s$f0" && Field("s", 1) == "s$f1";
  }

  lemma SeedOnly(facts: set<Fact>, l: string)
    requires LeastSolution(facts, TWO_FIELDS)
    ensures PointsTo("p", l) in facts <==> l == "s"
  {
    LeastIsDerivable(facts, TWO_FIELDS);
    assert Satisfied(TWO_FIELDS[0], facts);
    if PointsTo("p", l) in facts {
      var steps: seq<Step> :| Derived(TWO_FIELDS, steps) == Some(PointsTo("p", l));
      assert steps[|steps| - 1].index == 0;
    }
  }

  const FIELD_CYCLE := [Seed("p", "l"), StructField("p", "p", 0)]

  /** A field constraint that feeds itself has no finite solution, so `solve` does not end on it. */
  lemma FieldCycleUnsolvable()
    ensures !Solvable(FIELD_CYCLE)
  {
    var start, around := Step(0, []), Step(1, []);
    assert [start][..0] == [] && [start, around][..1] == [start];
    assert [start, around, around][..2] == [start, around];
    assert Derived(FIELD_CYCLE, [start]) == Some(PointsTo("p", "l"));
    assert Derived(FIELD_CYCLE, [start, around]) == Some(PointsTo("p", Field("l", 0)));
    assert Derived(FIELD_CYCLE, [start, around, around]).Some?;
    assert Repeats(FIELD_CYCLE, [start, around, around]);
    SolvableExactly(FIELD_CYCLE);
  }
}
