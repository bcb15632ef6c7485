/** The symbolic path walk of src/analysis/dart/mod.rs: a path condition over versioned names,
    built by appending, and the reading of it against concrete execution. */
module SymbolicWalk {
  import opened Formulas
  import opened Semantics
  import opened Substitution
  import opened Transfer
  import opened Graphs
  import opened PathSearch
  import opened KeyOrders

  // ---- What a path executes -----------------------------------------------------------------

  /** An effect met on the path, with the node and the visit that version what it assigns. */
  datatype Event = Event(effect: Effect, node: nat, visit: nat)

  function Tagged(effects: seq<Effect>, node: nat, visit: nat): seq<Event> {
    seq(|effects|, i requires 0 <= i < |effects| => Event(effects[i], node, visit))
  }

  /** One edge after `before`: the source's effects, the guard, and the edge's effects, which
      already belong to the upcoming visit of the target. */
  function EdgeEvents(cfg: Cfg, before: seq<nat>, e: nat): seq<Event>
    requires WellFormed(cfg) && e < |cfg.edges|
  {
    var edge := cfg.edges[e];
    var visit := LeftCount(cfg, before, edge.source) + 1;
    Tagged(cfg.nodes[edge.source], edge.source, visit)
    + [Event(Assume(edge.guard), edge.source, visit)]
    + Tagged(edge.effects, edge.target, LeftCount(cfg, before + [e], edge.target) + 1)
  }

  /** Everything the path executes, in order. Ids that name no edge are passed over. */
  function PathEvents(cfg: Cfg, path: seq<nat>): seq<Event>
    requires WellFormed(cfg)
  {
    if path == [] then []
    else
      var front, e := path[..|path| - 1], path[|path| - 1];
      PathEvents(cfg, front) + (if e < |cfg.edges| then EdgeEvents(cfg, front, e) else [])
  }

  ghost predicate Passes(e: Effect, s: State) {
    match e
    case Assume(c) => Eval(c, s)
    case Obligation(c) => Eval(c, s)
    case TypeBound(c) => Eval(c, s)
    case _ => true
  }

  /** One outcome of an effect; where the effect has several, the one that changes nothing. */
  ghost function Next(e: Effect, s: State): State {
    match e
    case Assign(v, ValueTerm(x)) => s.SetInt(v, EvalT(x, s))
    case Assign(v, ValueFormula(p)) => s.SetBool(v, Eval(p, s))
    case MemoryStore(r, o, x) => s.Write(r, EvalT(o, s), EvalT(x, s))
    case _ => s
  }

  ghost function Outcome(events: seq<Event>, s: State): Option<State> {
    if events == [] then Some(s)
    else
      var e := events[|events| - 1].effect;
      match Outcome(events[..|events| - 1], s)
      case None => None
      case Some(t) => if Passes(e, t) then Some(Next(e, t)) else None
  }

  // ---- Reading a formula through versions and store chains ----------------------------------

  /** The program state that a model of versioned names and store chains stands for. */
  ghost function View(m: State, version: map<string, string>, memory: map<string, Memory>): State {
    m.(ints := (v: Var) => if v.sort == IntSort && v.name in version then m.ints(Var(version[v.name], IntSort))
                           else m.ints(v),
       bools := (v: Var) => if v.sort == BoolSort && v.name in version then m.bools(Var(version[v.name], BoolSort))
                            else m.bools(v),
       mem := (r: string, at: int) => if r in memory then Read(memory[r], m, at) else m.mem(r, at))
  }

  /** The chain of region `r` reads no other region. */
  ghost predicate OwnRegion(r: string, chain: Memory) {
    forall s: State, t: State, at: int ::
      SameScalars(s, t) && SameAt(s, t, Mem(r)) ==> Read(chain, s, at) == Read(chain, t, at)
  }

  /** The one-at-a-time substitutions cannot touch what an earlier one inserted, and no renamed
      Boolean is under a `BoolToInt`. */
  ghost predicate Substitutable(version: map<string, string>, memory: map<string, Memory>, hidden: set<Name>) {
    (forall k | k in version :: version[k] !in version && Scalar(Var(k, BoolSort)) !in hidden)
    && forall r | r in memory :: OwnRegion(r, memory[r])
  }

  function IntRename(k: string, name: string): Subst {
    VarBy(Var(k, IntSort), TVar(Var(name, IntSort)))
  }

  function BoolRename(k: string, name: string): Subst {
    BoolBy(Var(k, BoolSort), FVar(Var(name, BoolSort)))
  }

  /** The substitutions of the walk, one key after the other: the versions, then the chains. */
  function Renaming(order: seq<string>, version: map<string, string>, f: Formula): Formula
    requires forall k | k in order :: k in version
  {
    if order == [] then f
    else
      var k := order[|order| - 1];
      Apply(BoolRename(k, version[k]), Apply(IntRename(k, version[k]), Renaming(order[..|order| - 1], version, f)))
  }

  function RenamingT(order: seq<string>, version: map<string, string>, t: Term): Term
    requires forall k | k in order :: k in version
  {
    if order == [] then t
    else
      var k := order[|order| - 1];
      ApplyT(IntRename(k, version[k]), RenamingT(order[..|order| - 1], version, t))
  }

  function Chaining(order: seq<string>, memory: map<string, Memory>, f: Formula): Formula
    requires forall r | r in order :: r in memory
  {
    if order == [] then f
    else
      var r := order[|order| - 1];
      Apply(RegionBy(r, memory[r]), Chaining(order[..|order| - 1], memory, f))
  }

  function ChainingT(order: seq<string>, memory: map<string, Memory>, t: Term): Term
    requires forall r | r in order :: r in memory
  {
    if order == [] then t
    else
      var r := order[|order| - 1];
      ApplyT(RegionBy(r, memory[r]), ChainingT(order[..|order| - 1], memory, t))
  }

  ghost function RenamedState(m: State, k: string, name: string): State {
    Updated(IntRename(k, name), Updated(BoolRename(k, name), m))
  }

  lemma ViewOfNothing(m: State)
    ensures Same(View(m, map[], map[]), m)
  {
  }

  lemma ViewOfRenamed(m: State, version: map<string, string>, order: seq<string>)
    requires order != [] && Once(order) && forall k | k in order :: k in version
    requires forall q | q in version :: version[q] !in version
    ensures var k := order[|order| - 1];
            Same(View(RenamedState(m, k, version[k]), Restrict(version, order[..|order| - 1]), map[]),
                 View(m, Restrict(version, order), map[]))
  {
    var front, k := order[..|order| - 1], order[|order| - 1];
    assert k !in front && order == front + [k];
    var n := RenamedState(m, k, version[k]);
    forall v: Var
      ensures View(n, Restrict(version, front), map[]).ints(v) == View(m, Restrict(version, order), map[]).ints(v)
      ensures View(n, Restrict(version, front), map[]).bools(v) == View(m, Restrict(version, order), map[]).bools(v)
    {
      RenamedStateAt(m, k, version[k], v);
      if v.name in front {
        RenamedStateAt(m, k, version[k], Var(version[v.name], v.sort));
      }
    }
  }

  lemma RenamedStateAt(m: State, k: string, name: string, v: Var)
    ensures var n := RenamedState(m, k, name);
            n.ints(v) == (if v == Var(k, IntSort) then m.ints(Var(name, IntSort)) else m.ints(v))
            && n.bools(v) == (if v == Var(k, BoolSort) then m.bools(Var(name, BoolSort)) else m.bools(v))
  {
    assert EvalT(TVar(Var(name, IntSort)), Updated(BoolRename(k, name), m)) == m.ints(Var(name, IntSort));
    assert Eval(FVar(Var(name, BoolSort)), m) == m.bools(Var(name, BoolSort));
  }

  lemma ViewOfChained(m: State, version: map<string, string>, memory: map<string, Memory>, order: seq<string>)
    requires order != [] && Once(order) && forall r | r in order :: r in memory
    requires forall q | q in memory :: OwnRegion(q, memory[q])
    ensures var r := order[|order| - 1];
            Same(View(Updated(RegionBy(r, memory[r]), m), version, Restrict(memory, order[..|order| - 1])),
                 View(m, version, Restrict(memory, order)))
  {
    var front, r := order[..|order| - 1], order[|order| - 1];
    var n := Updated(RegionBy(r, memory[r]), m);
    assert r !in front && order == front + [r];
    forall q, at | q in front
      ensures Read(memory[q], n, at) == Read(memory[q], m, at)
    {
      assert SameScalars(n, m) && SameAt(n, m, Mem(q));
    }
  }

  lemma {:induction false} RenamingMeaning(order: seq<string>, version: map<string, string>, f: Formula, m: State)
    requires Once(order) && (forall k | k in order :: k in version) && Substitutable(version, map[], Hidden(f))
    ensures Hidden(Renaming(order, version, f)) <= Hidden(f)
    ensures Eval(Renaming(order, version, f), m) <==> Eval(f, View(m, Restrict(version, order), map[]))
  {
    if order == [] {
      ViewOfNothing(m);
      assert Restrict(version, order) == map[];
      Congruence(f, m, View(m, map[], map[]));
    } else {
      var front, k := order[..|order| - 1], order[|order| - 1];
      var name, g := version[k], Renaming(front, version, f);
      var h := Apply(IntRename(k, name), g);
      var n := RenamedState(m, k, name);
      RenamingMeaning(front, version, f, n);
      assert HiddenT(TVar(Var(name, IntSort))) == {} && Hidden(FVar(Var(name, BoolSort))) == {};
      AppliedHidden(IntRename(k, name), g);
      AppliedHidden(BoolRename(k, name), h);
      Substituted(BoolRename(k, name), h, m);
      Substituted(IntRename(k, name), g, Updated(BoolRename(k, name), m));
      ViewOfRenamed(m, version, order);
      Congruence(f, View(n, Restrict(version, front), map[]), View(m, Restrict(version, order), map[]));
    }
  }

  /** The walk's substitutions read the formula in the program state the model stands for, in
      whatever order the two maps are iterated. */
  lemma {:induction false} WalkMeaning(
      order: seq<string>, version: map<string, string>, chains: seq<string>, memory: map<string, Memory>,
      f: Formula, m: State)
    requires Lists(order, version.Keys) && Once(chains) && forall r | r in chains :: r in memory
    requires Substitutable(version, memory, Hidden(f))
    ensures Eval(Chaining(chains, memory, Renaming(order, version, f)), m) <==>
            Eval(f, View(m, version, Restrict(memory, chains)))
    decreases |chains|
  {
    if chains == [] {
      RenamingMeaning(order, version, f, m);
      assert Restrict(version, order) == version && Restrict(memory, chains) == map[];
    } else {
      var front, r := chains[..|chains| - 1], chains[|chains| - 1];
      var sub := RegionBy(r, memory[r]);
      WalkMeaning(order, version, front, memory, f, Updated(sub, m));
      Substituted(sub, Chaining(front, memory, Renaming(order, version, f)), m);
      ViewOfChained(m, version, memory, chains);
      Congruence(f, View(Updated(sub, m), version, Restrict(memory, front)),
                 View(m, version, Restrict(memory, chains)));
    }
  }

  lemma WalkIsView(
      order: seq<string>, version: map<string, string>, chains: seq<string>, memory: map<string, Memory>, f: Formula)
    requires Lists(order, version.Keys) && Lists(chains, memory.Keys)
    ensures Substitutable(version, memory, Hidden(f)) ==>
              forall m: State ::
                Eval(Chaining(chains, memory, Renaming(order, version, f)), m) <==> Eval(f, View(m, version, memory))
  {
    assert Restrict(memory, chains) == memory;
    if Substitutable(version, memory, Hidden(f)) {
      forall m: State
        ensures Eval(Chaining(chains, memory, Renaming(order, version, f)), m) <==> Eval(f, View(m, version, memory))
      {
        WalkMeaning(order, version, chains, memory, f, m);
      }
    }
  }

  lemma {:induction false} RenamingTMeaning(order: seq<string>, version: map<string, string>, t: Term, m: State)
    requires Once(order) && (forall k | k in order :: k in version) && Substitutable(version, map[], HiddenT(t))
    ensures HiddenT(RenamingT(order, version, t)) <= HiddenT(t)
    ensures EvalT(RenamingT(order, version, t), m) == EvalT(t, View(m, Restrict(version, order), map[]))
  {
    if order == [] {
      ViewOfNothing(m);
      assert Restrict(version, order) == map[];
      CongruenceT(t, m, View(m, map[], map[]));
    } else {
      var front, k := order[..|order| - 1], order[|order| - 1];
      var name, g := version[k], RenamingT(front, version, t);
      var h := ApplyT(IntRename(k, name), g);
      var n := RenamedState(m, k, name);
      RenamingTMeaning(front, version, t, n);
      assert HiddenT(TVar(Var(name, IntSort))) == {};
      AppliedHiddenT(IntRename(k, name), g);
      SubstitutedT(BoolRename(k, name), h, m);
      SubstitutedT(IntRename(k, name), g, Updated(BoolRename(k, name), m));
      ViewOfRenamed(m, version, order);
      CongruenceT(t, View(n, Restrict(version, front), map[]), View(m, Restrict(version, order), map[]));
    }
  }

  /** The term walk renames integer occurrences only, which is enough when no renamed Boolean is
      under a `BoolToInt`. */
  lemma {:induction false} WalkTMeaning(
      order: seq<string>, version: map<string, string>, chains: seq<string>, memory: map<string, Memory>,
      t: Term, m: State)
    requires Lists(order, version.Keys) && Once(chains) && forall r | r in chains :: r in memory
    requires Substitutable(version, memory, HiddenT(t))
    ensures EvalT(ChainingT(chains, memory, RenamingT(order, version, t)), m) ==
            EvalT(t, View(m, version, Restrict(memory, chains)))
    decreases |chains|
  {
    if chains == [] {
      RenamingTMeaning(order, version, t, m);
      assert Restrict(version, order) == version && Restrict(memory, chains) == map[];
    } else {
      var front, r := chains[..|chains| - 1], chains[|chains| - 1];
      var sub := RegionBy(r, memory[r]);
      WalkTMeaning(order, version, front, memory, t, Updated(sub, m));
      SubstitutedT(sub, ChainingT(front, memory, RenamingT(order, version, t)), m);
      ViewOfChained(m, version, memory, chains);
      CongruenceT(t, View(Updated(sub, m), version, Restrict(memory, front)),
                 View(m, version, Restrict(memory, chains)));
    }
  }

  /** `subst_formula_walk`: evaluating the result in a model is evaluating the formula in the
      program state the model stands for. */
  method SubstFormulaWalk(f: Formula, version: map<string, string>, memory: map<string, Memory>) returns (r: Formula)
    ensures Substitutable(version, memory, Hidden(f)) ==>
              forall m: State :: Eval(r, m) <==> Eval(f, View(m, version, memory))
  {
    var order := AnyOrder(version.Keys);
    r := f;
    for i := 0 to |order|
      invariant r == Renaming(order[..i], version, f)
    {
      var k := order[i];
      assert order[..i + 1][..i] == order[..i];
      r := Apply(BoolRename(k, version[k]), Apply(IntRename(k, version[k]), r));
    }
    assert order[..|order|] == order;
    ghost var renamed := r;
    var chains := AnyOrder(memory.Keys);
    for i := 0 to |chains|
      invariant r == Chaining(chains[..i], memory, renamed)
    {
      assert chains[..i + 1][..i] == chains[..i];
      r := Apply(RegionBy(chains[i], memory[chains[i]]), r);
    }
    assert chains[..|chains|] == chains;
    WalkIsView(order, version, chains, memory, f);
  }

  /** `subst_term_walk`. */
  method SubstTermWalk(t: Term, version: map<string, string>, memory: map<string, Memory>) returns (r: Term)
    ensures Substitutable(version, memory, HiddenT(t)) ==>
              forall m: State :: EvalT(r, m) == EvalT(t, View(m, version, memory))
  {
    var order := AnyOrder(version.Keys);
    r := t;
    for i := 0 to |order|
      invariant r == RenamingT(order[..i], version, t)
    {
      var k := order[i];
      assert order[..i + 1][..i] == order[..i];
      r := ApplyT(IntRename(k, version[k]), r);
    }
    assert order[..|order|] == order;
    ghost var renamed := r;
    var chains := AnyOrder(memory.Keys);
    for i := 0 to |chains|
      invariant r == ChainingT(chains[..i], memory, renamed)
    {
      assert chains[..i + 1][..i] == chains[..i];
      r := ApplyT(RegionBy(chains[i], memory[chains[i]]), r);
    }
    assert chains[..|chains|] == chains && Restrict(memory, chains) == memory;
    if Substitutable(version, memory, HiddenT(t)) {
      forall m: State ensures EvalT(r, m) == EvalT(t, View(m, version, memory)) {
        WalkTMeaning(order, version, chains, memory, t, m);
      }
    }
  }
}
