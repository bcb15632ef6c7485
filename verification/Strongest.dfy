/** How strong the forward pass of src/analysis/loops/mod.rs is: on single-assignment graphs its result
    at the header describes exactly the first entries, unless a store has no constant offset or a
    join drops a fact. */
module Strongest {
  import opened Formulas
  import opened Semantics
  import opened Transfer
  import opened Graphs
  import opened Ordering
  import opened Runs
  import opened Reach

  // ---- What effects teach ---------------------------------------------------------------------

  /** The pass records all of what the effect does: everything but a store at an offset that is no
      constant. */
  predicate Recorded(e: Effect) {
    e.MemoryStore? ==> TryConst(e.offset).Some?
  }

  predicate AllRecorded(effects: seq<Effect>) {
    forall e | e in effects :: Recorded(e)
  }

  /** The state with the cells of the facts for which `reset` asks set to the facts' values. */
  ghost function Restored(facts: StoreFacts, reset: (string, int) -> bool, t: State): State {
    t.(mem := (q: string, j: int) => if (q, j) in facts && reset(q, j) then EvalT(facts[(q, j)], t) else t.mem(q, j))
  }

  /** Resetting cells of regions that no fact mentions makes the facts true that it resets. */
  lemma RestoredFacts(facts: StoreFacts, reset: (string, int) -> bool, regions: set<string>, t: State)
    requires forall q, j | reset(q, j) :: q in regions
    requires forall r | r in regions :: Mem(r) !in FactNames(facts)
    requires forall k | k in facts && !reset(k.0, k.1) :: t.mem(k.0, k.1) == EvalT(facts[k], t)
    ensures FactsHold(facts, Restored(facts, reset, t))
  {
    var s := Restored(facts, reset, t);
    forall k | k in facts ensures s.mem(k.0, k.1) == EvalT(facts[k], s) {
      assert NamesT(facts[k]) <= FactNames(facts);
      forall n | n in NamesT(facts[k]) ensures SameAt(s, t, n) {
      }
      CongruenceT(facts[k], s, t);
      assert (k.0, k.1) == k;
    }
  }

  lemma RestoredSame(facts: StoreFacts, reset: (string, int) -> bool, regions: set<string>, t: State, names: set<Name>)
    requires forall q, j | reset(q, j) :: q in regions
    requires forall r | r in regions :: Mem(r) !in names
    ensures SameOn(Restored(facts, reset, t), t, names)
  {
    forall n | n in names ensures SameAt(Restored(facts, reset, t), t, n) {
    }
  }

  /** A constant-offset store: the state before it has the cell's old value again. */
  lemma StoreTaught(e: Effect, f: Formula, facts: StoreFacts, t: State) returns (s: State, t': State)
    requires e.MemoryStore? && Recorded(e)
    requires Names(f) !! {Mem(e.region)} && Mem(e.region) !in FactNames(facts) + Mentions(e)
    requires Eval(f, t) && FactsHold(SpOne(e, f, facts).1, t) && TruncatedOps(t)
    ensures Step(e, s, t') && Same(t', t) && Eval(f, s) && FactsHold(facts, s) && SameOps(s, t)
  {
    var r, k := e.region, TryConst(e.offset).value;
    var after := facts[(r, k) := Resolve(e.stored, facts)];
    var reset := (q: string, j: int) => q == r && j == k;
    s := Restored(facts, reset, t);
    forall c | c in facts && !reset(c.0, c.1) ensures t.mem(c.0, c.1) == EvalT(facts[c], t) {
      assert (c.0, c.1) == c && c in after && after[c] == facts[c];
    }
    RestoredFacts(facts, reset, {r}, t);
    RestoredSame(facts, reset, {r}, t, Names(f));
    Congruence(f, s, t);
    ConstValue(e.offset, s);
    ResolvedValue(e.stored, facts, s);
    ResolvedNames(e.stored, facts);
    RestoredSame(facts, reset, {r}, t, NamesT(Resolve(e.stored, facts)));
    CongruenceT(Resolve(e.stored, facts), s, t);
    assert (r, k) in after && t.mem(r, k) == EvalT(after[(r, k)], t);
    t' := s.Write(r, EvalT(e.offset, s), EvalT(e.stored, s));
  }

  /** A havoc or a call: the state before it has the lost facts again. */
  lemma HavocTaught(e: Effect, f: Formula, facts: StoreFacts, t: State, before: set<Name>) returns (s: State)
    requires e.HavocRegions? || e.Call?
    requires Names(f) + FactNames(facts) <= before && EffectFresh(e, before)
    requires Eval(f, t) && FactsHold(SpOne(e, f, facts).1, t)
    ensures Step(e, s, t) && Eval(f, s) && FactsHold(facts, s) && SameOps(s, t)
  {
    if e.Call? && !e.havocsMemory {
      s := t;
    } else {
      var regions := if e.Call? then set k | k in facts :: k.0 else set r | r in e.regions;
      var reset := (q: string, j: int) => q in regions;
      s := Restored(facts, reset, t);
      var kept := SpOne(e, f, facts).1;
      forall k | k in facts && !reset(k.0, k.1) ensures t.mem(k.0, k.1) == EvalT(facts[k], t) {
        assert k in kept && kept[k] == facts[k];
      }
      forall r | r in regions ensures Mem(r) !in before {
        if e.HavocRegions? {
          assert Mem(r) in Regions(e.regions);
        }
      }
      RestoredFacts(facts, reset, regions, t);
      RestoredSame(facts, reset, regions, t, Names(f));
      Congruence(f, s, t);
      assert e.HavocRegions? ==> SameExcept(s, t, Regions(e.regions)) by {
        if e.HavocRegions? {
          forall n | n !in Regions(e.regions) ensures SameAt(s, t, n) {
          }
        }
      }
    }
  }

  /** An assignment: the equation of the formula says that it has already happened. */
  lemma AssignTaught(e: Effect, f: Formula, facts: StoreFacts, t: State) returns (t': State)
    requires e.Assign? && Eval(SpOne(e, f, facts).0, t) && FactsHold(facts, t) && TruncatedOps(t)
    ensures Step(e, t, t') && Same(t', t) && Eval(f, t)
  {
    match e.value
    case ValueTerm(x) =>
      AndMeaning(f, Cmp(Eq, TVar(e.target), Resolve(x, facts)), t);
      ResolvedValue(x, facts, t);
      assert EvalT(TVar(e.target), t) == t.ints(e.target);
      t' := t.SetInt(e.target, EvalT(x, t));
    case ValueFormula(p) =>
      AndMeaning(ImpliesOf(FVar(e.target), p), ImpliesOf(p, FVar(e.target)), t);
      AndMeaning(f, AndOf(ImpliesOf(FVar(e.target), p), ImpliesOf(p, FVar(e.target))), t);
      t' := t.SetBool(e.target, Eval(p, t));
  }

  /** Whatever satisfies formula and facts after an effect is the outcome of the effect on a state
      that satisfies formula and facts before it. */
  lemma SpOneTaught(e: Effect, f: Formula, facts: StoreFacts, t: State, before: set<Name>)
    returns (s: State, t': State)
    requires Recorded(e) && Names(f) + FactNames(facts) <= before && EffectFresh(e, before)
    requires Eval(SpOne(e, f, facts).0, t) && FactsHold(SpOne(e, f, facts).1, t) && TruncatedOps(t)
    ensures Step(StrictOne(e), s, t') && Same(t', t) && Eval(f, s) && FactsHold(facts, s) && SameOps(s, t)
  {
    s, t' := t, t;
    match e
    case Assign(_, _) => t' := AssignTaught(e, f, facts, t);
    case MemoryStore(_, _, _) => s, t' := StoreTaught(e, f, facts, t);
    case HavocRegions(_) => s := HavocTaught(e, f, facts, t, before);
    case Call(_) => s := HavocTaught(e, f, facts, t, before);
    case Assume(c) => AndMeaning(f, c, t);
    case TypeBound(c) => AndMeaning(f, c, t);
    case Obligation(c) => AndMeaning(f, c, t);
    case Nop =>
  }

  /** The pass is as strong as it can be: on effects that it records and that write nothing
      mentioned before, every state that satisfies formula and facts after them is the outcome of a
      run from a state that satisfies formula and facts before them. */
  lemma {:induction false} SpStrongest(effects: seq<Effect>, f: Formula, facts: StoreFacts, t: State, before: set<Name>)
    returns (s: State, t': State)
    requires AllRecorded(effects) && Names(f) + FactNames(facts) <= before && EffectsFresh(effects, before)
    requires Eval(Sp(effects, f, facts).0, t) && FactsHold(Sp(effects, f, facts).1, t) && TruncatedOps(t)
    ensures Run(StrictEffects(effects), s, t') && Same(t', t) && Eval(f, s) && FactsHold(facts, s) && SameOps(s, t)
    decreases |effects|
  {
    if effects == [] {
      s, t' := t, t;
    } else {
      var e, rest, next := effects[0], effects[1..], SpOne(effects[0], f, facts);
      SpOneNames(e, f, facts);
      assert e in effects && AllRecorded(rest);
      var u, t1 := SpStrongest(rest, next.0, next.1, t, before + Mentions(e));
      var u1;
      s, u1 := SpOneTaught(e, f, facts, u, before);
      SameTrans(u1, u, u);
      t' := RunSame(StrictEffects(rest), u, t1, u1);
      SameTrans(t', t1, t);
      assert StrictEffects(effects)[1..] == StrictEffects(rest);
    }
  }

  // ---- One edge -------------------------------------------------------------------------------

  predicate EdgeRecorded(cfg: Cfg, e: nat)
    requires WellFormed(cfg) && e < |cfg.edges|
  {
    AllRecorded(cfg.nodes[cfg.edges[e].source]) && AllRecorded(cfg.edges[e].effects)
  }

  lemma SpEdgeStrongest(cfg: Cfg, e: nat, f: Formula, facts: StoreFacts, t: State, before: set<Name>)
    returns (s: State, t': State)
    requires WellFormed(cfg) && e < |cfg.edges| && EdgeRecorded(cfg, e)
    requires Names(f) + FactNames(facts) <= before && EdgeFresh(cfg, e, before)
    requires Eval(SpEdge(cfg, e, f, facts).0, t) && FactsHold(SpEdge(cfg, e, f, facts).1, t) && TruncatedOps(t)
    ensures Cross(Strict(cfg), e, s, t') && Same(t', t) && Eval(f, s) && FactsHold(facts, s) && SameOps(s, t)
  {
    var edge := cfg.edges[e];
    var effects := cfg.nodes[edge.source];
    var out := Sp(effects, f, facts);
    SpNames(effects, f, facts, before);
    AndNames(out.0, edge.guard);
    var after := before + MentionsAll(effects) + Names(edge.guard);
    var m, t1 := SpStrongest(edge.effects, AndOf(out.0, edge.guard), out.1, t, after);
    AndMeaning(out.0, edge.guard, m);
    var m1;
    s, m1 := SpStrongest(effects, f, facts, m, before);
    SameTrans(m1, m, m);
    Congruence(edge.guard, m, m1);
    t' := RunSame(StrictEffects(edge.effects), m, t1, m1);
    SameTrans(t', t1, t);
    CrossVia(Strict(cfg), e, s, m1, t');
  }

  lemma CrossSame(cfg: Cfg, e: nat, s: State, t: State, u: State) returns (v: State)
    requires WellFormed(cfg) && e < |cfg.edges| && Cross(cfg, e, s, t) && Same(s, u)
    ensures Cross(cfg, e, u, v) && Same(t, v)
  {
    var edge := cfg.edges[e];
    var m :| Run(cfg.nodes[edge.source], s, m) && Eval(edge.guard, m) && Run(edge.effects, m, t);
    var w := RunSame(cfg.nodes[edge.source], s, m, u);
    Congruence(edge.guard, m, w);
    v := RunSame(edge.effects, m, t, w);
    CrossVia(cfg, e, u, w, v);
  }

  // ---- The pass -------------------------------------------------------------------------------

  /** Every edge on the way to the header is recorded in full. */
  ghost predicate WayRecorded(cfg: Cfg, excluded: set<nat>, header: nat)
    requires WellFormed(cfg)
  {
    forall e: nat | OnWay(cfg, excluded, header, e) :: EdgeRecorded(cfg, e)
  }

  /** On the way to the header every node has the facts of all its incoming edges. */
  ghost predicate JoinsKeep(cfg: Cfg, excluded: set<nat>, header: nat, reach: seq<Formula>, facts: seq<StoreFacts>)
    requires WellFormed(cfg) && |reach| == |facts| == |cfg.nodes|
  {
    forall e: nat | OnWay(cfg, excluded, header, e) ::
      var n := cfg.edges[e].source;
      reach[n] != False ==> facts[cfg.edges[e].target] == SpEdge(cfg, e, reach[n], facts[n]).1
  }

  /** On the way to the header no two edges meet. This speaks of the graph alone. */
  ghost predicate NoJoins(cfg: Cfg, excluded: set<nat>, header: nat)
    requires WellFormed(cfg)
  {
    forall d: nat, e: nat | OnWay(cfg, excluded, header, d) && OnWay(cfg, excluded, header, e) ::
      cfg.edges[d].target == cfg.edges[e].target ==> d == e
  }

  /** A formula of the pass holds only where the contribution of a live edge does. */
  lemma {:induction false} GatheredOnly(
      cfg: Cfg, excluded: set<nat>, reach: seq<Formula>, facts: seq<StoreFacts>, base: Formula, edges: seq<nat>,
      s: State)
    returns (e: nat)
    requires WellFormed(cfg) && |reach| == |facts| == |cfg.nodes| && EdgeIds(cfg, edges)
    requires Eval(Gathered(cfg, excluded, reach, facts, base, edges).0, s) && !Eval(base, s)
    ensures e in edges && Live(cfg, excluded, reach, e)
    ensures Eval(SpEdge(cfg, e, reach[cfg.edges[e].source], facts[cfg.edges[e].source]).0, s)
    decreases |edges|
  {
    var front, last := edges[..|edges| - 1], edges[|edges| - 1];
    assert edges == front + [last];
    var (f, incoming) := Gathered(cfg, excluded, reach, facts, base, front);
    if Live(cfg, excluded, reach, last) {
      var through := SpEdge(cfg, last, reach[cfg.edges[last].source], facts[cfg.edges[last].source]);
      OrMeaning(f, through.0, s);
      if Eval(through.0, s) {
        e := last;
        return;
      }
    }
    e := GatheredOnly(cfg, excluded, reach, facts, base, front, s);
  }

  /** The live edge by which the pass came to claim the state. */
  lemma ClaimedThrough(
      cfg: Cfg, excluded: set<nat>, header: nat, order: seq<nat>, i: nat, reach: seq<Formula>,
      facts: seq<StoreFacts>, t: State)
    returns (e: nat, j: nat)
    requires ReachSolved(cfg, excluded, reach, facts) && IsTopological(cfg, excluded, order) && i < |order|
    requires order[i] < |cfg.nodes| && order[i] != cfg.entry && Eval(reach[order[i]], t)
    requires Connected(cfg, excluded, order[i], header)
    ensures OnWay(cfg, excluded, header, e) && cfg.edges[e].target == order[i]
    ensures j < i && order[j] == cfg.edges[e].source && reach[order[j]] != False
    ensures Connected(cfg, excluded, order[j], header)
    ensures Eval(SpEdge(cfg, e, reach[order[j]], facts[order[j]]).0, t)
  {
    var n := order[i];
    assert NodeSolved(cfg, excluded, reach, facts, n);
    e := GatheredOnly(cfg, excluded, reach, facts, Initial(cfg, n), Incoming(cfg, n), t);
    j := SourcesEarlier(cfg, excluded, order, i, e);
    SolvedConnected(cfg, excluded, order, j, reach, facts);
    var p := Prepend(cfg, excluded, e, header);
  }

  /** On a written-once graph whose effects the pass records and whose joins drop no fact, every
      state that formula and facts of a node describe is one that a run arrives in. */
  lemma {:induction false} PassStrongest(
      cfg: Cfg, excluded: set<nat>, header: nat, order: seq<nat>, i: nat, reach: seq<Formula>,
      facts: seq<StoreFacts>, t: State)
    returns (t': State)
    requires ReachSolved(cfg, excluded, reach, facts) && IsTopological(cfg, excluded, order) && i < |order|
    requires WrittenOnce(cfg, excluded, header) && WayRecorded(cfg, excluded, header)
    requires JoinsKeep(cfg, excluded, header, reach, facts)
    requires order[i] < |cfg.nodes| && Connected(cfg, excluded, order[i], header)
    requires Eval(reach[order[i]], t) && FactsHold(facts[order[i]], t) && TruncatedOps(t)
    ensures Same(t', t) && Arrives(Strict(cfg), excluded, order[i], t')
  {
    var n := order[i];
    if n == cfg.entry {
      t' := t;
      assert IsPath(Strict(cfg), excluded, [], n, n) && Follows(Strict(cfg), [], t, t);
    } else {
      var e, j := ClaimedThrough(cfg, excluded, header, order, i, reach, facts, t);
      var m := order[j];
      SolvedNames(cfg, excluded, order, j, reach, facts);
      var s, t1 := SpEdgeStrongest(cfg, e, reach[m], facts[m], t, MentionedBefore(cfg, excluded, m));
      var s1 := PassStrongest(cfg, excluded, header, order, j, reach, facts, s);
      t' := ArrivesThrough(cfg, excluded, e, s, s1, t, t1);
    }
  }

  /** An arrival before the edge, and the crossing from the same state, make an arrival after it. */
  lemma ArrivesThrough(cfg: Cfg, excluded: set<nat>, e: nat, s: State, s1: State, t: State, t1: State)
    returns (t': State)
    requires WellFormed(cfg) && e < |cfg.edges| && e !in excluded
    requires Same(s1, s) && Arrives(Strict(cfg), excluded, cfg.edges[e].source, s1)
    requires Cross(Strict(cfg), e, s, t1) && Same(t1, t)
    ensures Same(t', t) && Arrives(Strict(cfg), excluded, cfg.edges[e].target, t')
  {
    SameTrans(s1, s, s);
    t' := CrossSame(Strict(cfg), e, s, t1, s1);
    ArrivesNext(Strict(cfg), excluded, e, s1, t');
    SameTrans(t1, t', t');
    SameTrans(t', t1, t);
  }

  lemma ClaimedArrives(
      cfg: Cfg, excluded: set<nat>, header: nat, reach: seq<Formula>, facts: seq<StoreFacts>, s: State)
    returns (t: State)
    requires ReachSolved(cfg, excluded, reach, facts) && header < |cfg.nodes|
    requires WrittenOnce(cfg, excluded, header) && WayRecorded(cfg, excluded, header)
    requires JoinsKeep(cfg, excluded, header, reach, facts) && TruncatedOps(s)
    requires Eval(reach[header], s) && FactsHold(facts[header], s)
    ensures Same(t, s) && Arrives(Strict(cfg), excluded, header, t)
  {
    var order :| IsTopological(cfg, excluded, order);
    assert header in order;
    var i :| 0 <= i < |order| && order[i] == header;
    assert IsPath(cfg, excluded, [], header, header);
    t := PassStrongest(cfg, excluded, header, order, i, reach, facts, s);
  }

  lemma SameFacts(f: Formula, facts: StoreFacts, t: State, s: State)
    requires Same(t, s) && Eval(f, t) && FactsHold(facts, t)
    ensures Eval(f, s) && FactsHold(facts, s)
  {
    Congruence(f, t, s);
    forall k | k in facts ensures s.mem(k.0, k.1) == t.mem(k.0, k.1) {
      var r: string, at: int := k.0, k.1;
      assert SameAt(t, s, Mem(r));
      assert t.mem(r, at) == s.mem(r, at);
    }
    FactsSurvive(facts, t, s);
  }

  /** Formula and facts of the header hold exactly in the states of first entries. */
  lemma FirstEntryExact(
      cfg: Cfg, excluded: set<nat>, header: nat, reach: seq<Formula>, facts: seq<StoreFacts>, s: State)
    requires ReachSolved(cfg, excluded, reach, facts) && header < |cfg.nodes|
    requires WrittenOnce(cfg, excluded, header) && WayRecorded(cfg, excluded, header)
    requires JoinsKeep(cfg, excluded, header, reach, facts) && TruncatedOps(s)
    ensures Eval(reach[header], s) && FactsHold(facts[header], s)
       <==> exists t: State :: Same(t, s) && Arrives(Strict(cfg), excluded, header, t)
  {
    if Eval(reach[header], s) && FactsHold(facts[header], s) {
      var t := ClaimedArrives(cfg, excluded, header, reach, facts, s);
    }
    if t: State :| Same(t, s) && Arrives(Strict(cfg), excluded, header, t) {
      FirstEntry(cfg, excluded, header, reach, facts, t);
      SameFacts(reach[header], facts[header], t, s);
    }
  }

  lemma {:induction false} OneLive(
      cfg: Cfg, excluded: set<nat>, reach: seq<Formula>, facts: seq<StoreFacts>, base: Formula, edges: seq<nat>, e: nat)
    requires WellFormed(cfg) && |reach| == |facts| == |cfg.nodes| && EdgeIds(cfg, edges) && Increasing(edges)
    requires e < |cfg.edges| && forall d | d in edges && Live(cfg, excluded, reach, d) :: d == e
    ensures Gathered(cfg, excluded, reach, facts, base, edges).1 ==
            if e in edges && Live(cfg, excluded, reach, e)
            then Some(SpEdge(cfg, e, reach[cfg.edges[e].source], facts[cfg.edges[e].source]).1)
            else None
    decreases |edges|
  {
    if edges != [] {
      var front, last := edges[..|edges| - 1], edges[|edges| - 1];
      assert edges == front + [last];
      OneLive(cfg, excluded, reach, facts, base, front, e);
      assert last !in front;
    }
  }

  /** Where no edges meet, no fact is dropped. */
  lemma NoJoinsKeep(cfg: Cfg, excluded: set<nat>, header: nat, reach: seq<Formula>, facts: seq<StoreFacts>)
    requires ReachSolved(cfg, excluded, reach, facts) && NoJoins(cfg, excluded, header)
    ensures JoinsKeep(cfg, excluded, header, reach, facts)
  {
    forall e: nat | OnWay(cfg, excluded, header, e) && reach[cfg.edges[e].source] != False
      ensures facts[cfg.edges[e].target] == SpEdge(cfg, e, reach[cfg.edges[e].source], facts[cfg.edges[e].source]).1
    {
      var n := cfg.edges[e].target;
      assert NodeSolved(cfg, excluded, reach, facts, n);
      forall d | d in Incoming(cfg, n) && Live(cfg, excluded, reach, d) ensures d == e {
        ReachedConnected(cfg, excluded, reach, facts, cfg.edges[d].source);
        assert OnWay(cfg, excluded, header, d);
      }
      OneLive(cfg, excluded, reach, facts, Initial(cfg, n), Incoming(cfg, n), e);
    }
  }

  // ---- Facts at joins -------------------------------------------------------------------------

  /** The edge's contribution has this fact. */
  ghost predicate Brings(
      cfg: Cfg, reach: seq<Formula>, facts: seq<StoreFacts>, e: nat, k: (string, int), x: Term)
    requires WellFormed(cfg) && |reach| == |facts| == |cfg.nodes| && e < |cfg.edges|
  {
    var through := SpEdge(cfg, e, reach[cfg.edges[e].source], facts[cfg.edges[e].source]).1;
    k in through && through[k] == x
  }

  /** The edges that are live agree on the fact, and there is one. */
  ghost predicate Agreed(
      cfg: Cfg, excluded: set<nat>, reach: seq<Formula>, facts: seq<StoreFacts>, edges: seq<nat>,
      k: (string, int), x: Term)
    requires WellFormed(cfg) && |reach| == |facts| == |cfg.nodes| && EdgeIds(cfg, edges)
  {
    (exists e :: e in edges && Live(cfg, excluded, reach, e))
    && forall e | e in edges && Live(cfg, excluded, reach, e) :: Brings(cfg, reach, facts, e, k, x)
  }

  lemma AgreedNext(
      cfg: Cfg, excluded: set<nat>, reach: seq<Formula>, facts: seq<StoreFacts>, front: seq<nat>, last: nat,
      k: (string, int), x: Term)
    requires WellFormed(cfg) && |reach| == |facts| == |cfg.nodes| && EdgeIds(cfg, front) && last < |cfg.edges|
    ensures EdgeIds(cfg, front + [last])
    ensures Agreed(cfg, excluded, reach, facts, front + [last], k, x) <==>
            if Live(cfg, excluded, reach, last)
            then Brings(cfg, reach, facts, last, k, x)
                 && ((forall e | e in front :: !Live(cfg, excluded, reach, e))
                     || Agreed(cfg, excluded, reach, facts, front, k, x))
            else Agreed(cfg, excluded, reach, facts, front, k, x)
  {
    assert forall e :: e in front + [last] <==> e in front || e == last;
  }

  lemma {:induction false} GatheredFacts(
      cfg: Cfg, excluded: set<nat>, reach: seq<Formula>, facts: seq<StoreFacts>, base: Formula, edges: seq<nat>,
      k: (string, int), x: Term)
    requires WellFormed(cfg) && |reach| == |facts| == |cfg.nodes| && EdgeIds(cfg, edges)
    ensures var incoming := Gathered(cfg, excluded, reach, facts, base, edges).1;
            (incoming.None? <==> forall e | e in edges :: !Live(cfg, excluded, reach, e))
            && (incoming.Some? && k in incoming.value && incoming.value[k] == x
                <==> Agreed(cfg, excluded, reach, facts, edges, k, x))
    decreases |edges|
  {
    if edges != [] {
      var front, last := edges[..|edges| - 1], edges[|edges| - 1];
      assert edges == front + [last];
      GatheredFacts(cfg, excluded, reach, facts, base, front, k, x);
      AgreedNext(cfg, excluded, reach, facts, front, last, k, x);
    }
  }

  /** A node has exactly the facts on which all live edges into it agree. */
  lemma FactsAgree(
      cfg: Cfg, excluded: set<nat>, reach: seq<Formula>, facts: seq<StoreFacts>, n: nat, k: (string, int), x: Term)
    requires ReachSolved(cfg, excluded, reach, facts) && n < |cfg.nodes|
    ensures k in facts[n] && facts[n][k] == x <==> Agreed(cfg, excluded, reach, facts, Incoming(cfg, n), k, x)
  {
    assert NodeSolved(cfg, excluded, reach, facts, n);
    GatheredFacts(cfg, excluded, reach, facts, Initial(cfg, n), Incoming(cfg, n), k, x);
  }

  // ---- What single effects record -------------------------------------------------------------

  /** A fact about a region that the effect does not write stays. */
  lemma FactsKept(e: Effect, f: Formula, facts: StoreFacts, k: (string, int))
    requires k in facts && !(e.Call? && e.havocsMemory)
    requires e.MemoryStore? ==> e.region != k.0
    requires e.HavocRegions? ==> k.0 !in e.regions
    ensures k in SpOne(e, f, facts).1 && SpOne(e, f, facts).1[k] == facts[k]
  {
  }

  /** Nothing that the formula says is ever given up. */
  lemma {:induction false} SpGrows(effects: seq<Effect>, f: Formula, facts: StoreFacts, s: State)
    requires Eval(Sp(effects, f, facts).0, s)
    ensures Eval(f, s)
    decreases |effects|
  {
    if effects != [] {
      var e, next := effects[0], SpOne(effects[0], f, facts);
      SpGrows(effects[1..], next.0, next.1, s);
      match e
      case Assign(v, ValueTerm(x)) => AndMeaning(f, Cmp(Eq, TVar(v), Resolve(x, facts)), s);
      case Assign(v, ValueFormula(p)) => AndMeaning(f, AndOf(ImpliesOf(FVar(v), p), ImpliesOf(p, FVar(v))), s);
      case Assume(c) => AndMeaning(f, c, s);
      case TypeBound(c) => AndMeaning(f, c, s);
      case Obligation(c) => AndMeaning(f, c, s);
      case _ =>
    }
  }

  /** A load of a cell with a known value is resolved: the formula alone says that the variable has
      the recorded value. */
  lemma LoadResolved(v: Var, r: string, i: Term, f: Formula, facts: StoreFacts, s: State)
    requires TryConst(i).Some? && (r, TryConst(i).value) in facts
    requires Eval(SpOne(Assign(v, ValueTerm(Select(Region(r), i))), f, facts).0, s)
    ensures s.ints(v) == EvalT(facts[(r, TryConst(i).value)], s)
  {
    var x := facts[(r, TryConst(i).value)];
    AndMeaning(f, Cmp(Eq, TVar(v), x), s);
    assert EvalT(TVar(v), s) == s.ints(v);
  }

  /** The regions of loads that the facts do not resolve, where the pass looks for loads. */
  function Unresolved(t: Term, facts: StoreFacts): set<Name> {
    match t
    case Select(Region(r), i) =>
      if TryConst(i).Some? && (r, TryConst(i).value) in facts then {} else NamesT(t)
    case Bin(_, l, r) => Unresolved(l, facts) + Unresolved(r, facts)
    case Neg(u) => Unresolved(u, facts)
    case _ => NamesT(t)
  }

  /** Resolution leaves no load of a known cell: what it mentions is unresolved or a fact's. */
  lemma {:induction false} ResolvedOnly(t: Term, facts: StoreFacts)
    ensures NamesT(Resolve(t, facts)) <= Unresolved(t, facts) + FactNames(facts)
  {
    match t
    case Select(Region(r), i) =>
      if TryConst(i).Some? && (r, TryConst(i).value) in facts {
        var k := (r, TryConst(i).value);
        assert NamesT(facts[k]) <= FactNames(facts);
      }
    case Bin(_, l, r) =>
      ResolvedOnly(l, facts);
      ResolvedOnly(r, facts);
    case Neg(u) => ResolvedOnly(u, facts);
    case _ =>
  }

  /** Numerals combined by arithmetic, without a division by zero. */
  ghost predicate Numeric(t: Term, s: State) {
    match t
    case Int(_) => true
    case Neg(u) => Numeric(u, s)
    case Bin(op, l, r) => Numeric(l, s) && Numeric(r, s) && (op == Div || op == Rem ==> EvalT(r, s) != 0)
    case _ => false
  }

  /** Exactly these terms fold. */
  lemma {:induction false} FoldsExactly(t: Term, s: State)
    requires TruncatedOps(s)
    ensures TryConst(t).Some? <==> Numeric(t, s)
  {
    match t
    case Bin(_, l, r) =>
      FoldsExactly(l, s);
      FoldsExactly(r, s);
      ConstValue(r, s);
    case Neg(u) => FoldsExactly(u, s);
    case _ =>
  }
}
