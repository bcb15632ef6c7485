/** The forward pass behind the initiation check, src/analysis/loops/mod.rs: reach formulas with
    constant-offset store facts along the acyclic skeleton. */
module Reach {
  import opened Formulas
  import opened Semantics
  import opened Transfer
  import opened Graphs
  import opened Ordering
  import opened Runs

  // ---- Constant folding ---------------------------------------------------------------------

  /** Division rounding toward zero, as the folding code divides. */
  function TruncDiv(a: int, b: int): int
    requires b != 0
  {
    if a >= 0 then a / b else -((-a) / b)
  }

  function TruncRem(a: int, b: int): int
    requires b != 0
  {
    a - b * TruncDiv(a, b)
  }

  /** `try_as_constant_int` on unbounded integers. */
  function TryConst(t: Term): Option<int> {
    match t
    case Int(n) => Some(n)
    case Neg(u) => (match TryConst(u) case None => None case Some(a) => Some(-a))
    case Bin(op, l, r) =>
      (match (TryConst(l), TryConst(r))
       case (Some(a), Some(b)) =>
         (match op
          case Add => Some(a + b)
          case Sub => Some(a - b)
          case Mul => Some(a * b)
          case Div => if b == 0 then None else Some(TruncDiv(a, b))
          case Rem => if b == 0 then None else Some(TruncRem(a, b)))
       case _ => None)
    case _ => None
  }

  ghost predicate TruncatedOps(s: State) {
    forall a, b :: b != 0 ==> s.div(a, b) == TruncDiv(a, b) && s.rem(a, b) == TruncRem(a, b)
  }

  lemma {:induction false} ConstValue(t: Term, s: State)
    requires TruncatedOps(s)
    ensures TryConst(t).Some? ==> EvalT(t, s) == TryConst(t).value
  {
    match t
    case Bin(_, l, r) =>
      ConstValue(l, s);
      ConstValue(r, s);
    case Neg(u) => ConstValue(u, s);
    case _ =>
  }

  ghost predicate FoldsTrue(s: State) {
    forall t :: TryConst(t).Some? ==> EvalT(t, s) == TryConst(t).value
  }

  /** Folding agrees with the value of every term exactly when division and remainder round
      toward zero. */
  lemma FoldingExact(s: State)
    ensures FoldsTrue(s) <==> TruncatedOps(s)
  {
    if FoldsTrue(s) {
      forall a, b | b != 0
        ensures s.div(a, b) == TruncDiv(a, b) && s.rem(a, b) == TruncRem(a, b)
      {
        var q, r := Bin(Div, Int(a), Int(b)), Bin(Rem, Int(a), Int(b));
        assert TryConst(Int(a)) == Some(a) && TryConst(Int(b)) == Some(b);
        assert TryConst(q) == Some(TruncDiv(a, b)) && TryConst(r) == Some(TruncRem(a, b));
        assert EvalT(q, s) == s.div(a, b) && EvalT(r, s) == s.rem(a, b);
      }
      assert TruncatedOps(s);
    } else {
      var t :| TryConst(t).Some? && EvalT(t, s) != TryConst(t).value;
      if TruncatedOps(s) {
        ConstValue(t, s);
        assert false;
      }
    }
  }

  /** The Euclidean division that the solver applies disagrees with folding: -7 / 2. */
  lemma EuclideanFoldingWrong(s: State)
    requires forall a, b :: b != 0 ==> s.div(a, b) == a / b
    ensures var t := Bin(Div, Int(-7), Int(2));
            TryConst(t) == Some(-3) && EvalT(t, s) == -4
  {
    var t := Bin(Div, Int(-7), Int(2));
    assert EvalT(Int(-7), s) == -7 && EvalT(Int(2), s) == 2;
    assert TryConst(Int(-7)) == Some(-7) && TryConst(Int(2)) == Some(2);
    assert TryConst(t) == Some(TruncDiv(-7, 2));
  }

  // ---- Store facts --------------------------------------------------------------------------

  /** The value last stored at a constant offset of a region. */
  type StoreFacts = map<(string, int), Term>

  function Intersect(a: StoreFacts, b: StoreFacts): StoreFacts {
    map k | k in a && k in b && b[k] == a[k] :: a[k]
  }

  function Resolve(t: Term, facts: StoreFacts): Term {
    match t
    case Select(Region(r), i) =>
      (match TryConst(i)
       case Some(k) => if (r, k) in facts then facts[(r, k)] else t
       case None => t)
    case Bin(op, l, r) => Bin(op, Resolve(l, facts), Resolve(r, facts))
    case Neg(u) => Neg(Resolve(u, facts))
    case _ => t
  }

  function Forget(facts: StoreFacts, regions: seq<string>): StoreFacts {
    map k | k in facts && k.0 !in regions :: facts[k]
  }

  /** One effect of `apply_effects_sp`. */
  function SpOne(e: Effect, f: Formula, facts: StoreFacts): (Formula, StoreFacts) {
    match e
    case MemoryStore(r, o, x) =>
      (match TryConst(o)
       case Some(k) => (f, facts[(r, k) := Resolve(x, facts)])
       case None => (f, Forget(facts, [r])))
    case HavocRegions(rs) => (f, Forget(facts, rs))
    case Call(havocs) => (f, if havocs then map[] else facts)
    case Assign(v, ValueTerm(x)) => (AndOf(f, Cmp(Eq, TVar(v), Resolve(x, facts))), facts)
    case Assign(v, ValueFormula(p)) =>
      (AndOf(f, AndOf(ImpliesOf(FVar(v), p), ImpliesOf(p, FVar(v)))), facts)
    case Assume(c) => (AndOf(f, c), facts)
    case TypeBound(c) => (AndOf(f, c), facts)
    case Obligation(c) => (AndOf(f, c), facts)
    case Nop => (f, facts)
  }

  function Sp(effects: seq<Effect>, f: Formula, facts: StoreFacts): (Formula, StoreFacts)
    decreases |effects|
  {
    if effects == [] then (f, facts)
    else
      var (g, more) := SpOne(effects[0], f, facts);
      Sp(effects[1..], g, more)
  }

  method ApplyEffectsSp(effects: seq<Effect>, pre: Formula, facts0: StoreFacts)
    returns (f: Formula, facts: StoreFacts)
    ensures (f, facts) == Sp(effects, pre, facts0)
  {
    f, facts := pre, facts0;
    for i := 0 to |effects|
      invariant Sp(effects[i..], f, facts) == Sp(effects, pre, facts0)
    {
      assert effects[i..][1..] == effects[i + 1..];
      var next := SpOne(effects[i], f, facts);
      f, facts := next.0, next.1;
    }
  }

  /** The effects with every type bound taken as an assumption. */
  function StrictOne(e: Effect): Effect {
    if e.TypeBound? then Assume(e.c) else e
  }

  function StrictEffects(effects: seq<Effect>): seq<Effect> {
    seq(|effects|, i requires 0 <= i < |effects| => StrictOne(effects[i]))
  }

  /** The runs of the strict graph are the runs on which every type bound holds. */
  function Strict(cfg: Cfg): Cfg {
    Cfg(seq(|cfg.nodes|, i requires 0 <= i < |cfg.nodes| => StrictEffects(cfg.nodes[i])),
        seq(|cfg.edges|, i requires 0 <= i < |cfg.edges| =>
              cfg.edges[i].(effects := StrictEffects(cfg.edges[i].effects))),
        cfg.entry)
  }

  lemma {:induction false} StrictRun(effects: seq<Effect>, s: State, t: State)
    requires Run(StrictEffects(effects), s, t)
    ensures Run(effects, s, t)
    decreases |effects|
  {
    if effects != [] {
      assert StrictEffects(effects)[1..] == StrictEffects(effects[1..]);
      var u :| Step(StrictEffects(effects)[0], s, u) && Run(StrictEffects(effects)[1..], u, t);
      StrictRun(effects[1..], u, t);
    }
  }

  lemma StrictCross(cfg: Cfg, e: nat, s: State, t: State)
    requires WellFormed(cfg) && e < |cfg.edges| && Cross(Strict(cfg), e, s, t)
    ensures Cross(cfg, e, s, t)
  {
    var edge := cfg.edges[e];
    var m :| Run(StrictEffects(cfg.nodes[edge.source]), s, m) && Eval(edge.guard, m)
             && Run(StrictEffects(edge.effects), m, t);
    StrictRun(cfg.nodes[edge.source], s, m);
    StrictRun(edge.effects, m, t);
    CrossVia(cfg, e, s, m, t);
  }

  lemma {:induction false} StrictFollows(cfg: Cfg, path: seq<nat>, s: State, t: State)
    requires WellFormed(cfg) && Follows(Strict(cfg), path, s, t)
    ensures Follows(cfg, path, s, t)
    decreases |path|
  {
    if path != [] {
      var u :| Cross(Strict(cfg), path[0], s, u) && Follows(Strict(cfg), path[1..], u, t);
      StrictCross(cfg, path[0], s, u);
      StrictFollows(cfg, path[1..], u, t);
    }
  }

  lemma {:induction false} StrictPath(cfg: Cfg, excluded: set<nat>, path: seq<nat>, n: nat, m: nat)
    ensures IsPath(Strict(cfg), excluded, path, n, m) <==> IsPath(cfg, excluded, path, n, m)
    decreases |path|
  {
    if path != [] && path[0] < |cfg.edges| {
      StrictPath(cfg, excluded, path[1..], cfg.edges[path[0]].target, m);
    }
  }

  // ---- What an effect must not overwrite ----------------------------------------------------

  function FactNames(facts: StoreFacts): set<Name> {
    set k, n | k in facts && n in NamesT(facts[k]) :: n
  }

  /** The effect overwrites no name that the reach formula or a surviving fact mentions - the
      single-assignment discipline for scalars, and for regions that no load left unresolved is
      stored to afterwards. */
  ghost predicate Keeps(e: Effect, f: Formula, facts: StoreFacts) {
    match e
    case Assign(v, ValueTerm(x)) => Scalar(v) !in Names(f) + FactNames(facts) + NamesT(Resolve(x, facts))
    case Assign(v, ValueFormula(p)) => Scalar(v) !in Names(f) + FactNames(facts) + Names(p)
    case MemoryStore(r, _, _) => Mem(r) !in Names(f) + FactNames(SpOne(e, f, facts).1)
    case HavocRegions(rs) => Regions(rs) !! Names(f) + FactNames(Forget(facts, rs))
    case Call(havocs) => havocs ==> forall n | n in Names(f) :: n.Scalar?
    case _ => true
  }

  ghost predicate KeepsAll(effects: seq<Effect>, f: Formula, facts: StoreFacts)
    decreases |effects|
  {
    effects == []
    || (Keeps(effects[0], f, facts)
        && var next := SpOne(effects[0], f, facts); KeepsAll(effects[1..], next.0, next.1))
  }

  ghost predicate FactsHold(facts: StoreFacts, s: State) {
    forall k | k in facts :: s.mem(k.0, k.1) == EvalT(facts[k], s)
  }

  lemma {:induction false} ResolvedValue(t: Term, facts: StoreFacts, s: State)
    requires FactsHold(facts, s) && TruncatedOps(s)
    ensures EvalT(Resolve(t, facts), s) == EvalT(t, s)
  {
    match t
    case Select(Region(r), i) =>
      ConstValue(i, s);
      assert Read(Region(r), s, EvalT(i, s)) == s.mem(r, EvalT(i, s));
      if TryConst(i).Some? && (r, TryConst(i).value) in facts {
        var k := (r, TryConst(i).value);
        assert s.mem(k.0, k.1) == EvalT(facts[k], s);
      }
    case Bin(_, l, r) =>
      ResolvedValue(l, facts, s);
      ResolvedValue(r, facts, s);
    case Neg(u) => ResolvedValue(u, facts, s);
    case _ =>
  }

  /** Facts survive a change that spares their own cells and the names in their values. */
  lemma FactsSurvive(facts: StoreFacts, s: State, t: State)
    requires FactsHold(facts, s) && SameOn(s, t, FactNames(facts))
    requires forall k | k in facts :: t.mem(k.0, k.1) == s.mem(k.0, k.1)
    ensures FactsHold(facts, t)
  {
    forall k | k in facts ensures t.mem(k.0, k.1) == EvalT(facts[k], t) {
      assert NamesT(facts[k]) <= FactNames(facts);
      CongruenceT(facts[k], s, t);
    }
  }

  lemma SpStoreSound(e: Effect, f: Formula, facts: StoreFacts, s: State, t: State)
    requires e.MemoryStore? && Step(e, s, t) && Keeps(e, f, facts)
    requires Eval(f, s) && FactsHold(facts, s) && TruncatedOps(s)
    ensures Eval(f, t) && FactsHold(SpOne(e, f, facts).1, t)
  {
    var after := SpOne(e, f, facts).1;
    Congruence(f, s, t);
    forall k | k in after ensures t.mem(k.0, k.1) == EvalT(after[k], t) {
      assert NamesT(after[k]) <= FactNames(after);
      assert Mem(e.region) !in NamesT(after[k]);
      CongruenceT(after[k], s, t);
      ConstValue(e.offset, s);
      ResolvedValue(e.stored, facts, s);
      if k in facts && after[k] == facts[k] && k != (e.region, EvalT(e.offset, s)) {
        assert s.mem(k.0, k.1) == EvalT(facts[k], s);
      }
    }
  }

  lemma SpHavocSound(rs: seq<string>, f: Formula, facts: StoreFacts, s: State, t: State)
    requires SameExcept(s, t, Regions(rs)) && Keeps(HavocRegions(rs), f, facts)
    requires Eval(f, s) && FactsHold(facts, s)
    ensures Eval(f, t) && FactsHold(Forget(facts, rs), t)
  {
    var kept := Forget(facts, rs);
    Congruence(f, s, t);
    forall k | k in kept ensures t.mem(k.0, k.1) == s.mem(k.0, k.1) {
      var r: string, at: int := k.0, k.1;
      assert Mem(r) !in Regions(rs);
      assert SameAt(s, t, Mem(r));
      assert s.mem(r, at) == t.mem(r, at);
    }
    FactsSurvive(kept, s, t);
  }

  lemma SpAssignSound(e: Effect, f: Formula, facts: StoreFacts, s: State, t: State)
    requires e.Assign? && Step(e, s, t) && Keeps(e, f, facts)
    requires Eval(f, s) && FactsHold(facts, s) && TruncatedOps(s)
    ensures Eval(SpOne(e, f, facts).0, t) && FactsHold(facts, t)
  {
    Congruence(f, s, t);
    FactsSurvive(facts, s, t);
    match e.value
    case ValueTerm(x) =>
      ResolvedValue(x, facts, s);
      CongruenceT(Resolve(x, facts), s, t);
      assert EvalT(TVar(e.target), t) == EvalT(x, s);
      AndMeaning(f, Cmp(Eq, TVar(e.target), Resolve(x, facts)), t);
    case ValueFormula(p) =>
      Congruence(p, s, t);
      assert Eval(FVar(e.target), t) <==> Eval(p, s);
      AndMeaning(ImpliesOf(FVar(e.target), p), ImpliesOf(p, FVar(e.target)), t);
      AndMeaning(f, AndOf(ImpliesOf(FVar(e.target), p), ImpliesOf(p, FVar(e.target))), t);
  }

  lemma SpOneSound(e: Effect, f: Formula, facts: StoreFacts, s: State, t: State)
    requires Step(StrictOne(e), s, t) && Keeps(e, f, facts)
    requires Eval(f, s) && FactsHold(facts, s) && TruncatedOps(s)
    ensures Eval(SpOne(e, f, facts).0, t) && FactsHold(SpOne(e, f, facts).1, t) && SameOps(s, t)
  {
    match e
    case MemoryStore(_, _, _) => SpStoreSound(e, f, facts, s, t);
    case HavocRegions(rs) =>
      SpHavocSound(rs, f, facts, s, t);
    case Call(havocs) =>
      Congruence(f, s, t);
    case Assign(_, _) => SpAssignSound(e, f, facts, s, t);
    case Assume(c) => AndMeaning(f, c, t);
    case TypeBound(c) => AndMeaning(f, c, t);
    case Obligation(c) => AndMeaning(f, c, t);
    case Nop =>
  }

  /** Along effects that overwrite nothing mentioned, the reach formula and the facts stay true. */
  lemma {:induction false} SpSound(effects: seq<Effect>, f: Formula, facts: StoreFacts, s: State, t: State)
    requires Run(StrictEffects(effects), s, t) && KeepsAll(effects, f, facts)
    requires Eval(f, s) && FactsHold(facts, s) && TruncatedOps(s)
    ensures Eval(Sp(effects, f, facts).0, t) && FactsHold(Sp(effects, f, facts).1, t) && SameOps(s, t)
    decreases |effects|
  {
    if effects != [] {
      assert StrictEffects(effects)[1..] == StrictEffects(effects[1..]);
      var u :| Step(StrictEffects(effects)[0], s, u) && Run(StrictEffects(effects)[1..], u, t);
      SpOneSound(effects[0], f, facts, s, u);
      var next := SpOne(effects[0], f, facts);
      SpSound(effects[1..], next.0, next.1, u, t);
    }
  }

  const STALE := [MemoryStore("a", Int(0), Select(Region("b"), Int(0))), MemoryStore("b", Int(0), Int(5))]

  /** A fact that was left with an unresolved load goes stale when the loaded region is stored to:
      after `a[0] := b[0]; b[0] := 5` the pass still claims that `a[0]` is `b[0]`. */
  lemma StaleFact(s: State)
    requires s.mem("b", 0) == 0
    ensures var t := s.Write("a", 0, 0).Write("b", 0, 5);
            Run(STALE, s, t) && !FactsHold(Sp(STALE, True, map[]).1, t)
  {
    var load := Select(Region("b"), Int(0));
    var u := s.Write("a", 0, 0);
    var t := u.Write("b", 0, 5);
    assert EvalT(Int(0), s) == 0 && EvalT(Int(0), u) == 0 && EvalT(Int(5), u) == 5 && EvalT(Int(0), t) == 0;
    assert Read(Region("b"), s, 0) == 0 && EvalT(load, s) == 0;
    assert STALE[1..][1..] == [] && Run([], t, t);
    assert Step(STALE[1], u, t) && Run(STALE[1..], u, t);
    assert Step(STALE[0], s, u) && Run(STALE, s, t);
    assert TryConst(Int(0)) == Some(0) && Resolve(load, map[]) == load;
    var facts: StoreFacts := map[("a", 0) := load];
    assert SpOne(STALE[0], True, map[]) == (True, facts);
    assert Resolve(Int(5), facts) == Int(5);
    assert SpOne(STALE[1], True, facts) == (True, facts[("b", 0) := Int(5)]);
    assert Sp(STALE[1..][1..], True, facts[("b", 0) := Int(5)]).1 == facts[("b", 0) := Int(5)];
    assert Sp(STALE[1..], True, facts).1 == facts[("b", 0) := Int(5)];
    assert Sp(STALE, True, map[]).1 == facts[("b", 0) := Int(5)];
    assert Read(Region("b"), t, 0) == 5 && EvalT(load, t) == 5 && t.mem("a", 0) == 0;
    var k := ("a", 0);
    assert k in facts[("b", 0) := Int(5)];
  }

  // ---- The pass -----------------------------------------------------------------------------

  /** Formula and facts carried across one edge. */
  function SpEdge(cfg: Cfg, e: nat, f: Formula, facts: StoreFacts): (Formula, StoreFacts)
    requires WellFormed(cfg) && e < |cfg.edges|
  {
    var out := Sp(cfg.nodes[cfg.edges[e].source], f, facts);
    Sp(cfg.edges[e].effects, AndOf(out.0, cfg.edges[e].guard), out.1)
  }

  ghost predicate EdgeKeeps(cfg: Cfg, e: nat, f: Formula, facts: StoreFacts)
    requires WellFormed(cfg) && e < |cfg.edges|
  {
    var out := Sp(cfg.nodes[cfg.edges[e].source], f, facts);
    KeepsAll(cfg.nodes[cfg.edges[e].source], f, facts)
    && KeepsAll(cfg.edges[e].effects, AndOf(out.0, cfg.edges[e].guard), out.1)
  }

  lemma SpEdgeSound(cfg: Cfg, e: nat, f: Formula, facts: StoreFacts, s: State, t: State)
    requires WellFormed(cfg) && e < |cfg.edges| && EdgeKeeps(cfg, e, f, facts)
    requires Cross(Strict(cfg), e, s, t)
    requires Eval(f, s) && FactsHold(facts, s) && TruncatedOps(s)
    ensures Eval(SpEdge(cfg, e, f, facts).0, t) && FactsHold(SpEdge(cfg, e, f, facts).1, t) && SameOps(s, t)
  {
    var edge := cfg.edges[e];
    var m :| Run(StrictEffects(cfg.nodes[edge.source]), s, m) && Eval(edge.guard, m)
             && Run(StrictEffects(edge.effects), m, t);
    var out := Sp(cfg.nodes[edge.source], f, facts);
    SpSound(cfg.nodes[edge.source], f, facts, s, m);
    AndMeaning(out.0, edge.guard, m);
    SpSound(edge.effects, AndOf(out.0, edge.guard), out.1, m, t);
  }

  ghost predicate SubFacts(a: StoreFacts, b: StoreFacts) {
    forall k | k in a :: k in b && a[k] == b[k]
  }

  /** The pass follows the edge: it is kept and its source is not known to be unreachable. */
  predicate Live(cfg: Cfg, excluded: set<nat>, reach: seq<Formula>, e: nat)
    requires WellFormed(cfg) && |reach| == |cfg.nodes| && e < |cfg.edges|
  {
    e !in excluded && reach[cfg.edges[e].source] != False
  }

  /** What the edges contribute to the node they all enter, one after the other. */
  function Gathered(
      cfg: Cfg, excluded: set<nat>, reach: seq<Formula>, facts: seq<StoreFacts>, base: Formula, edges: seq<nat>)
    : (Formula, Option<StoreFacts>)
    requires WellFormed(cfg) && |reach| == |facts| == |cfg.nodes| && EdgeIds(cfg, edges)
    decreases |edges|
  {
    if edges == [] then (base, None)
    else
      var (f, incoming) := Gathered(cfg, excluded, reach, facts, base, edges[..|edges| - 1]);
      var e := edges[|edges| - 1];
      if !Live(cfg, excluded, reach, e) then (f, incoming)
      else
        var through := SpEdge(cfg, e, reach[cfg.edges[e].source], facts[cfg.edges[e].source]);
        (OrOf(f, through.0), Some(if incoming.None? then through.1 else Intersect(incoming.value, through.1)))
  }

  function Initial(cfg: Cfg, n: nat): Formula {
    if n == cfg.entry then True else False
  }

  /** Formula and facts of the node are what its incoming edges contribute. */
  ghost predicate NodeSolved(cfg: Cfg, excluded: set<nat>, reach: seq<Formula>, facts: seq<StoreFacts>, n: nat)
    requires WellFormed(cfg) && |reach| == |facts| == |cfg.nodes| && n < |cfg.nodes|
  {
    var (f, incoming) := Gathered(cfg, excluded, reach, facts, Initial(cfg, n), Incoming(cfg, n));
    reach[n] == f && facts[n] == if incoming.None? then map[] else incoming.value
  }

  /** Formulas and facts are what the pass computes: they solve its equations at every node. */
  ghost predicate ReachSolved(cfg: Cfg, excluded: set<nat>, reach: seq<Formula>, facts: seq<StoreFacts>) {
    && WellFormed(cfg) && HasOrder(cfg, excluded) && |reach| == |facts| == |cfg.nodes|
    && forall n: nat | n < |cfg.nodes| :: NodeSolved(cfg, excluded, reach, facts, n)
  }

  /** The contributions depend only on the sources of the kept edges. */
  lemma {:induction false} GatheredFrame(
      cfg: Cfg, excluded: set<nat>, reach: seq<Formula>, facts: seq<StoreFacts>, reach': seq<Formula>,
      facts': seq<StoreFacts>, base: Formula, edges: seq<nat>)
    requires WellFormed(cfg) && |reach| == |facts| == |reach'| == |facts'| == |cfg.nodes| && EdgeIds(cfg, edges)
    requires forall e | e in edges && e !in excluded ::
               var n := cfg.edges[e].source; reach[n] == reach'[n] && facts[n] == facts'[n]
    ensures Gathered(cfg, excluded, reach, facts, base, edges) == Gathered(cfg, excluded, reach', facts', base, edges)
    decreases |edges|
  {
    if edges != [] {
      assert edges == edges[..|edges| - 1] + [edges[|edges| - 1]];
      GatheredFrame(cfg, excluded, reach, facts, reach', facts', base, edges[..|edges| - 1]);
    }
  }

  lemma SourcesEarlier(cfg: Cfg, excluded: set<nat>, order: seq<nat>, i: nat, e: nat) returns (j: nat)
    requires WellFormed(cfg) && IsTopological(cfg, excluded, order) && i < |order|
    requires order[i] < |cfg.nodes| && e in Incoming(cfg, order[i]) && e !in excluded
    ensures j < i && order[j] == cfg.edges[e].source
  {
    j :| 0 <= j < i && order[j] == cfg.edges[e].source;
  }

  /** The equations have one solution, so the order in which the nodes are taken does not matter. */
  lemma {:induction false} SolutionUnique(
      cfg: Cfg, excluded: set<nat>, order: seq<nat>, i: nat, reach: seq<Formula>, facts: seq<StoreFacts>,
      reach': seq<Formula>, facts': seq<StoreFacts>)
    requires ReachSolved(cfg, excluded, reach, facts) && ReachSolved(cfg, excluded, reach', facts')
    requires IsTopological(cfg, excluded, order) && i < |order|
    ensures order[i] < |cfg.nodes| && reach[order[i]] == reach'[order[i]] && facts[order[i]] == facts'[order[i]]
  {
    assert order[i] in order;
    var n := order[i];
    forall e | e in Incoming(cfg, n) && e !in excluded
      ensures var m := cfg.edges[e].source; reach[m] == reach'[m] && facts[m] == facts'[m]
    {
      var j := SourcesEarlier(cfg, excluded, order, i, e);
      SolutionUnique(cfg, excluded, order, j, reach, facts, reach', facts');
    }
    GatheredFrame(cfg, excluded, reach, facts, reach', facts', Initial(cfg, n), Incoming(cfg, n));
    assert NodeSolved(cfg, excluded, reach, facts, n) && NodeSolved(cfg, excluded, reach', facts', n);
  }

  // ---- What a solution carries ----------------------------------------------------------------

  /** The edge's contribution is in the reach of its target, whose facts it also has. */
  ghost predicate Carried(cfg: Cfg, reach: seq<Formula>, facts: seq<StoreFacts>, e: nat)
    requires WellFormed(cfg) && |reach| == |facts| == |cfg.nodes| && e < |cfg.edges|
  {
    var n, m := cfg.edges[e].source, cfg.edges[e].target;
    reach[n] != False ==>
      var through := SpEdge(cfg, e, reach[n], facts[n]);
      SubFacts(facts[m], through.1) && Entails(through.0, reach[m])
  }

  lemma JoinEntails(f: Formula, g: Formula)
    ensures Entails(f, OrOf(f, g)) && Entails(g, OrOf(f, g))
  {
    forall s: State ensures Eval(OrOf(f, g), s) <==> Eval(f, s) || Eval(g, s) {
      OrMeaning(f, g, s);
    }
  }

  lemma {:induction false} GatheredCarries(
      cfg: Cfg, excluded: set<nat>, reach: seq<Formula>, facts: seq<StoreFacts>, base: Formula, edges: seq<nat>)
    requires WellFormed(cfg) && |reach| == |facts| == |cfg.nodes| && EdgeIds(cfg, edges)
    ensures var (f, incoming) := Gathered(cfg, excluded, reach, facts, base, edges);
            Entails(base, f)
            && forall e | e in edges && Live(cfg, excluded, reach, e) ::
                 var through := SpEdge(cfg, e, reach[cfg.edges[e].source], facts[cfg.edges[e].source]);
                 Entails(through.0, f) && incoming.Some? && SubFacts(incoming.value, through.1)
    decreases |edges|
  {
    if edges != [] {
      var front, e := edges[..|edges| - 1], edges[|edges| - 1];
      assert edges == front + [e];
      GatheredCarries(cfg, excluded, reach, facts, base, front);
      if Live(cfg, excluded, reach, e) {
        var through := SpEdge(cfg, e, reach[cfg.edges[e].source], facts[cfg.edges[e].source]);
        JoinEntails(Gathered(cfg, excluded, reach, facts, base, front).0, through.0);
      }
    }
  }

  lemma SolvedCarries(cfg: Cfg, excluded: set<nat>, reach: seq<Formula>, facts: seq<StoreFacts>, e: nat)
    requires ReachSolved(cfg, excluded, reach, facts) && e < |cfg.edges| && e !in excluded
    ensures Carried(cfg, reach, facts, e)
  {
    var m := cfg.edges[e].target;
    assert NodeSolved(cfg, excluded, reach, facts, m) && e in Incoming(cfg, m);
    GatheredCarries(cfg, excluded, reach, facts, Initial(cfg, m), Incoming(cfg, m));
  }

  lemma {:induction false} SomeLive(
      cfg: Cfg, excluded: set<nat>, reach: seq<Formula>, facts: seq<StoreFacts>, base: Formula, edges: seq<nat>)
    requires WellFormed(cfg) && |reach| == |facts| == |cfg.nodes| && EdgeIds(cfg, edges)
    requires Gathered(cfg, excluded, reach, facts, base, edges) != (base, None)
    ensures exists e :: e in edges && Live(cfg, excluded, reach, e)
    decreases |edges|
  {
    var front, e := edges[..|edges| - 1], edges[|edges| - 1];
    assert edges == front + [e];
    if !Live(cfg, excluded, reach, e) {
      SomeLive(cfg, excluded, reach, facts, base, front);
    }
  }

  /** Only nodes that kept edges connect to the entry have a formula other than False. */
  lemma {:induction false} SolvedConnected(
      cfg: Cfg, excluded: set<nat>, order: seq<nat>, i: nat, reach: seq<Formula>, facts: seq<StoreFacts>)
    requires ReachSolved(cfg, excluded, reach, facts) && IsTopological(cfg, excluded, order)
    requires i < |order| && order[i] < |cfg.nodes| && reach[order[i]] != False
    ensures Connected(cfg, excluded, cfg.entry, order[i])
  {
    var n := order[i];
    if n == cfg.entry {
      assert IsPath(cfg, excluded, [], n, n);
    } else {
      assert NodeSolved(cfg, excluded, reach, facts, n);
      SomeLive(cfg, excluded, reach, facts, Initial(cfg, n), Incoming(cfg, n));
      var e :| e in Incoming(cfg, n) && Live(cfg, excluded, reach, e);
      var j := SourcesEarlier(cfg, excluded, order, i, e);
      SolvedConnected(cfg, excluded, order, j, reach, facts);
      ConnectedNext(cfg, excluded, e);
    }
  }

  lemma ConnectedNext(cfg: Cfg, excluded: set<nat>, e: nat)
    requires e < |cfg.edges| && e !in excluded && Connected(cfg, excluded, cfg.entry, cfg.edges[e].source)
    ensures exists path :: path != [] && IsPath(cfg, excluded, path, cfg.entry, cfg.edges[e].target)
  {
    var p :| IsPath(cfg, excluded, p, cfg.entry, cfg.edges[e].source);
    EdgePath(cfg, excluded, e);
    PathConcat(cfg, excluded, p, [e], cfg.entry, cfg.edges[e].source, cfg.edges[e].target);
    assert p + [e] != [];
  }

  lemma ReachedConnected(cfg: Cfg, excluded: set<nat>, reach: seq<Formula>, facts: seq<StoreFacts>, n: nat)
    requires ReachSolved(cfg, excluded, reach, facts) && n < |cfg.nodes| && reach[n] != False
    ensures Connected(cfg, excluded, cfg.entry, n)
  {
    var order :| IsTopological(cfg, excluded, order);
    assert n in order;
    var i :| 0 <= i < |order| && order[i] == n;
    SolvedConnected(cfg, excluded, order, i, reach, facts);
  }

  /** The pass knows nothing at the entry. */
  lemma EntrySolved(cfg: Cfg, excluded: set<nat>, reach: seq<Formula>, facts: seq<StoreFacts>)
    requires ReachSolved(cfg, excluded, reach, facts)
    ensures reach[cfg.entry] == True && facts[cfg.entry] == map[]
  {
    assert NodeSolved(cfg, excluded, reach, facts, cfg.entry);
    if Gathered(cfg, excluded, reach, facts, True, Incoming(cfg, cfg.entry)) != (True, None) {
      SomeLive(cfg, excluded, reach, facts, True, Incoming(cfg, cfg.entry));
      var e :| e in Incoming(cfg, cfg.entry) && Live(cfg, excluded, reach, e);
      ReachedConnected(cfg, excluded, reach, facts, cfg.edges[e].source);
      ConnectedNext(cfg, excluded, e);
      var order :| IsTopological(cfg, excluded, order);
      ForwardAcyclic(cfg, excluded, order);
    }
  }

  // ---- First entry ----------------------------------------------------------------------------

  /** No edge on a kept path to the header overwrites a name mentioned before it. */
  ghost predicate NothingOverwritten(
      cfg: Cfg, excluded: set<nat>, header: nat, reach: seq<Formula>, facts: seq<StoreFacts>)
    requires WellFormed(cfg) && |reach| == |facts| == |cfg.nodes|
  {
    forall e: nat | e < |cfg.edges| && e !in excluded && Connected(cfg, excluded, cfg.edges[e].target, header) ::
      reach[cfg.edges[e].source] != False ==>
        EdgeKeeps(cfg, e, reach[cfg.edges[e].source], facts[cfg.edges[e].source])
  }

  lemma {:induction false} FirstEntryPath(
      cfg: Cfg, excluded: set<nat>, header: nat, reach: seq<Formula>, facts: seq<StoreFacts>,
      path: seq<nat>, n: nat, s: State, t: State)
    requires ReachSolved(cfg, excluded, reach, facts)
    requires NothingOverwritten(cfg, excluded, header, reach, facts)
    requires n < |cfg.nodes| && IsPath(cfg, excluded, path, n, header) && Follows(Strict(cfg), path, s, t)
    requires Eval(reach[n], s) && FactsHold(facts[n], s) && TruncatedOps(s)
    ensures header < |cfg.nodes| && Eval(reach[header], t) && FactsHold(facts[header], t)
    decreases |path|
  {
    if path != [] {
      var e := path[0];
      var m := cfg.edges[e].target;
      var u :| Cross(Strict(cfg), e, s, u) && Follows(Strict(cfg), path[1..], u, t);
      assert Connected(cfg, excluded, m, header);
      SpEdgeSound(cfg, e, reach[n], facts[n], s, u);
      SolvedCarries(cfg, excluded, reach, facts, e);
      FirstEntryPath(cfg, excluded, header, reach, facts, path[1..], m, u, t);
    }
  }

  /** The names an effect can bring into formulas and facts. */
  function Mentions(e: Effect): set<Name> {
    match e
    case Assign(v, ValueTerm(x)) => {Scalar(v)} + NamesT(x)
    case Assign(v, ValueFormula(p)) => {Scalar(v)} + Names(p)
    case MemoryStore(_, o, x) => if TryConst(o).Some? then NamesT(x) else {}
    case Assume(c) => Names(c)
    case TypeBound(c) => Names(c)
    case Obligation(c) => Names(c)
    case _ => {}
  }

  function MentionsAll(effects: seq<Effect>): set<Name>
    decreases |effects|
  {
    if effects == [] then {} else Mentions(effects[0]) + MentionsAll(effects[1..])
  }

  function EdgeMentions(cfg: Cfg, e: nat): set<Name>
    requires WellFormed(cfg) && e < |cfg.edges|
  {
    MentionsAll(cfg.nodes[cfg.edges[e].source]) + Names(cfg.edges[e].guard) + MentionsAll(cfg.edges[e].effects)
  }

  /** The edge lies on a kept path from the entry to `n`. */
  ghost predicate OnWay(cfg: Cfg, excluded: set<nat>, n: nat, e: nat) {
    && e < |cfg.edges| && e !in excluded
    && Connected(cfg, excluded, cfg.entry, cfg.edges[e].source) && Connected(cfg, excluded, cfg.edges[e].target, n)
  }

  ghost function MentionedBefore(cfg: Cfg, excluded: set<nat>, n: nat): set<Name>
    requires WellFormed(cfg)
  {
    set e, x | e in Below(|cfg.edges|) && OnWay(cfg, excluded, n, e) && x in EdgeMentions(cfg, e) :: x
  }

  /** The effect writes no name mentioned before it, and assigns no variable it reads. A store may
      write its region again as long as no load of that region was mentioned. */
  ghost predicate EffectFresh(e: Effect, before: set<Name>) {
    match e
    case Assign(v, ValueTerm(x)) => Scalar(v) !in before + NamesT(x)
    case Assign(v, ValueFormula(p)) => Scalar(v) !in before + Names(p)
    case MemoryStore(r, _, _) => Mem(r) !in before + Mentions(e)
    case HavocRegions(rs) => Regions(rs) !! before
    case Call(havocs) => havocs ==> forall n | n in before :: n.Scalar?
    case _ => true
  }

  ghost predicate EffectsFresh(effects: seq<Effect>, before: set<Name>)
    decreases |effects|
  {
    effects == [] || (EffectFresh(effects[0], before) && EffectsFresh(effects[1..], before + Mentions(effects[0])))
  }

  ghost predicate EdgeFresh(cfg: Cfg, e: nat, before: set<Name>)
    requires WellFormed(cfg) && e < |cfg.edges|
  {
    var effects := cfg.nodes[cfg.edges[e].source];
    EffectsFresh(effects, before)
    && EffectsFresh(cfg.edges[e].effects, before + MentionsAll(effects) + Names(cfg.edges[e].guard))
  }

  /** Single assignment up to the header: on the way to it no edge writes a name that it or an
      edge before it mentions. This speaks of the graph alone. */
  ghost predicate WrittenOnce(cfg: Cfg, excluded: set<nat>, header: nat)
    requires WellFormed(cfg)
  {
    forall e: nat | OnWay(cfg, excluded, header, e) ::
      EdgeFresh(cfg, e, MentionedBefore(cfg, excluded, cfg.edges[e].source))
  }

  lemma {:induction false} ResolvedNames(t: Term, facts: StoreFacts)
    ensures NamesT(Resolve(t, facts)) <= NamesT(t) + FactNames(facts)
  {
    match t
    case Select(Region(r), i) =>
      if TryConst(i).Some? && (r, TryConst(i).value) in facts {
        var k := (r, TryConst(i).value);
        assert NamesT(facts[k]) <= FactNames(facts);
      }
    case Bin(_, l, r) =>
      ResolvedNames(l, facts);
      ResolvedNames(r, facts);
    case Neg(u) => ResolvedNames(u, facts);
    case _ =>
  }

  lemma AndNames(f: Formula, g: Formula)
    ensures Names(AndOf(f, g)) <= Names(f) + Names(g)
  {
    JoinNames(true, [f, g]);
  }

  lemma SpAssignNames(e: Effect, f: Formula, facts: StoreFacts)
    requires e.Assign?
    ensures Names(SpOne(e, f, facts).0) <= Names(f) + FactNames(facts) + Mentions(e)
  {
    match e.value
    case ValueTerm(x) =>
      ResolvedNames(x, facts);
      AndNames(f, Cmp(Eq, TVar(e.target), Resolve(x, facts)));
    case ValueFormula(p) =>
      var there, back := ImpliesOf(FVar(e.target), p), ImpliesOf(p, FVar(e.target));
      assert Names(there) <= Mentions(e) && Names(back) <= Mentions(e);
      AndNames(there, back);
      AndNames(f, AndOf(there, back));
  }

  lemma SpOneNames(e: Effect, f: Formula, facts: StoreFacts)
    ensures Names(SpOne(e, f, facts).0) <= Names(f) + FactNames(facts) + Mentions(e)
    ensures FactNames(SpOne(e, f, facts).1) <= FactNames(facts) + Mentions(e)
  {
    match e
    case Assign(_, _) => SpAssignNames(e, f, facts);
    case MemoryStore(_, _, x) => ResolvedNames(x, facts);
    case Assume(c) => AndNames(f, c);
    case TypeBound(c) => AndNames(f, c);
    case Obligation(c) => AndNames(f, c);
    case _ =>
  }

  lemma {:induction false} SpNames(effects: seq<Effect>, f: Formula, facts: StoreFacts, before: set<Name>)
    requires Names(f) + FactNames(facts) <= before
    ensures Names(Sp(effects, f, facts).0) + FactNames(Sp(effects, f, facts).1) <= before + MentionsAll(effects)
    ensures EffectsFresh(effects, before) ==> KeepsAll(effects, f, facts)
    decreases |effects|
  {
    if effects != [] {
      var e, next := effects[0], SpOne(effects[0], f, facts);
      SpOneNames(e, f, facts);
      SpNames(effects[1..], next.0, next.1, before + Mentions(e));
      if EffectFresh(e, before) {
        FreshKeeps(e, f, facts, before);
      }
    }
  }

  lemma FreshKeeps(e: Effect, f: Formula, facts: StoreFacts, before: set<Name>)
    requires Names(f) + FactNames(facts) <= before && EffectFresh(e, before)
    ensures Keeps(e, f, facts)
  {
    SpOneNames(e, f, facts);
    match e
    case Assign(_, ValueTerm(x)) => ResolvedNames(x, facts);
    case _ =>
  }

  lemma EdgeNames(cfg: Cfg, e: nat, f: Formula, facts: StoreFacts, before: set<Name>)
    requires WellFormed(cfg) && e < |cfg.edges| && Names(f) + FactNames(facts) <= before
    ensures var through := SpEdge(cfg, e, f, facts);
            Names(through.0) + FactNames(through.1) <= before + EdgeMentions(cfg, e)
    ensures EdgeFresh(cfg, e, before) ==> EdgeKeeps(cfg, e, f, facts)
  {
    var effects, guard := cfg.nodes[cfg.edges[e].source], cfg.edges[e].guard;
    var out := Sp(effects, f, facts);
    SpNames(effects, f, facts, before);
    AndNames(out.0, guard);
    SpNames(cfg.edges[e].effects, AndOf(out.0, guard), out.1, before + MentionsAll(effects) + Names(guard));
  }

  lemma {:induction false} GatheredNames(
      cfg: Cfg, excluded: set<nat>, reach: seq<Formula>, facts: seq<StoreFacts>, base: Formula, edges: seq<nat>,
      names: set<Name>)
    requires WellFormed(cfg) && |reach| == |facts| == |cfg.nodes| && EdgeIds(cfg, edges)
    requires Names(base) <= names
    requires forall e | e in edges && Live(cfg, excluded, reach, e) ::
               var n := cfg.edges[e].source;
               Names(reach[n]) + FactNames(facts[n]) + EdgeMentions(cfg, e) <= names
    ensures var (f, incoming) := Gathered(cfg, excluded, reach, facts, base, edges);
            Names(f) <= names && (incoming.Some? ==> FactNames(incoming.value) <= names)
    decreases |edges|
  {
    if edges != [] {
      var front, e := edges[..|edges| - 1], edges[|edges| - 1];
      assert edges == front + [e];
      GatheredNames(cfg, excluded, reach, facts, base, front, names);
      if Live(cfg, excluded, reach, e) {
        var n := cfg.edges[e].source;
        EdgeNames(cfg, e, reach[n], facts[n], Names(reach[n]) + FactNames(facts[n]));
        var through := SpEdge(cfg, e, reach[n], facts[n]);
        JoinNames(false, [Gathered(cfg, excluded, reach, facts, base, front).0, through.0]);
      }
    }
  }

  lemma BeforeSource(cfg: Cfg, excluded: set<nat>, e: nat)
    requires WellFormed(cfg) && e < |cfg.edges| && e !in excluded
    requires Connected(cfg, excluded, cfg.entry, cfg.edges[e].source)
    ensures MentionedBefore(cfg, excluded, cfg.edges[e].source) + EdgeMentions(cfg, e)
            <= MentionedBefore(cfg, excluded, cfg.edges[e].target)
  {
    var n, m := cfg.edges[e].source, cfg.edges[e].target;
    assert IsPath(cfg, excluded, [], m, m) && OnWay(cfg, excluded, m, e) && e in Below(|cfg.edges|);
    forall d | d in Below(|cfg.edges|) && OnWay(cfg, excluded, n, d) ensures OnWay(cfg, excluded, m, d) {
      var p :| IsPath(cfg, excluded, p, cfg.edges[d].target, n);
      EdgePath(cfg, excluded, e);
      PathConcat(cfg, excluded, p, [e], cfg.edges[d].target, n, m);
    }
  }

  /** The pass mentions at a node only what the edges on the way to it mention. */
  lemma {:induction false} SolvedNames(
      cfg: Cfg, excluded: set<nat>, order: seq<nat>, i: nat, reach: seq<Formula>, facts: seq<StoreFacts>)
    requires ReachSolved(cfg, excluded, reach, facts) && IsTopological(cfg, excluded, order)
    requires i < |order| && order[i] < |cfg.nodes|
    ensures Names(reach[order[i]]) + FactNames(facts[order[i]]) <= MentionedBefore(cfg, excluded, order[i])
  {
    var n := order[i];
    assert NodeSolved(cfg, excluded, reach, facts, n);
    forall e | e in Incoming(cfg, n) && Live(cfg, excluded, reach, e)
      ensures var m := cfg.edges[e].source;
              Names(reach[m]) + FactNames(facts[m]) + EdgeMentions(cfg, e) <= MentionedBefore(cfg, excluded, n)
    {
      var j := SourcesEarlier(cfg, excluded, order, i, e);
      SolvedNames(cfg, excluded, order, j, reach, facts);
      SolvedConnected(cfg, excluded, order, j, reach, facts);
      BeforeSource(cfg, excluded, e);
    }
    GatheredNames(cfg, excluded, reach, facts, Initial(cfg, n), Incoming(cfg, n), MentionedBefore(cfg, excluded, n));
  }

  /** On a graph written once nothing that the pass mentions is overwritten. */
  lemma WrittenOnceKeeps(cfg: Cfg, excluded: set<nat>, header: nat, reach: seq<Formula>, facts: seq<StoreFacts>)
    requires ReachSolved(cfg, excluded, reach, facts) && WrittenOnce(cfg, excluded, header)
    ensures NothingOverwritten(cfg, excluded, header, reach, facts)
  {
    var order :| IsTopological(cfg, excluded, order);
    forall e: nat | e < |cfg.edges| && e !in excluded && Connected(cfg, excluded, cfg.edges[e].target, header)
                    && reach[cfg.edges[e].source] != False
      ensures EdgeKeeps(cfg, e, reach[cfg.edges[e].source], facts[cfg.edges[e].source])
    {
      var n := cfg.edges[e].source;
      assert n in order;
      var i :| 0 <= i < |order| && order[i] == n;
      SolvedConnected(cfg, excluded, order, i, reach, facts);
      SolvedNames(cfg, excluded, order, i, reach, facts);
      assert OnWay(cfg, excluded, header, e);
      EdgeNames(cfg, e, reach[n], facts[n], MentionedBefore(cfg, excluded, n));
    }
  }

  /** Whatever the pass computes on this graph, no kept edge on the way to the header overwrites
      what it mentions. There is one such result, so this too is a condition on the graph; it
      takes into account which loads the facts resolve, and `WrittenOnce` implies it. */
  ghost predicate KeepsMentioned(cfg: Cfg, excluded: set<nat>, header: nat) {
    WellFormed(cfg)
    && forall reach, facts | ReachSolved(cfg, excluded, reach, facts) ::
         NothingOverwritten(cfg, excluded, header, reach, facts)
  }

  /** First-entry facts are true: on a graph that is written once, every run to the header over kept
      edges arrives in a state where the reach formula and the store facts of the header hold. */
  lemma FirstEntry(
      cfg: Cfg, excluded: set<nat>, header: nat, reach: seq<Formula>, facts: seq<StoreFacts>, s: State)
    requires ReachSolved(cfg, excluded, reach, facts) && header < |cfg.nodes|
    requires WrittenOnce(cfg, excluded, header) || KeepsMentioned(cfg, excluded, header)
    requires TruncatedOps(s) && Arrives(Strict(cfg), excluded, header, s)
    ensures Eval(reach[header], s) && FactsHold(facts[header], s)
  {
    if WrittenOnce(cfg, excluded, header) {
      WrittenOnceKeeps(cfg, excluded, header, reach, facts);
    }
    var path, s0 :| IsPath(Strict(cfg), excluded, path, cfg.entry, header) && Follows(Strict(cfg), path, s0, s);
    StrictPath(cfg, excluded, path, cfg.entry, header);
    FollowsOps(Strict(cfg), path, s0, s);
    EntrySolved(cfg, excluded, reach, facts);
    FirstEntryPath(cfg, excluded, header, reach, facts, path, cfg.entry, s0, s);
  }

  // ---- The pass itself ------------------------------------------------------------------------

  /** Join the contributions of the edges entering one node. */
  method JoinIncoming(cfg: Cfg, excluded: set<nat>, reach: seq<Formula>, facts: seq<StoreFacts>, node: nat)
    returns (f: Formula, incoming: Option<StoreFacts>)
    requires WellFormed(cfg) && |reach| == |facts| == |cfg.nodes| && node < |cfg.nodes|
    ensures (f, incoming) == Gathered(cfg, excluded, reach, facts, reach[node], Incoming(cfg, node))
  {
    f, incoming := reach[node], None;
    var edges := Incoming(cfg, node);
    for j := 0 to |edges|
      invariant (f, incoming) == Gathered(cfg, excluded, reach, facts, reach[node], edges[..j])
    {
      var e := edges[j];
      assert e in edges;
      assert edges[..j + 1][..j] == edges[..j];
      var n := cfg.edges[e].source;
      if e !in excluded && reach[n] != False {
        var out, pathFacts := ApplyEffectsSp(cfg.nodes[n], reach[n], facts[n]);
        var through, more := ApplyEffectsSp(cfg.edges[e].effects, AndOf(out, cfg.edges[e].guard), pathFacts);
        f := OrOf(f, through);
        incoming := Some(if incoming.None? then more else Intersect(incoming.value, more));
      }
    }
    assert edges[..|edges|] == edges;
  }

  /** The nodes of `done` are solved; the others still have their initial formula and no facts. */
  ghost predicate Partial(
      cfg: Cfg, excluded: set<nat>, done: seq<nat>, reach: seq<Formula>, facts: seq<StoreFacts>)
  {
    && WellFormed(cfg) && |reach| == |facts| == |cfg.nodes|
    && forall n: nat | n < |cfg.nodes| ::
         if n in done then NodeSolved(cfg, excluded, reach, facts, n)
         else reach[n] == Initial(cfg, n) && facts[n] == map[]
  }

  lemma SolvedFrame(
      cfg: Cfg, excluded: set<nat>, reach: seq<Formula>, facts: seq<StoreFacts>, reach': seq<Formula>,
      facts': seq<StoreFacts>, m: nat)
    requires WellFormed(cfg) && |reach| == |facts| == |reach'| == |facts'| == |cfg.nodes| && m < |cfg.nodes|
    requires forall e | e in Incoming(cfg, m) && e !in excluded ::
               var n := cfg.edges[e].source; reach[n] == reach'[n] && facts[n] == facts'[n]
    requires var (f, incoming) := Gathered(cfg, excluded, reach, facts, Initial(cfg, m), Incoming(cfg, m));
             reach'[m] == f && facts'[m] == if incoming.None? then map[] else incoming.value
    ensures NodeSolved(cfg, excluded, reach', facts', m)
  {
    GatheredFrame(cfg, excluded, reach, facts, reach', facts', Initial(cfg, m), Incoming(cfg, m));
  }

  /** Only the given node changes. */
  ghost predicate ChangedAt(
      cfg: Cfg, node: nat, reach: seq<Formula>, facts: seq<StoreFacts>, reach': seq<Formula>, facts': seq<StoreFacts>)
  {
    && |reach| == |facts| == |reach'| == |facts'| == |cfg.nodes|
    && forall n: nat | n < |cfg.nodes| && n != node :: reach'[n] == reach[n] && facts'[n] == facts[n]
  }

  lemma EarlierFrame(
      cfg: Cfg, excluded: set<nat>, order: seq<nat>, k: nat, i: nat, reach: seq<Formula>, facts: seq<StoreFacts>,
      reach': seq<Formula>, facts': seq<StoreFacts>)
    requires IsTopological(cfg, excluded, order) && k <= i < |order| && order[k] < |cfg.nodes| && WellFormed(cfg)
    requires ChangedAt(cfg, order[i], reach, facts, reach', facts')
    ensures forall e | e in Incoming(cfg, order[k]) && e !in excluded ::
              var n := cfg.edges[e].source; reach[n] == reach'[n] && facts[n] == facts'[n]
  {
    forall e | e in Incoming(cfg, order[k]) && e !in excluded
      ensures var n := cfg.edges[e].source; reach[n] == reach'[n] && facts[n] == facts'[n]
    {
      var j := SourcesEarlier(cfg, excluded, order, k, e);
    }
  }

  lemma StaysSolved(
      cfg: Cfg, excluded: set<nat>, order: seq<nat>, k: nat, i: nat, reach: seq<Formula>, facts: seq<StoreFacts>,
      reach': seq<Formula>, facts': seq<StoreFacts>)
    requires IsTopological(cfg, excluded, order) && k < i < |order| && order[k] < |cfg.nodes| && WellFormed(cfg)
    requires ChangedAt(cfg, order[i], reach, facts, reach', facts')
    requires NodeSolved(cfg, excluded, reach, facts, order[k])
    ensures NodeSolved(cfg, excluded, reach', facts', order[k])
  {
    EarlierFrame(cfg, excluded, order, k, i, reach, facts, reach', facts');
    SolvedFrame(cfg, excluded, reach, facts, reach', facts', order[k]);
  }

  lemma NodeDone(
      cfg: Cfg, excluded: set<nat>, order: seq<nat>, i: nat, reach: seq<Formula>, facts: seq<StoreFacts>,
      reach': seq<Formula>, facts': seq<StoreFacts>)
    requires IsTopological(cfg, excluded, order) && i < |order| && order[i] < |cfg.nodes|
    requires Partial(cfg, excluded, order[..i], reach, facts)
    requires ChangedAt(cfg, order[i], reach, facts, reach', facts')
    requires var (f, incoming) := Gathered(cfg, excluded, reach, facts, reach[order[i]], Incoming(cfg, order[i]));
             reach'[order[i]] == f && facts'[order[i]] == if incoming.None? then map[] else incoming.value
    ensures Partial(cfg, excluded, order[..i + 1], reach', facts')
  {
    assert order[..i + 1] == order[..i] + [order[i]] && order[i] !in order[..i];
    EarlierFrame(cfg, excluded, order, i, i, reach, facts, reach', facts');
    SolvedFrame(cfg, excluded, reach, facts, reach', facts', order[i]);
    forall m: nat | m < |cfg.nodes| && m in order[..i] ensures NodeSolved(cfg, excluded, reach', facts', m) {
      var k :| 0 <= k < i && order[k] == m;
      StaysSolved(cfg, excluded, order, k, i, reach, facts, reach', facts');
    }
  }

  lemma SolutionExists(cfg: Cfg, excluded: set<nat>) returns (reach: seq<Formula>, facts: seq<StoreFacts>)
    requires WellFormed(cfg) && HasOrder(cfg, excluded)
    ensures ReachSolved(cfg, excluded, reach, facts)
  {
    var order :| IsTopological(cfg, excluded, order);
    reach := seq(|cfg.nodes|, n requires 0 <= n < |cfg.nodes| => Initial(cfg, n));
    facts := seq(|cfg.nodes|, n => map[]);
    for i := 0 to |order|
      invariant Partial(cfg, excluded, order[..i], reach, facts)
    {
      var node := order[i];
      assert node in order && node !in order[..i];
      var (f, incoming) := Gathered(cfg, excluded, reach, facts, reach[node], Incoming(cfg, node));
      var reach0, facts0 := reach, facts;
      reach := reach[node := f];
      facts := facts[node := if incoming.None? then map[] else incoming.value];
      NodeDone(cfg, excluded, order, i, reach0, facts0, reach, facts);
    }
    assert order[..|order|] == order;
  }

  /** `forward_reach_at_header`, given the back edges: the reach formula of the header with its
      store facts as equations, or True when no order exists. */
  method ForwardReachAtHeader(cfg: Cfg, excluded: set<nat>, header: nat)
    returns (result: Formula, ghost reach: seq<Formula>, ghost facts: seq<StoreFacts>)
    requires WellFormed(cfg) && header < |cfg.nodes|
    ensures Cyclic(cfg, excluded) ==> result == True
    ensures !Cyclic(cfg, excluded) ==>
              ReachSolved(cfg, excluded, reach, facts)
              && forall s: State :: Eval(result, s) <==> Eval(reach[header], s) && FactsHold(facts[header], s)
    ensures WrittenOnce(cfg, excluded, header) || KeepsMentioned(cfg, excluded, header) ==>
              forall s: State | TruncatedOps(s) && Arrives(Strict(cfg), excluded, header, s) :: Eval(result, s)
  {
    var order := TopologicalOrder(cfg, excluded);
    if order.None? {
      return True, [], [];
    }
    var r := seq(|cfg.nodes|, n requires 0 <= n < |cfg.nodes| => Initial(cfg, n));
    var fs: seq<StoreFacts> := seq(|cfg.nodes|, n => map[]);
    for i := 0 to |order.value|
      invariant Partial(cfg, excluded, order.value[..i], r, fs)
    {
      var node := order.value[i];
      assert node in order.value && node !in order.value[..i];
      var f, incoming := JoinIncoming(cfg, excluded, r, fs, node);
      ghost var r0, fs0 := r, fs;
      r := r[node := f];
      if incoming.Some? {
        fs := fs[node := incoming.value];
      }
      NodeDone(cfg, excluded, order.value, i, r0, fs0, r, fs);
    }
    assert order.value[..|order.value|] == order.value;
    reach, facts := r, fs;
    result := AddFacts(r[header], fs[header]);
    if WrittenOnce(cfg, excluded, header) || KeepsMentioned(cfg, excluded, header) {
      forall s: State | TruncatedOps(s) && Arrives(Strict(cfg), excluded, header, s) ensures Eval(result, s) {
        FirstEntry(cfg, excluded, header, reach, facts, s);
      }
    }
  }

  method AddFacts(f: Formula, facts: StoreFacts) returns (r: Formula)
    ensures forall s: State :: Eval(r, s) <==> Eval(f, s) && FactsHold(facts, s)
  {
    r := f;
    var keys := facts.Keys;
    while keys != {}
      invariant keys <= facts.Keys
      invariant forall s: State :: Eval(r, s) <==>
                  Eval(f, s) && forall k | k in facts && k !in keys :: s.mem(k.0, k.1) == EvalT(facts[k], s)
    {
      var k :| k in keys;
      var eq := Cmp(Eq, Select(Region(k.0), Int(k.1)), facts[k]);
      forall s: State ensures Eval(AndOf(r, eq), s) <==> Eval(r, s) && s.mem(k.0, k.1) == EvalT(facts[k], s) {
        AndMeaning(r, eq, s);
        assert EvalT(Int(k.1), s) == k.1 && Read(Region(k.0), s, k.1) == s.mem(k.0, k.1);
      }
      r := AndOf(r, eq);
      keys := keys - {k};
    }
  }

  lemma {:induction false} RunOps(effects: seq<Effect>, s: State, t: State)
    requires Run(effects, s, t)
    ensures SameOps(s, t)
    decreases |effects|
  {
    if effects != [] {
      var u :| Step(effects[0], s, u) && Run(effects[1..], u, t);
      RunOps(effects[1..], u, t);
    }
  }

  /** No execution changes what division and remainder mean. */
  lemma {:induction false} FollowsOps(cfg: Cfg, path: seq<nat>, s: State, t: State)
    requires WellFormed(cfg) && Follows(cfg, path, s, t)
    ensures SameOps(s, t)
    decreases |path|
  {
    if path != [] {
      var u :| Cross(cfg, path[0], s, u) && Follows(cfg, path[1..], u, t);
      var m :| Run(cfg.nodes[cfg.edges[path[0]].source], s, m) && Run(cfg.edges[path[0]].effects, m, u);
      RunOps(cfg.nodes[cfg.edges[path[0]].source], s, m);
      RunOps(cfg.edges[path[0]].effects, m, u);
      FollowsOps(cfg, path[1..], u, t);
    }
  }
}
