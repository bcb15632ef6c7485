/** Return-summary inference, `compute_return_summary` of src/cfg/adapter.rs: a backward pass from
    the exit yields the relation between a procedure's inputs and its return value. */
module ReturnSummaries {
  import opened Formulas
  import opened Semantics
  import opened Substitution
  import opened Transfer
  import opened Graphs
  import opened Ordering
  import opened Runs
  import opened Passes
  import opened PathConditions
  import opened AlphaRenaming

  // ---- Runs from states that differ where nobody looks ----------------------------------------

  /** The states agree except on the names `apart` and on the integers of `loose`. */
  ghost predicate Alike(s: State, t: State, apart: set<Name>, loose: set<Var>) {
    SameOps(s, t)
    && (forall v | Scalar(v) !in apart :: s.bools(v) == t.bools(v) && (v !in loose ==> s.ints(v) == t.ints(v)))
    && forall r, at | Mem(r) !in apart :: s.mem(r, at) == t.mem(r, at)
  }

  /** The effect neither reads nor writes a name apart, and reads no loose variable. */
  ghost predicate Aside(e: Effect, apart: set<Name>, loose: set<Var>) {
    Reads(e) !! apart && (forall v | v in loose :: Scalar(v) !in Reads(e))
    && (e.Assign? ==> Scalar(e.target) !in apart) && (e.MemoryStore? ==> Mem(e.region) !in apart)
  }

  ghost predicate AllAside(effects: seq<Effect>, apart: set<Name>, loose: set<Var>) {
    forall e | e in effects :: Aside(e, apart, loose)
  }

  /** The integers the effects assign. */
  function AssignedBy(effects: seq<Effect>): set<Var> {
    set e | e in effects && e.Assign? && e.value.ValueTerm? :: e.target
  }

  lemma AlikeReads(s: State, t: State, apart: set<Name>, loose: set<Var>, names: set<Name>)
    requires Alike(s, t, apart, loose) && names !! apart && forall v | v in loose :: Scalar(v) !in names
    ensures SameOn(s, t, names)
  {
    forall n | n in names ensures SameAt(s, t, n) {
      assert n !in apart;
    }
  }

  lemma StepAlike(e: Effect, s: State, t: State, s': State, apart: set<Name>, loose: set<Var>) returns (t': State)
    requires Exact([e]) && Aside(e, apart, loose) && Step(e, s, t) && Alike(s, s', apart, loose)
    ensures Step(e, s', t') && Alike(t, t', apart, loose - AssignedBy([e])) && SameOn(s', t', apart)
  {
    assert e in [e];
    AlikeReads(s, s', apart, loose, Reads(e));
    match e
    case Assign(v, ValueTerm(x)) =>
      CongruenceT(x, s, s');
      t' := s'.SetInt(v, EvalT(x, s'));
      assert v in AssignedBy([e]);
    case Assign(v, ValueFormula(p)) =>
      Congruence(p, s, s');
      t' := s'.SetBool(v, Eval(p, s'));
      assert AssignedBy([e]) == {};
    case MemoryStore(r, o, x) =>
      CongruenceT(o, s, s');
      CongruenceT(x, s, s');
      t' := s'.Write(r, EvalT(o, s'), EvalT(x, s'));
      assert AssignedBy([e]) == {};
    case Assume(c) =>
      Congruence(c, s, s');
      t' := s';
      assert AssignedBy([e]) == {};
    case Obligation(c) =>
      Congruence(c, s, s');
      t' := s';
      assert AssignedBy([e]) == {};
    case TypeBound(_) =>
      t' := s';
      assert AssignedBy([e]) == {};
    case Call(_) =>
      t' := s';
      assert AssignedBy([e]) == {};
    case Nop =>
      t' := s';
      assert AssignedBy([e]) == {};
  }

  lemma {:induction false} RunAlike(
      effects: seq<Effect>, s: State, t: State, s': State, apart: set<Name>, loose: set<Var>)
    returns (t': State)
    requires Exact(effects) && AllAside(effects, apart, loose) && Run(effects, s, t) && Alike(s, s', apart, loose)
    ensures Run(effects, s', t') && Alike(t, t', apart, loose - AssignedBy(effects)) && SameOn(s', t', apart)
    decreases |effects|
  {
    if effects == [] {
      t' := s';
      assert loose - AssignedBy(effects) == loose;
    } else {
      var e, rest := effects[0], effects[1..];
      assert e in effects && effects == [e] + rest;
      var u :| Step(e, s, u) && Run(rest, u, t);
      var u' := StepAlike(e, s, u, s', apart, loose);
      assert AllAside(rest, apart, loose - AssignedBy([e])) by {
        forall d | d in rest ensures Aside(d, apart, loose - AssignedBy([e])) {
          assert d in effects;
        }
      }
      t' := RunAlike(rest, u, t, u', apart, loose - AssignedBy([e]));
      assert AssignedBy(effects) == AssignedBy([e]) + AssignedBy(rest);
      assert loose - AssignedBy([e]) - AssignedBy(rest) == loose - AssignedBy(effects);
      SameOnTrans(s', u', t', apart);
    }
  }

  lemma SameOnTrans(s: State, u: State, t: State, names: set<Name>)
    requires SameOn(s, u, names) && SameOn(u, t, names)
    ensures SameOn(s, t, names)
  {
    forall n | n in names ensures SameAt(s, t, n) {
      assert SameAt(s, u, n) && SameAt(u, t, n);
    }
  }

  ghost predicate CfgAside(cfg: Cfg, apart: set<Name>, loose: set<Var>) {
    (forall n | 0 <= n < |cfg.nodes| :: AllAside(cfg.nodes[n], apart, loose))
    && forall e | 0 <= e < |cfg.edges| ::
         AllAside(cfg.edges[e].effects, apart, loose) && Aside(Assume(cfg.edges[e].guard), apart, loose)
  }

  function AssignedOn(cfg: Cfg, path: seq<nat>): set<Var>
    requires WellFormed(cfg)
  {
    if path == [] || path[0] >= |cfg.edges| then {}
    else
      var edge := cfg.edges[path[0]];
      AssignedBy(cfg.nodes[edge.source]) + AssignedBy(edge.effects) + AssignedOn(cfg, path[1..])
  }

  lemma AsideLess(effects: seq<Effect>, apart: set<Name>, loose: set<Var>, less: set<Var>)
    requires AllAside(effects, apart, loose) && less <= loose
    ensures AllAside(effects, apart, less)
  {
    forall e | e in effects ensures Aside(e, apart, less) {
      assert Aside(e, apart, loose);
    }
  }

  lemma CrossAlike(cfg: Cfg, e: nat, s: State, t: State, s': State, apart: set<Name>, loose: set<Var>, less: set<Var>)
    returns (t': State)
    requires WellFormed(cfg) && CfgExact(cfg) && CfgAside(cfg, apart, loose) && less <= loose && e < |cfg.edges|
    requires Cross(cfg, e, s, t) && Alike(s, s', apart, less)
    ensures Cross(cfg, e, s', t') && SameOn(s', t', apart)
    ensures Alike(t, t', apart, less - (AssignedBy(cfg.nodes[cfg.edges[e].source]) + AssignedBy(cfg.edges[e].effects)))
  {
    var edge := cfg.edges[e];
    var node := cfg.nodes[edge.source];
    var m :| Run(node, s, m) && Eval(edge.guard, m) && Run(edge.effects, m, t);
    AsideLess(node, apart, loose, less);
    var m' := RunAlike(node, s, m, s', apart, less);
    var rest := less - AssignedBy(node);
    AsideLess(edge.effects, apart, loose, rest);
    assert Aside(Assume(edge.guard), apart, loose);
    AlikeReads(m, m', apart, rest, Names(edge.guard));
    Congruence(edge.guard, m, m');
    t' := RunAlike(edge.effects, m, t, m', apart, rest);
    assert rest - AssignedBy(edge.effects) == less - (AssignedBy(node) + AssignedBy(edge.effects));
    CrossVia(cfg, e, s', m', t');
    SameOnTrans(s', m', t', apart);
  }

  /** A run has a twin from every state that differs only where nobody looks; the twin agrees on
      every loose variable that is assigned on the way. */
  lemma {:induction false} FollowsAlike(
      cfg: Cfg, path: seq<nat>, s: State, t: State, s': State, apart: set<Name>, loose: set<Var>, less: set<Var>)
    returns (t': State)
    requires WellFormed(cfg) && CfgExact(cfg) && CfgAside(cfg, apart, loose) && less <= loose
    requires Follows(cfg, path, s, t) && Alike(s, s', apart, less)
    ensures Follows(cfg, path, s', t') && Alike(t, t', apart, less - AssignedOn(cfg, path)) && SameOn(s', t', apart)
    decreases |path|
  {
    if path == [] {
      t' := s';
      assert less - AssignedOn(cfg, path) == less;
    } else {
      var u :| Cross(cfg, path[0], s, u) && Follows(cfg, path[1..], u, t);
      var u' := CrossAlike(cfg, path[0], s, u, s', apart, loose, less);
      var edge := cfg.edges[path[0]];
      var first := AssignedBy(cfg.nodes[edge.source]) + AssignedBy(edge.effects);
      t' := FollowsAlike(cfg, path[1..], u, t, u', apart, loose, less - first);
      assert less - first - AssignedOn(cfg, path[1..]) == less - AssignedOn(cfg, path);
      SameOnTrans(s', u', t', apart);
    }
  }

  // ---- The summary ----------------------------------------------------------------------------

  function Observer(retval: string): string {
    retval + "$obs"
  }

  function ReturnVar(retval: string): Var {
    Var(retval, IntSort)
  }

  /** The observer's name becomes the return value's. */
  function ObserverRenamer(retval: string): Renamer {
    Renamer(n => if n == Observer(retval) then retval else n, n => if n == Observer(retval) then retval else n)
  }

  function ReturnSeed(cfg: Cfg, exit: nat, retval: string): Seed
    requires exit < |cfg.nodes|
  {
    Seed(exit, Wp(cfg.nodes[exit], Cmp(Eq, TVar(ReturnVar(retval)), TVar(ReturnVar(Observer(retval))))))
  }

  /** `formula_contains_var`: the name occurs as a variable or as a region. */
  predicate ContainsVar(f: Formula, name: string) {
    Scalar(Var(name, IntSort)) in Names(f) || Scalar(Var(name, BoolSort)) in Names(f) || Mem(name) in Names(f)
  }

  /** The procedure, started in `s`, can return `k`. */
  ghost predicate Returns(cfg: Cfg, exit: nat, retval: string, s: State, k: int)
    requires WellFormed(cfg) && exit < |cfg.nodes|
  {
    exists path, t: State, u: State ::
      IsPath(cfg, {}, path, cfg.entry, exit) && Follows(cfg, path, s, t) && Run(cfg.nodes[exit], t, u)
      && u.ints(ReturnVar(retval)) == k
  }

  /** Whatever the return variable holds on entry, putting `k` there satisfies the relation just
      when the procedure can return `k`. */
  ghost predicate IsReturnRelation(cfg: Cfg, exit: nat, retval: string, relation: Formula)
    requires WellFormed(cfg) && exit < |cfg.nodes|
  {
    forall s: State, k: int ::
      Eval(relation, s.SetInt(ReturnVar(retval), k)) <==> Returns(cfg, exit, retval, s, k)
  }

  /** From some state the procedure can return one value and not another. */
  ghost predicate ValueMatters(cfg: Cfg, exit: nat, retval: string)
    requires WellFormed(cfg) && exit < |cfg.nodes|
  {
    exists s: State, k: int, j: int :: Returns(cfg, exit, retval, s, k) && !Returns(cfg, exit, retval, s, j)
  }

  /** A return relation in which the value matters mentions the return variable. */
  lemma RelationMentions(cfg: Cfg, exit: nat, retval: string, f: Formula)
    requires WellFormed(cfg) && exit < |cfg.nodes| && IsReturnRelation(cfg, exit, retval, f)
    requires ValueMatters(cfg, exit, retval)
    ensures ContainsVar(f, retval)
  {
    var s: State, k: int, j: int :| Returns(cfg, exit, retval, s, k) && !Returns(cfg, exit, retval, s, j);
    var t, u := s.SetInt(ReturnVar(retval), k), s.SetInt(ReturnVar(retval), j);
    assert Eval(f, t) && !Eval(f, u);
    if Scalar(ReturnVar(retval)) !in Names(f) {
      UnmentionedSame(f, ReturnVar(retval), s, k, j);
    }
  }

  lemma UnmentionedSame(f: Formula, v: Var, s: State, k: int, j: int)
    requires Scalar(v) !in Names(f)
    ensures Eval(f, s.SetInt(v, k)) <==> Eval(f, s.SetInt(v, j))
  {
    Congruence(f, s.SetInt(v, k), s.SetInt(v, j));
  }

  /** `compute_return_summary`. The relation holds of a state exactly when the seed is reached from
      the state whose observer carries the return value. There is no relation without an exit and
      on cyclic graphs, and there is one when the returned value matters. */
  method ComputeReturnSummary(cfg: Cfg, exit: Option<nat>, retval: string, ghost hidden: set<Name>)
    returns (relation: Option<Formula>)
    requires WellFormed(cfg) && (exit.Some? ==> exit.value < |cfg.nodes|)
    ensures exit.None? || Cyclic(cfg, {}) ==> relation.None?
    ensures exit.Some? && !Cyclic(cfg, {}) && CfgExact(cfg) && CfgVisible(cfg, hidden)
            && ReturnsOnce(cfg, exit.value, retval) && ValueMatters(cfg, exit.value, retval) ==>
              relation.Some?
    ensures relation.Some? ==> ContainsVar(relation.value, retval)
    ensures relation.Some? && CfgExact(cfg) && CfgVisible(cfg, hidden) ==>
              forall s: State :: Eval(relation.value, s) <==>
                LeadsTo(cfg, {}, ReturnSeed(cfg, exit.value, retval), cfg.entry, Composed(ObserverRenamer(retval), s))
    ensures relation.Some? && CfgExact(cfg) && CfgVisible(cfg, hidden) && ReturnsOnce(cfg, exit.value, retval) ==>
              IsReturnRelation(cfg, exit.value, retval, relation.value)
  {
    if exit.None? {
      return None;
    }
    var seed := ReturnSeed(cfg, exit.value, retval);
    var states := BackwardStates(cfg, seed, {}, None, PLAIN, hidden);
    if states.None? {
      return None;
    }
    var rn := ObserverRenamer(retval);
    var renamed := Rename(rn, states.value[cfg.entry]);
    if CfgExact(cfg) && CfgVisible(cfg, hidden) {
      assert Dropped(cfg, {}, None) == {};
      SeedHidden(cfg, exit.value, retval, hidden);
      RelationLeads(cfg, exit.value, retval, hidden, states.value);
      if ReturnsOnce(cfg, exit.value, retval) {
        forall s: State, k: int
          ensures Eval(renamed, s.SetInt(ReturnVar(retval), k)) <==> Returns(cfg, exit.value, retval, s, k)
        {
          RelationExact(cfg, exit.value, retval, hidden, renamed, s, k);
        }
        if ValueMatters(cfg, exit.value, retval) {
          RelationMentions(cfg, exit.value, retval, renamed);
        }
      }
    }
    if !ContainsVar(renamed, retval) {
      return None;
    }
    relation := Some(renamed);
  }

  lemma RelationLeads(cfg: Cfg, exit: nat, retval: string, hidden: set<Name>, states: seq<Formula>)
    requires WellFormed(cfg) && exit < |cfg.nodes| && CfgExact(cfg) && CfgVisible(cfg, hidden)
    requires Equations(cfg, PLAIN, ReturnSeed(cfg, exit, retval), KeptEdges(cfg, {}), states) && HasOrder(cfg, {})
    requires StatesHidden(states, hidden)
    ensures forall s: State :: Eval(Rename(ObserverRenamer(retval), states[cfg.entry]), s) <==>
              LeadsTo(cfg, {}, ReturnSeed(cfg, exit, retval), cfg.entry, Composed(ObserverRenamer(retval), s))
  {
    var rn, seed := ObserverRenamer(retval), ReturnSeed(cfg, exit, retval);
    forall s: State
      ensures Eval(Rename(rn, states[cfg.entry]), s) <==> LeadsTo(cfg, {}, seed, cfg.entry, Composed(rn, s))
    {
      Renamed(rn, states[cfg.entry], s);
      PassExact(cfg, seed, {}, states, hidden, cfg.entry, Composed(rn, s));
    }
  }

  lemma SeedHidden(cfg: Cfg, exit: nat, retval: string, hidden: set<Name>)
    requires WellFormed(cfg) && exit < |cfg.nodes| && CfgVisible(cfg, hidden)
    ensures Hidden(ReturnSeed(cfg, exit, retval).f) <= hidden
  {
    var post := Cmp(Eq, TVar(ReturnVar(retval)), TVar(ReturnVar(Observer(retval))));
    assert HiddenT(post.l) == {} && HiddenT(post.r) == {};
    WpHidden(false, cfg.nodes[exit], post, hidden);
  }

  // ---- The input/return relation --------------------------------------------------------------

  function ObserverNames(retval: string): set<Name> {
    {Scalar(Var(Observer(retval), IntSort)), Scalar(Var(Observer(retval), BoolSort)), Mem(Observer(retval))}
  }

  /** The graph never mentions the observer and never reads the return value, and every path to
      the exit assigns it. */
  ghost predicate ReturnsOnce(cfg: Cfg, exit: nat, retval: string)
    requires WellFormed(cfg) && exit < |cfg.nodes|
  {
    CfgAside(cfg, ObserverNames(retval), {ReturnVar(retval)})
    && forall path | IsPath(cfg, {}, path, cfg.entry, exit) ::
         ReturnVar(retval) in AssignedOn(cfg, path) + AssignedBy(cfg.nodes[exit])
  }

  lemma SeedMeans(cfg: Cfg, exit: nat, retval: string, hidden: set<Name>, t: State)
    requires WellFormed(cfg) && exit < |cfg.nodes| && CfgExact(cfg) && CfgVisible(cfg, hidden)
    ensures Eval(ReturnSeed(cfg, exit, retval).f, t) <==>
            exists u: State ::
              Run(cfg.nodes[exit], t, u) && u.ints(ReturnVar(retval)) == u.ints(ReturnVar(Observer(retval)))
  {
    var r, o := TVar(ReturnVar(retval)), TVar(ReturnVar(Observer(retval)));
    assert HiddenT(r) == {} && HiddenT(o) == {};
    WpExact(cfg.nodes[exit], Cmp(Eq, r, o), t, hidden);
    assert forall u: State ::
             EvalT(r, u) == u.ints(ReturnVar(retval)) && EvalT(o, u) == u.ints(ReturnVar(Observer(retval)));
  }

  /** A whole run of the procedure, its end node included, has a twin as well. */
  lemma WholeRunAlike(
      cfg: Cfg, exit: nat, retval: string, path: seq<nat>, s: State, t: State, u: State, s': State)
    returns (t': State, u': State)
    requires WellFormed(cfg) && exit < |cfg.nodes| && CfgExact(cfg) && ReturnsOnce(cfg, exit, retval)
    requires IsPath(cfg, {}, path, cfg.entry, exit) && Follows(cfg, path, s, t) && Run(cfg.nodes[exit], t, u)
    requires Alike(s, s', ObserverNames(retval), {ReturnVar(retval)})
    ensures Follows(cfg, path, s', t') && Run(cfg.nodes[exit], t', u')
    ensures u'.ints(ReturnVar(retval)) == u.ints(ReturnVar(retval)) && SameOn(s', u', ObserverNames(retval))
  {
    var apart, loose := ObserverNames(retval), {ReturnVar(retval)};
    t' := FollowsAlike(cfg, path, s, t, s', apart, loose, loose);
    var rest := loose - AssignedOn(cfg, path);
    AsideLess(cfg.nodes[exit], apart, loose, rest);
    u' := RunAlike(cfg.nodes[exit], t, u, t', apart, rest);
    SameOnTrans(s', t', u', apart);
    assert Alike(u, u', apart, rest - AssignedBy(cfg.nodes[exit]));
    assert Scalar(ReturnVar(retval)) !in apart by {
      assert |Observer(retval)| == |retval| + 4;
    }
    assert ReturnVar(retval) !in rest - AssignedBy(cfg.nodes[exit]);
  }

  lemma ComposedAlike(retval: string, s: State, k: int)
    ensures var c := Composed(ObserverRenamer(retval), s.SetInt(ReturnVar(retval), k));
            Alike(s, c, ObserverNames(retval), {ReturnVar(retval)})
            && Alike(c, s, ObserverNames(retval), {ReturnVar(retval)})
            && c.ints(ReturnVar(Observer(retval))) == k
  {
    var rn := ObserverRenamer(retval);
    var c := Composed(rn, s.SetInt(ReturnVar(retval), k));
    assert rn.OfVar(ReturnVar(Observer(retval))) == ReturnVar(retval);
    forall v: Var | Scalar(v) !in ObserverNames(retval) ensures rn.OfVar(v) == v {
      assert v == Var(v.name, v.sort) && (v.sort == IntSort || v.sort == BoolSort);
    }
  }

  lemma ReachedReturns(cfg: Cfg, exit: nat, retval: string, hidden: set<Name>, s: State, c: State, k: int)
    requires WellFormed(cfg) && exit < |cfg.nodes| && CfgExact(cfg) && CfgVisible(cfg, hidden)
    requires ReturnsOnce(cfg, exit, retval)
    requires Alike(c, s, ObserverNames(retval), {ReturnVar(retval)}) && c.ints(ReturnVar(Observer(retval))) == k
    requires LeadsTo(cfg, {}, ReturnSeed(cfg, exit, retval), cfg.entry, c)
    ensures Returns(cfg, exit, retval, s, k)
  {
    var seed := ReturnSeed(cfg, exit, retval);
    var path, t :| IsPath(cfg, {}, path, cfg.entry, exit) && Follows(cfg, path, c, t) && Eval(seed.f, t);
    SeedMeans(cfg, exit, retval, hidden, t);
    var u: State :| Run(cfg.nodes[exit], t, u) && u.ints(ReturnVar(retval)) == u.ints(ReturnVar(Observer(retval)));
    ObserverKept(cfg, exit, retval, path, c, t, u);
    var t', u' := WholeRunAlike(cfg, exit, retval, path, c, t, u, s);
  }

  lemma ReturnsReached(cfg: Cfg, exit: nat, retval: string, hidden: set<Name>, s: State, c: State, k: int)
    requires WellFormed(cfg) && exit < |cfg.nodes| && CfgExact(cfg) && CfgVisible(cfg, hidden)
    requires ReturnsOnce(cfg, exit, retval) && Returns(cfg, exit, retval, s, k)
    requires Alike(s, c, ObserverNames(retval), {ReturnVar(retval)}) && c.ints(ReturnVar(Observer(retval))) == k
    ensures LeadsTo(cfg, {}, ReturnSeed(cfg, exit, retval), cfg.entry, c)
  {
    var path, t, u :| IsPath(cfg, {}, path, cfg.entry, exit) && Follows(cfg, path, s, t)
                      && Run(cfg.nodes[exit], t, u) && u.ints(ReturnVar(retval)) == k;
    var t', u' := WholeRunAlike(cfg, exit, retval, path, s, t, u, c);
    assert SameAt(c, u', Scalar(ReturnVar(Observer(retval))));
    SeedMeans(cfg, exit, retval, hidden, t');
  }

  /** The relation is exactly the procedure's input/return relation. */
  lemma RelationExact(cfg: Cfg, exit: nat, retval: string, hidden: set<Name>, f: Formula, s: State, k: int)
    requires WellFormed(cfg) && exit < |cfg.nodes| && CfgExact(cfg) && CfgVisible(cfg, hidden)
    requires ReturnsOnce(cfg, exit, retval)
    requires forall q: State :: Eval(f, q) <==>
               LeadsTo(cfg, {}, ReturnSeed(cfg, exit, retval), cfg.entry, Composed(ObserverRenamer(retval), q))
    ensures Eval(f, s.SetInt(ReturnVar(retval), k)) <==> Returns(cfg, exit, retval, s, k)
  {
    var c := Composed(ObserverRenamer(retval), s.SetInt(ReturnVar(retval), k));
    ComposedAlike(retval, s, k);
    if LeadsTo(cfg, {}, ReturnSeed(cfg, exit, retval), cfg.entry, c) {
      ReachedReturns(cfg, exit, retval, hidden, s, c, k);
    }
    if Returns(cfg, exit, retval, s, k) {
      ReturnsReached(cfg, exit, retval, hidden, s, c, k);
    }
  }

  lemma ObserverKept(cfg: Cfg, exit: nat, retval: string, path: seq<nat>, s: State, t: State, u: State)
    requires WellFormed(cfg) && exit < |cfg.nodes| && CfgExact(cfg) && ReturnsOnce(cfg, exit, retval)
    requires IsPath(cfg, {}, path, cfg.entry, exit) && Follows(cfg, path, s, t) && Run(cfg.nodes[exit], t, u)
    ensures u.ints(ReturnVar(Observer(retval))) == s.ints(ReturnVar(Observer(retval)))
  {
    var apart, loose := ObserverNames(retval), {ReturnVar(retval)};
    assert Alike(s, s, apart, loose);
    var t' := FollowsAlike(cfg, path, s, t, s, apart, loose, {});
    FollowsUnique(cfg, path, s, t, t');
    AsideLess(cfg.nodes[exit], apart, loose, {});
    var u' := RunAlike(cfg.nodes[exit], t, u, t, apart, {});
    RunUnique(cfg.nodes[exit], t, u);
    SameOnTrans(s, t, u, apart);
    assert SameAt(s, u, Scalar(ReturnVar(Observer(retval))));
  }

  lemma {:induction false} FollowsUnique(cfg: Cfg, path: seq<nat>, s: State, t: State, u: State)
    requires WellFormed(cfg) && CfgExact(cfg) && Follows(cfg, path, s, t) && Follows(cfg, path, s, u)
    ensures t == u
    decreases |path|
  {
    if path != [] {
      var v :| Cross(cfg, path[0], s, v) && Follows(cfg, path[1..], v, t);
      var w :| Cross(cfg, path[0], s, w) && Follows(cfg, path[1..], w, u);
      CrossUnique(cfg, path[0], s, v, w);
      FollowsUnique(cfg, path[1..], v, t, u);
    }
  }
}
