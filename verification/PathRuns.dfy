/** The events of a path against the executions of the graph: their outcome is a run along the
    path on which every type bound holds, and for exact effects it is the only one. */
module PathRuns {
  import opened Formulas
  import opened Semantics
  import opened Substitution
  import opened Transfer
  import opened Graphs
  import opened Runs
  import opened Reach
  import opened PathSearch
  import opened SymbolicWalk
  import opened PathConditions

  lemma {:induction false} OutcomeConcat(a: seq<Event>, b: seq<Event>, s: State)
    ensures Outcome(a, s).None? ==> Outcome(a + b, s).None?
    ensures Outcome(a, s).Some? ==> Outcome(a + b, s) == Outcome(b, Outcome(a, s).value)
  {
    if b == [] {
      assert a + b == a;
    } else {
      var front := b[..|b| - 1];
      OutcomeConcat(a, front, s);
      assert (a + b)[..|a + b| - 1] == a + front;
    }
  }

  lemma StepIsNext(e: Effect, s: State, t: State)
    ensures Passes(e, s) ==> Step(StrictOne(e), s, Next(e, s))
    ensures Exact([e]) && Step(StrictOne(e), s, t) ==> Passes(e, s) && t == Next(e, s)
  {
    assert e in [e];
  }

  lemma {:induction false} TaggedOutcome(effects: seq<Effect>, node: nat, visit: nat, s: State, t: State)
    ensures Outcome(Tagged(effects, node, visit), s) == Some(t) ==> Run(StrictEffects(effects), s, t)
    ensures Exact(effects) && Run(StrictEffects(effects), s, t) ==> Outcome(Tagged(effects, node, visit), s) == Some(t)
    decreases |effects|
  {
    if effects == [] {
      assert Tagged(effects, node, visit) == [] && StrictEffects(effects) == [];
    } else {
      var e, rest := effects[0], effects[1..];
      var first := [Event(e, node, visit)];
      assert Tagged(effects, node, visit) == first + Tagged(rest, node, visit);
      assert StrictEffects(effects)[0] == StrictOne(e) && StrictEffects(effects)[1..] == StrictEffects(rest);
      OutcomeConcat(first, Tagged(rest, node, visit), s);
      assert first[..0] == [];
      assert Outcome(first, s) == if Passes(e, s) then Some(Next(e, s)) else None;
      StepIsNext(e, s, Next(e, s));
      TaggedOutcome(rest, node, visit, Next(e, s), t);
      if Exact(effects) && Run(StrictEffects(effects), s, t) {
        var u :| Step(StrictOne(e), s, u) && Run(StrictEffects(rest), u, t);
        assert Exact([e]) && Exact(rest);
        StepIsNext(e, s, u);
      }
    }
  }

  /** The events of an edge: the effects of its source, the guard, the effects of the edge. */
  lemma EdgeSplit(cfg: Cfg, before: seq<nat>, e: nat, s: State)
    requires WellFormed(cfg) && e < |cfg.edges|
    ensures var edge := cfg.edges[e];
            var visit := LeftCount(cfg, before, edge.source) + 1;
            var arrival := LeftCount(cfg, before + [e], edge.target) + 1;
            var first := Outcome(Tagged(cfg.nodes[edge.source], edge.source, visit), s);
            Outcome(EdgeEvents(cfg, before, e), s) ==
              if first.None? || !Eval(edge.guard, first.value) then None
              else Outcome(Tagged(edge.effects, edge.target, arrival), first.value)
  {
    var edge := cfg.edges[e];
    var visit, arrival := LeftCount(cfg, before, edge.source) + 1, LeftCount(cfg, before + [e], edge.target) + 1;
    var out := Tagged(cfg.nodes[edge.source], edge.source, visit);
    var guard := [Event(Assume(edge.guard), edge.source, visit)];
    OutcomeConcat(out + guard, Tagged(edge.effects, edge.target, arrival), s);
    OutcomeConcat(out, guard, s);
    if Outcome(out, s).Some? {
      OutcomeSnoc([], guard[0], Outcome(out, s).value);
      assert [] + guard == guard;
    }
  }

  lemma EdgeOutcome(cfg: Cfg, before: seq<nat>, e: nat, s: State, t: State)
    requires WellFormed(cfg) && e < |cfg.edges|
    ensures Outcome(EdgeEvents(cfg, before, e), s) == Some(t) ==> Cross(Strict(cfg), e, s, t)
    ensures CfgExact(cfg) && Cross(Strict(cfg), e, s, t) ==> Outcome(EdgeEvents(cfg, before, e), s) == Some(t)
  {
    var edge := cfg.edges[e];
    var visit, arrival := LeftCount(cfg, before, edge.source) + 1, LeftCount(cfg, before + [e], edge.target) + 1;
    EdgeSplit(cfg, before, e, s);
    if Outcome(EdgeEvents(cfg, before, e), s) == Some(t) {
      var m := Outcome(Tagged(cfg.nodes[edge.source], edge.source, visit), s).value;
      TaggedOutcome(cfg.nodes[edge.source], edge.source, visit, s, m);
      TaggedOutcome(edge.effects, edge.target, arrival, m, t);
      CrossVia(Strict(cfg), e, s, m, t);
    }
    if CfgExact(cfg) && Cross(Strict(cfg), e, s, t) {
      var m :| Run(StrictEffects(cfg.nodes[edge.source]), s, m) && Eval(edge.guard, m)
               && Run(StrictEffects(edge.effects), m, t);
      TaggedOutcome(cfg.nodes[edge.source], edge.source, visit, s, m);
      TaggedOutcome(edge.effects, edge.target, arrival, m, t);
    }
  }

  /** The outcome of a path's events is a strict run along the path, the only one when effects
      are exact. */
  lemma {:induction false} PathOutcome(cfg: Cfg, path: seq<nat>, s: State, t: State)
    requires WellFormed(cfg) && forall i | 0 <= i < |path| :: path[i] < |cfg.edges|
    ensures Outcome(PathEvents(cfg, path), s) == Some(t) ==> Follows(Strict(cfg), path, s, t)
    ensures CfgExact(cfg) && Follows(Strict(cfg), path, s, t) ==> Outcome(PathEvents(cfg, path), s) == Some(t)
    decreases |path|
  {
    if path != [] {
      var front, e := path[..|path| - 1], path[|path| - 1];
      assert path == front + [e];
      OutcomeConcat(PathEvents(cfg, front), EdgeEvents(cfg, front, e), s);
      if Outcome(PathEvents(cfg, path), s) == Some(t) {
        var u := Outcome(PathEvents(cfg, front), s).value;
        PathOutcome(cfg, front, s, u);
        EdgeOutcome(cfg, front, e, u, t);
        assert [e][1..] == [] && Follows(Strict(cfg), [e][1..], t, t);
        assert Follows(Strict(cfg), [e], u, t);
        FollowsConcat(Strict(cfg), front, [e], s, u, t);
      }
      if CfgExact(cfg) && Follows(Strict(cfg), path, s, t) {
        var u := FollowsLast(Strict(cfg), front, e, s, t);
        PathOutcome(cfg, front, s, u);
        EdgeOutcome(cfg, front, e, u, t);
      }
    }
  }

  // ---- Side conditions of a whole graph -------------------------------------------------------

  /** The graph and the obligation meet the walk's side conditions. */
  ghost predicate SafeCfg(cfg: Cfg, site: Site, names: set<Name>, hidden: set<Name>) {
    SafeNames(names, hidden)
    && (forall n, i | 0 <= n < |cfg.nodes| && 0 <= i < |cfg.nodes[n]| :: SafeEffect(cfg.nodes[n][i], names, hidden))
    && (forall e | 0 <= e < |cfg.edges| ::
          SafeEffect(Assume(cfg.edges[e].guard), names, hidden)
          && forall i | 0 <= i < |cfg.edges[e].effects| :: SafeEffect(cfg.edges[e].effects[i], names, hidden))
    && SafeEffect(Assume(site.obligation), names, hidden)
  }

  lemma EdgeEventsSafe(
      cfg: Cfg, site: Site, before: seq<nat>, e: nat, names: set<Name>, hidden: set<Name>, j: nat)
    requires WellFormed(cfg) && SafeCfg(cfg, site, names, hidden) && e < |cfg.edges| && j < |EdgeEvents(cfg, before, e)|
    ensures SafeEffect(EdgeEvents(cfg, before, e)[j].effect, names, hidden)
  {
    var edge := cfg.edges[e];
    var out := cfg.nodes[edge.source];
    var event := EdgeEvents(cfg, before, e)[j];
    if j < |out| {
      assert event.effect == out[j];
    } else if j == |out| {
      assert event.effect == Assume(edge.guard);
    } else {
      assert event.effect == edge.effects[j - |out| - 1];
    }
  }

  lemma {:induction false} PathEventsSafe(
      cfg: Cfg, site: Site, path: seq<nat>, names: set<Name>, hidden: set<Name>, i: nat)
    requires WellFormed(cfg) && SafeCfg(cfg, site, names, hidden) && i < |PathEvents(cfg, path)|
    ensures SafeEffect(PathEvents(cfg, path)[i].effect, names, hidden)
    decreases |path|
  {
    var front, e := path[..|path| - 1], path[|path| - 1];
    if i < |PathEvents(cfg, front)| {
      PathEventsSafe(cfg, site, front, names, hidden, i);
    } else {
      EdgeEventsSafe(cfg, site, front, e, names, hidden, i - |PathEvents(cfg, front)|);
    }
  }

  lemma {:induction false} WpNames(effects: seq<Effect>, post: Formula, names: set<Name>, hidden: set<Name>)
    requires Exact(effects) && Names(post) <= names
    requires forall i | 0 <= i < |effects| :: SafeEffect(effects[i], names, hidden)
    ensures Names(Wp(effects, post)) <= names
    decreases |effects|
  {
    if effects != [] {
      var rest := Wp(effects[1..], post);
      WpNames(effects[1..], post, names, hidden);
      assert SafeEffect(effects[0], names, hidden) && effects[0] in effects;
      match effects[0]
      case Assign(v, ValueTerm(x)) => AppliedNames(VarBy(v, x), rest);
      case Assign(v, ValueFormula(p)) => AppliedNames(BoolBy(v, p), rest);
      case MemoryStore(r, o, x) =>
        assert NamesM(Region(r)) == {Mem(r)};
        AppliedNames(RegionBy(r, Store(Region(r), o, x)), rest);
      case Assume(c) => JoinNames(true, [c, rest]);
      case Obligation(c) => JoinNames(true, [c, rest]);
      case TypeBound(_) =>
      case Call(_) =>
      case Nop =>
    }
  }

  lemma SafeVisible(effects: seq<Effect>, names: set<Name>, hidden: set<Name>)
    requires forall i | 0 <= i < |effects| :: SafeEffect(effects[i], names, hidden)
    ensures Visible(effects, hidden)
  {
  }

  /** The violation precondition at the site means what it says, and mentions program names only. */
  lemma ViolationExact(cfg: Cfg, site: Site, names: set<Name>, hidden: set<Name>, s: State)
    requires WellSited(cfg, site) && SafeCfg(cfg, site, names, hidden) && Exact(cfg.nodes[site.node])
    ensures var phi2 := Wp(cfg.nodes[site.node], Not(site.obligation));
            Names(phi2) <= names && Hidden(phi2) <= hidden && (Eval(phi2, s) <==> ViolatedAt(cfg, site, s))
  {
    var effects, post := cfg.nodes[site.node], Not(site.obligation);
    assert forall i | 0 <= i < |effects| :: SafeEffect(effects[i], names, hidden);
    SafeVisible(effects, names, hidden);
    WpNames(effects, post, names, hidden);
    WpHidden(false, effects, post, hidden);
    WpExact(effects, post, s, hidden);
    if t: State :| Run(effects, s, t) && Eval(post, t) {
      assert Run(cfg.nodes[site.node], s, t) && !Eval(site.obligation, t);
    }
    if t: State :| Run(cfg.nodes[site.node], s, t) && !Eval(site.obligation, t) {
      assert Eval(post, t);
    }
  }
}
