/** The forward MUST analysis of src/analysis/dart/mod.rs: build the path condition of each
    enumerated path, conjoin the substituted violation and ask for a model. */
module Dart {
  import opened Formulas
  import opened Semantics
  import opened Substitution
  import opened Transfer
  import opened Graphs
  import opened Runs
  import opened Oracles
  import opened Reach
  import opened PathSearch
  import opened Versions
  import opened SymbolicWalk
  import opened PathConditions
  import opened PathRuns

  // ---- What the walk maintains --------------------------------------------------------------

  ghost predicate SafeEvents(events: seq<Event>, names: set<Name>, hidden: set<Name>) {
    SafeNames(names, hidden) && forall i | 0 <= i < |events| :: SafeEffect(events[i].effect, names, hidden)
  }

  ghost predicate Related(phi1: Formula, events: seq<Event>, w: Walk, names: set<Name>, hidden: set<Name>) {
    Bounded(w, names, hidden) && Sound(phi1, events, w, names)
    && Confined(w, Mentioned(Names(phi1), events))
    && (FreshlyNamed(Names(phi1), events) ==> Complete(phi1, events, w, names))
  }

  ghost predicate Tracked(phi1: Formula, events: seq<Event>, w: Walk, names: set<Name>, hidden: set<Name>) {
    w.naming == NamingAfter(events) && (SafeEvents(events, names, hidden) ==> Related(phi1, events, w, names, hidden))
  }

  lemma SafeSnoc(events: seq<Event>, ev: Event, names: set<Name>, hidden: set<Name>)
    requires SafeEvents(events + [ev], names, hidden)
    ensures SafeEvents(events, names, hidden) && SafeEffect(ev.effect, names, hidden)
  {
    assert (events + [ev])[|events|] == ev;
    forall i | 0 <= i < |events| ensures SafeEffect(events[i].effect, names, hidden) {
      assert (events + [ev])[i] == events[i];
    }
  }

  lemma TrackCondition(
      phi1: Formula, events: seq<Event>, w: Walk, names: set<Name>, hidden: set<Name>, ev: Event, c: Formula,
      r: Formula)
    requires Tracked(phi1, events, w, names, hidden) && IsCondition(ev.effect, c)
    requires Substitutable(w.naming.version, w.memory, Hidden(c)) ==> Means(r, c, w)
    ensures Tracked(phi1, events + [ev], Conjoin(w, r), names, hidden)
  {
    GivenSnoc(events, ev);
    if SafeEvents(events + [ev], names, hidden) {
      SafeSnoc(events, ev, names, hidden);
      BoundedSubstitutable(w, names, hidden, Hidden(c));
      RelateCondition(phi1, events, w, names, hidden, ev, c, r);
    }
  }

  lemma RelateCondition(
      phi1: Formula, events: seq<Event>, w: Walk, names: set<Name>, hidden: set<Name>, ev: Event, c: Formula,
      r: Formula)
    requires Related(phi1, events, w, names, hidden) && IsCondition(ev.effect, c)
    requires Means(r, c, w) && Names(c) <= names
    ensures Related(phi1, events + [ev], Conjoin(w, r), names, hidden)
  {
    MentionedSnoc(Names(phi1), events, ev);
    ConditionSound(phi1, events, w, names, ev, c, r);
    ConditionConfined(w, Mentioned(Names(phi1), events), c, r);
    if FreshlyNamed(Names(phi1), events) {
      ConditionComplete(phi1, events, w, names, ev, c, r);
    }
  }

  lemma TrackAssign(
      phi1: Formula, events: seq<Event>, w: Walk, names: set<Name>, hidden: set<Name>, ev: Event, r: Formula)
    requires Tracked(phi1, events, w, names, hidden) && ev.effect.Assign?
    requires SafeEffect(ev.effect, names, hidden) && Substitutable(w.naming.version, w.memory, EffectHidden(ev.effect))
             ==> Equates(r, w, ev)
    ensures Tracked(phi1, events + [ev], Assigned(w, ev, r), names, hidden)
  {
    GivenSnoc(events, ev);
    if SafeEvents(events + [ev], names, hidden) {
      SafeSnoc(events, ev, names, hidden);
      BoundedSubstitutable(w, names, hidden, EffectHidden(ev.effect));
      MentionedSnoc(Names(phi1), events, ev);
      var used := Mentioned(Names(phi1), events);
      AssignBounded(w, names, hidden, ev, r);
      AssignSound(phi1, events, w, names, hidden, ev, r);
      AssignConfined(w, used, ev, r);
      if FreshlyNamed(Names(phi1), events + [ev]) {
        AssignComplete(phi1, events, w, names, hidden, used, ev, r);
      }
    }
  }

  lemma TrackStore(
      phi1: Formula, events: seq<Event>, w: Walk, names: set<Name>, hidden: set<Name>, ev: Event, o: Term, x: Term)
    requires Tracked(phi1, events, w, names, hidden) && ev.effect.MemoryStore?
    requires Substitutable(w.naming.version, w.memory, HiddenT(ev.effect.offset)) ==> MeansT(o, ev.effect.offset, w)
    requires Substitutable(w.naming.version, w.memory, HiddenT(ev.effect.stored)) ==> MeansT(x, ev.effect.stored, w)
    ensures Tracked(phi1, events + [ev], Stored(w, ev.effect.region, o, x), names, hidden)
  {
    GivenSnoc(events, ev);
    if SafeEvents(events + [ev], names, hidden) {
      SafeSnoc(events, ev, names, hidden);
      BoundedSubstitutable(w, names, hidden, HiddenT(ev.effect.offset));
      BoundedSubstitutable(w, names, hidden, HiddenT(ev.effect.stored));
      MentionedSnoc(Names(phi1), events, ev);
      StoreBounded(w, names, hidden, ev.effect, o, x);
      StoreConfined(w, Mentioned(Names(phi1), events), ev.effect, o, x);
      StoreSound(phi1, events, w, names, ev, o, x);
      if FreshlyNamed(Names(phi1), events) {
        StoreComplete(phi1, events, w, names, ev, o, x);
      }
    }
  }

  lemma StoreSound(phi1: Formula, events: seq<Event>, w: Walk, names: set<Name>, ev: Event, o: Term, x: Term)
    requires Sound(phi1, events, w, names)
    requires ev.effect.MemoryStore? && Reads(ev.effect) <= names
    requires MeansT(o, ev.effect.offset, w) && MeansT(x, ev.effect.stored, w)
    ensures Sound(phi1, events + [ev], Stored(w, ev.effect.region, o, x), names)
  {
    forall m: State | Eval(w.formula, m)
      ensures Eval(phi1, m) && Executes(events + [ev], Stored(w, ev.effect.region, o, x), names, m, m)
    {
      StoreStep(events, w, names, ev, o, x, m, m);
    }
  }

  /** The effects that the walk passes over change nothing in the outcome it follows. */
  predicate PassedOver(e: Effect) {
    e.HavocRegions? || e.Call? || e.Nop?
  }

  lemma TrackOther(phi1: Formula, events: seq<Event>, w: Walk, names: set<Name>, hidden: set<Name>, ev: Event)
    requires Tracked(phi1, events, w, names, hidden) && PassedOver(ev.effect)
    ensures Tracked(phi1, events + [ev], w, names, hidden)
  {
    GivenSnoc(events, ev);
    if SafeEvents(events + [ev], names, hidden) {
      SafeSnoc(events, ev, names, hidden);
      RelateOther(phi1, events, w, names, hidden, ev);
    }
  }

  lemma RelateOther(phi1: Formula, events: seq<Event>, w: Walk, names: set<Name>, hidden: set<Name>, ev: Event)
    requires Related(phi1, events, w, names, hidden) && PassedOver(ev.effect)
    ensures Related(phi1, events + [ev], w, names, hidden)
  {
    GivenSnoc(events, ev);
    MentionedSnoc(Names(phi1), events, ev);
    forall m: State ensures Outcome(events + [ev], m) == Outcome(events, m) {
      OutcomeSnoc(events, ev, m);
    }
    if FreshlyNamed(Names(phi1), events) {
      forall s: State | Eval(phi1, s) && Outcome(events + [ev], s).Some?
        ensures exists m: State :: Extends(events + [ev], w, names, s, m)
      {
        var m: State :| Extends(events, w, names, s, m);
        assert Extends(events + [ev], w, names, s, m);
      }
    }
  }

  // ---- The walk -----------------------------------------------------------------------------

  class PathWalker {
    ghost const phi1: Formula
    ghost const names: set<Name>
    ghost const hidden: set<Name>
    var formula: Formula
    var currentVersion: map<string, string>
    var memoryState: map<string, Memory>
    var defined: set<string>
    var nodeVisitCount: map<nat, nat>
    ghost var events: seq<Event>

    constructor (phi1: Formula, ghost names: set<Name>, ghost hidden: set<Name>)
      ensures this.phi1 == phi1 && this.names == names && this.hidden == hidden
      ensures nodeVisitCount == map[] && events == [] && Tracks()
    {
      this.phi1, this.names, this.hidden := phi1, names, hidden;
      formula, currentVersion, memoryState, defined, nodeVisitCount := phi1, map[], map[], {}, map[];
      events := [];
      new;
      WalkStarts(phi1, names, hidden);
    }

    function Now(): Walk
      reads this
    {
      Walk(formula, Naming(currentVersion, defined), memoryState)
    }

    ghost predicate Tracks()
      reads this
    {
      Tracked(phi1, events, Now(), names, hidden)
    }

    /** `version_var`: the first definition keeps its name, a later one gets a version. */
    method VersionVar(target: Var, node: nat, visit: nat) returns (v: Var)
      modifies this`currentVersion, this`defined
      ensures v == Var(NameGiven(old(Now()).naming, target.name, node, visit), target.sort)
      ensures Now().naming == Renamed(old(Now()).naming, target.name, node, visit)
    {
      var orig := target.name;
      if visit == 1 && orig !in defined {
        defined := defined + {orig};
        currentVersion := currentVersion - {orig};
        v := target;
      } else {
        var name := VersionName(orig, node, visit);
        defined := defined + {name};
        currentVersion := currentVersion[orig := name];
        v := Var(name, target.sort);
      }
    }

    /** The equation of a definition: the right-hand side is read through the old versions before
        the target gets its new one. */
    method DefinitionOf(target: Var, value: AssignValue, node: nat, visit: nat) returns (equation: Formula)
      modifies this`currentVersion, this`defined
      ensures Now().naming == Renamed(old(Now()).naming, target.name, node, visit)
      ensures SafeEffect(Assign(target, value), names, hidden)
              && Substitutable(old(currentVersion), memoryState, EffectHidden(Assign(target, value))) ==>
                Equates(equation, old(Now()), Event(Assign(target, value), node, visit))
    {
      ghost var w, ev := Now(), Event(Assign(target, value), node, visit);
      match value {
        case ValueTerm(t) =>
          var read := SubstTermWalk(t, currentVersion, memoryState);
          var v := VersionVar(target, node, visit);
          equation := Cmp(Eq, TVar(v), read);
          if SafeEffect(ev.effect, names, hidden) && MeansT(read, t, w) {
            TermEquates(w, names, hidden, ev, read);
          }
        case ValueFormula(p) =>
          var read := SubstFormulaWalk(p, currentVersion, memoryState);
          var v := VersionVar(target, node, visit);
          equation := IffOf(FVar(v), read);
          if SafeEffect(ev.effect, names, hidden) && Means(read, p, w) {
            FormulaEquates(w, names, hidden, ev, read);
          }
      }
    }

    method ApplyAssign(target: Var, value: AssignValue, node: nat, visit: nat)
      requires Tracks()
      modifies this`formula, this`currentVersion, this`defined, this`events
      ensures Tracks() && events == old(events) + [Event(Assign(target, value), node, visit)]
    {
      ghost var w, ev := Now(), Event(Assign(target, value), node, visit);
      var equation := DefinitionOf(target, value, node, visit);
      formula := AndOf(formula, equation);
      TrackAssign(phi1, events, w, names, hidden, ev, equation);
      events := events + [ev];
    }

    method ApplyCondition(effect: Effect, c: Formula, ghost node: nat, ghost visit: nat)
      requires Tracks() && IsCondition(effect, c)
      modifies this`formula, this`events
      ensures Tracks() && events == old(events) + [Event(effect, node, visit)]
    {
      var read := SubstFormulaWalk(c, currentVersion, memoryState);
      TrackCondition(phi1, events, Now(), names, hidden, Event(effect, node, visit), c, read);
      formula := AndOf(formula, read);
      events := events + [Event(effect, node, visit)];
    }

    /** `apply_path_effect`. */
    method ApplyPathEffect(effect: Effect, node: nat, visit: nat)
      requires Tracks()
      modifies this`formula, this`currentVersion, this`memoryState, this`defined, this`events
      ensures Tracks() && events == old(events) + [Event(effect, node, visit)]
    {
      match effect {
        case Assign(target, value) => ApplyAssign(target, value, node, visit);
        case Assume(c) => ApplyCondition(effect, c, node, visit);
        case Obligation(c) => ApplyCondition(effect, c, node, visit);
        case TypeBound(c) => ApplyCondition(effect, c, node, visit);
        case MemoryStore(region, offset, stored) =>
          var o := SubstTermWalk(offset, currentVersion, memoryState);
          var x := SubstTermWalk(stored, currentVersion, memoryState);
          TrackStore(phi1, events, Now(), names, hidden, Event(effect, node, visit), o, x);
          memoryState := memoryState[region := Store(ChainOf(memoryState, region), o, x)];
          events := events + [Event(effect, node, visit)];
        case _ =>
          TrackOther(phi1, events, Now(), names, hidden, Event(effect, node, visit));
          events := events + [Event(effect, node, visit)];
      }
    }

    method ApplyEffects(effects: seq<Effect>, node: nat, visit: nat)
      requires Tracks()
      modifies this`formula, this`currentVersion, this`memoryState, this`defined, this`events
      ensures Tracks() && events == old(events) + Tagged(effects, node, visit)
    {
      for i := 0 to |effects|
        invariant Tracks() && events == old(events) + Tagged(effects, node, visit)[..i]
      {
        ApplyPathEffect(effects[i], node, visit);
      }
      assert Tagged(effects, node, visit)[..|effects|] == Tagged(effects, node, visit);
    }

    function Visits(n: nat): nat
      reads this
    {
      if n in nodeVisitCount then nodeVisitCount[n] else 0
    }

    ghost predicate Counted(cfg: Cfg, path: seq<nat>)
      reads this
    {
      forall n: nat :: Visits(n) == LeftCount(cfg, path, n)
    }

    /** One edge of the path: source effects, guard, edge effects. */
    method WalkEdge(cfg: Cfg, ghost before: seq<nat>, e: nat)
      requires WellFormed(cfg) && e < |cfg.edges| && Counted(cfg, before) && Tracks()
      modifies this
      ensures Counted(cfg, before + [e]) && Tracks() && events == old(events) + EdgeEvents(cfg, before, e)
    {
      LeftCountSnoc(cfg, before, e);
      var edge := cfg.edges[e];
      nodeVisitCount := nodeVisitCount[edge.source := Visits(edge.source) + 1];
      var visit := Visits(edge.source);
      ApplyEffects(cfg.nodes[edge.source], edge.source, visit);
      ApplyCondition(Assume(edge.guard), edge.guard, edge.source, visit);
      ApplyEffects(edge.effects, edge.target, Visits(edge.target) + 1);
    }

    /** The next id of the path; one that names no edge is passed over. */
    method WalkNext(cfg: Cfg, ghost before: seq<nat>, e: nat)
      requires WellFormed(cfg) && Counted(cfg, before) && Tracks() && events == PathEvents(cfg, before)
      modifies this
      ensures Counted(cfg, before + [e]) && Tracks() && events == PathEvents(cfg, before + [e])
    {
      assert (before + [e])[..|before|] == before;
      if e < |cfg.edges| {
        WalkEdge(cfg, before, e);
      } else {
        MissingEdge(cfg, before, e);
      }
    }
  }

  lemma WalkStarts(phi1: Formula, names: set<Name>, hidden: set<Name>)
    ensures Tracked(phi1, [], Walk(phi1, Naming(map[], {}), map[]), names, hidden)
  {
    var w := Walk(phi1, Naming(map[], {}), map[]);
    forall m: State ensures SameOn(m, Seen(w, m), names) {
    }
    forall v, m: State, k, b | Scalar(v) !in Names(phi1)
      ensures Eval(phi1, Give(m, v, k, b)) <==> Eval(phi1, m)
    {
      Congruence(phi1, m, Give(m, v, k, b));
    }
    forall s: State | Eval(phi1, s) ensures exists m: State :: Extends([], w, names, s, m) {
      assert Extends([], w, names, s, s);
    }
  }

  lemma TermEquates(w: Walk, names: set<Name>, hidden: set<Name>, ev: Event, read: Term)
    requires ev.effect.Assign? && ev.effect.value.ValueTerm? && SafeEffect(ev.effect, names, hidden)
    requires MeansT(read, ev.effect.value.e, w)
    ensures Equates(Cmp(Eq, TVar(GivenVar(w.naming, ev)), read), w, ev)
  {
    var v := GivenVar(w.naming, ev);
    forall m: State
      ensures Eval(Cmp(Eq, TVar(v), read), m) <==> m.ints(v) == EvalT(ev.effect.value.e, Seen(w, m))
    {
      assert EvalT(TVar(v), m) == m.ints(v);
    }
  }

  lemma FormulaEquates(w: Walk, names: set<Name>, hidden: set<Name>, ev: Event, read: Formula)
    requires ev.effect.Assign? && ev.effect.value.ValueFormula? && SafeEffect(ev.effect, names, hidden)
    requires Means(read, ev.effect.value.p, w)
    ensures Equates(IffOf(FVar(GivenVar(w.naming, ev)), read), w, ev)
  {
    var v := GivenVar(w.naming, ev);
    forall m: State
      ensures Eval(IffOf(FVar(v), read), m) <==> (m.bools(v) <==> Eval(ev.effect.value.p, Seen(w, m)))
    {
      IffMeaning(FVar(v), read, m);
    }
  }

  // ---- Path conditions ----------------------------------------------------------------------

  /** `compute_path_condition_with_state`. A model of the path condition executes the path, and
      where every definition is freshly named every execution of the path extends to a model. */
  method ComputePathCondition(cfg: Cfg, path: seq<nat>, phi1: Formula, ghost names: set<Name>, ghost hidden: set<Name>)
    returns (formula: Formula, version: map<string, string>, memory: map<string, Memory>)
    requires WellFormed(cfg)
    ensures version == NamingAfter(PathEvents(cfg, path)).version
    ensures Tracked(
              phi1, PathEvents(cfg, path), Walk(formula, NamingAfter(PathEvents(cfg, path)), memory), names, hidden)
  {
    var walker := new PathWalker(phi1, names, hidden);
    for i := 0 to |path|
      invariant walker.Counted(cfg, path[..i]) && walker.Tracks()
      invariant walker.events == PathEvents(cfg, path[..i])
      invariant walker.phi1 == phi1 && walker.names == names && walker.hidden == hidden
    {
      assert path[..i + 1] == path[..i] + [path[i]];
      walker.WalkNext(cfg, path[..i], path[i]);
    }
    assert path[..|path|] == path;
    formula, version, memory := walker.formula, walker.currentVersion, walker.memoryState;
  }

  lemma MissingEdge(cfg: Cfg, before: seq<nat>, e: nat)
    requires WellFormed(cfg) && e >= |cfg.edges|
    ensures PathEvents(cfg, before + [e]) == PathEvents(cfg, before)
    ensures forall n: nat :: LeftCount(cfg, before + [e], n) == LeftCount(cfg, before, n)
  {
    assert (before + [e])[..|before|] == before;
  }

  // ---- Exploration --------------------------------------------------------------------------

  /** A real bug: from `s` the path runs to the site, within the type bounds, and the site's
      obligation fails there. */
  ghost predicate RunsInto(cfg: Cfg, site: Site, path: seq<nat>, s: State)
    requires WellSited(cfg, site)
  {
    exists t: State :: Follows(Strict(cfg), path, s, t) && ViolatedAt(cfg, site, t)
  }

  ghost predicate Violable(cfg: Cfg, site: Site, path: seq<nat>)
    requires WellSited(cfg, site)
  {
    exists s: State :: RunsInto(cfg, site, path, s)
  }

  function Phi2(cfg: Cfg, site: Site): Formula
    requires WellSited(cfg, site)
  {
    Wp(cfg.nodes[site.node], Not(site.obligation))
  }

  ghost predicate RealPath(cfg: Cfg, path: seq<nat>) {
    forall i | 0 <= i < |path| :: path[i] < |cfg.edges|
  }

  /** The violation precondition mentions program names only and means a violation at the site. */
  ghost predicate Phi2Exact(cfg: Cfg, site: Site, names: set<Name>)
    requires WellSited(cfg, site)
  {
    Names(Phi2(cfg, site)) <= names && forall t: State :: Eval(Phi2(cfg, site), t) <==> ViolatedAt(cfg, site, t)
  }

  /** Every model of path condition and violation is the start of a real violating run. */
  lemma CombinedSound(cfg: Cfg, site: Site, path: seq<nat>, w: Walk, r: Formula, names: set<Name>, m: State)
    requires WellSited(cfg, site) && Phi2Exact(cfg, site, names)
    requires RealPath(cfg, path) && Sound(True, PathEvents(cfg, path), w, names)
    requires Means(r, Phi2(cfg, site), w) && Eval(AndOf(w.formula, r), m)
    ensures RunsInto(cfg, site, path, m)
  {
    AndMeaning(w.formula, r, m);
    assert Executes(PathEvents(cfg, path), w, names, m, m);
    var t := Outcome(PathEvents(cfg, path), m).value;
    PathOutcome(cfg, path, m, t);
    Congruence(Phi2(cfg, site), t, Seen(w, m));
  }

  /** And every violating run along the path gives such a model. */
  lemma CombinedComplete(cfg: Cfg, site: Site, path: seq<nat>, w: Walk, r: Formula, names: set<Name>, s: State)
    returns (m: State)
    requires WellSited(cfg, site) && Phi2Exact(cfg, site, names) && CfgExact(cfg)
    requires RealPath(cfg, path) && Complete(True, PathEvents(cfg, path), w, names)
    requires Means(r, Phi2(cfg, site), w) && RunsInto(cfg, site, path, s)
    ensures Eval(AndOf(w.formula, r), m) && SameExcept(s, m, Given(PathEvents(cfg, path)))
  {
    var t: State :| Follows(Strict(cfg), path, s, t) && ViolatedAt(cfg, site, t);
    PathOutcome(cfg, path, s, t);
    m :| Extends(PathEvents(cfg, path), w, names, s, m);
    Congruence(Phi2(cfg, site), t, Seen(w, m));
    AndMeaning(w.formula, r, m);
  }

  /** What one path's query says: `formula` is feasible only if the path is violable, and exactly
      then when effects are exact and definitions freshly named. */
  ghost predicate Decides(cfg: Cfg, site: Site, path: seq<nat>, formula: Formula, names: set<Name>, hidden: set<Name>)
    requires WellSited(cfg, site)
  {
    SafeCfg(cfg, site, names, hidden) && Exact(cfg.nodes[site.node]) && RealPath(cfg, path) ==>
      (forall m: State :: Eval(formula, m) ==> RunsInto(cfg, site, path, m))
      && (CfgExact(cfg) && FreshlyNamed({}, PathEvents(cfg, path)) && Violable(cfg, site, path) ==>
            Satisfiable(formula))
  }

  /** The query of one path. */
  method PathQuery(cfg: Cfg, site: Site, path: seq<nat>, phi2: Formula, ghost names: set<Name>, ghost hidden: set<Name>)
    returns (pathCondition: Formula, violation: Formula)
    requires WellSited(cfg, site) && phi2 == Phi2(cfg, site)
    ensures Decides(cfg, site, path, AndOf(pathCondition, violation), names, hidden)
  {
    var version, memory;
    pathCondition, version, memory := ComputePathCondition(cfg, path, True, names, hidden);
    violation := SubstFormulaWalk(phi2, version, memory);
    ghost var w := Walk(pathCondition, NamingAfter(PathEvents(cfg, path)), memory);
    QueryDecides(cfg, site, path, w, violation, names, hidden);
  }

  lemma QueryRelated(cfg: Cfg, site: Site, path: seq<nat>, w: Walk, names: set<Name>, hidden: set<Name>)
    requires WellSited(cfg, site) && SafeCfg(cfg, site, names, hidden) && Exact(cfg.nodes[site.node])
    requires Tracked(True, PathEvents(cfg, path), w, names, hidden)
    ensures Related(True, PathEvents(cfg, path), w, names, hidden)
    ensures Substitutable(w.naming.version, w.memory, Hidden(Phi2(cfg, site))) && Phi2Exact(cfg, site, names)
  {
    var events := PathEvents(cfg, path);
    forall i | 0 <= i < |events| ensures SafeEffect(events[i].effect, names, hidden) {
      PathEventsSafe(cfg, site, path, names, hidden, i);
    }
    var any: State :| true;
    ViolationExact(cfg, site, names, hidden, any);
    forall t: State ensures Eval(Phi2(cfg, site), t) <==> ViolatedAt(cfg, site, t) {
      ViolationExact(cfg, site, names, hidden, t);
    }
    BoundedSubstitutable(w, names, hidden, Hidden(Phi2(cfg, site)));
  }

  lemma QueryDecides(cfg: Cfg, site: Site, path: seq<nat>, w: Walk, r: Formula, names: set<Name>, hidden: set<Name>)
    requires WellSited(cfg, site) && Tracked(True, PathEvents(cfg, path), w, names, hidden)
    requires Substitutable(w.naming.version, w.memory, Hidden(Phi2(cfg, site))) ==> Means(r, Phi2(cfg, site), w)
    ensures Decides(cfg, site, path, AndOf(w.formula, r), names, hidden)
  {
    if SafeCfg(cfg, site, names, hidden) && Exact(cfg.nodes[site.node]) && RealPath(cfg, path) {
      QueryRelated(cfg, site, path, w, names, hidden);
      forall m: State | Eval(AndOf(w.formula, r), m) ensures RunsInto(cfg, site, path, m) {
        CombinedSound(cfg, site, path, w, r, names, m);
      }
      if CfgExact(cfg) && FreshlyNamed({}, PathEvents(cfg, path)) && Violable(cfg, site, path) {
        QuerySatisfiable(cfg, site, path, w, r, names);
      }
    }
  }

  lemma QuerySatisfiable(cfg: Cfg, site: Site, path: seq<nat>, w: Walk, r: Formula, names: set<Name>)
    requires WellSited(cfg, site) && Phi2Exact(cfg, site, names) && CfgExact(cfg)
    requires RealPath(cfg, path) && Complete(True, PathEvents(cfg, path), w, names)
    requires Means(r, Phi2(cfg, site), w) && Violable(cfg, site, path)
    ensures Satisfiable(AndOf(w.formula, r))
  {
    var s: State :| RunsInto(cfg, site, path, s);
    var m := CombinedComplete(cfg, site, path, w, r, names, s);
  }

  datatype DartOutcome =
    | BugFound(path: seq<nat>, pathCondition: Formula, violation: Formula)
    | NoBug

  /** A bounded path from the entry to the site. */
  ghost predicate WithinBounds(cfg: Cfg, site: Site, bounds: Bounds, path: seq<nat>) {
    Continues(cfg, site.node, path, cfg.entry, bounds.maxDepth) && WithinIters(cfg, bounds.maxIters, path)
  }

  /** All models of the formula start a real violating run along the path. */
  ghost predicate Witnesses(cfg: Cfg, site: Site, path: seq<nat>, formula: Formula)
    requires WellSited(cfg, site)
  {
    forall m: State :: Eval(formula, m) ==> RunsInto(cfg, site, path, m)
  }

  /** No execution violates the obligation along the path, if its definitions are freshly named. */
  ghost predicate Refuted(cfg: Cfg, site: Site, path: seq<nat>)
    requires WellSited(cfg, site)
  {
    FreshlyNamed({}, PathEvents(cfg, path)) ==> !Violable(cfg, site, path)
  }

  /** An oracle that always decides, and a graph whose effects the walk follows exactly. */
  ghost predicate Exacting(cfg: Cfg, site: Site, oracle: Oracle, names: set<Name>, hidden: set<Name>) {
    Truthful(oracle) && Decisive(oracle) && SafeCfg(cfg, site, names, hidden) && CfgExact(cfg)
  }

  /** What a reported bug is worth. */
  ghost predicate RealBug(
      cfg: Cfg, site: Site, oracle: Oracle, path: seq<nat>, combined: Formula, names: set<Name>, hidden: set<Name>)
    requires WellSited(cfg, site)
  {
    (SafeCfg(cfg, site, names, hidden) && Exact(cfg.nodes[site.node]) ==> Witnesses(cfg, site, path, combined))
    && (Truthful(oracle) ==> Satisfiable(combined))
  }

  /** One iteration of the exploration: build the query of a path and ask. */
  method TryPath(
      cfg: Cfg, site: Site, oracle: Oracle, k: nat, path: seq<nat>, phi2: Formula,
      ghost names: set<Name>, ghost hidden: set<Name>)
    returns (answer: Answer, pathCondition: Formula, violation: Formula)
    requires WellSited(cfg, site) && phi2 == Phi2(cfg, site) && RealPath(cfg, path)
    ensures answer == oracle(k, AndOf(pathCondition, violation))
    ensures answer == Answered(Feasible) ==>
              RealBug(cfg, site, oracle, path, AndOf(pathCondition, violation), names, hidden)
    ensures answer != Answered(Feasible) && Exacting(cfg, site, oracle, names, hidden) ==>
              answer != Failed && Refuted(cfg, site, path)
  {
    pathCondition, violation := PathQuery(cfg, site, path, phi2, names, hidden);
    answer := oracle(k, AndOf(pathCondition, violation));
  }

  method BoundedPaths(cfg: Cfg, site: Site, bounds: Bounds) returns (paths: seq<seq<nat>>)
    requires WellSited(cfg, site)
    ensures forall i | 0 <= i < |paths| :: WithinBounds(cfg, site, bounds, paths[i])
    ensures |AllPaths(cfg, site.node, bounds.maxIters, [], cfg.entry, bounds.maxDepth)| <= bounds.maxPaths ==>
              forall path | WithinBounds(cfg, site, bounds, path) :: path in paths
  {
    paths := EnumeratePaths(cfg, cfg.entry, site.node, bounds);
    EnumerationExact(cfg, cfg.entry, site.node, bounds, paths);
    assert forall i | 0 <= i < |paths| :: paths[i] in paths;
  }

  /** The loop over the enumerated paths, which stops at the first bug or failed query. */
  method TryPaths(
      cfg: Cfg, site: Site, oracle: Oracle, paths: seq<seq<nat>>, phi2: Formula,
      ghost names: set<Name>, ghost hidden: set<Name>)
    returns (outcome: DartOutcome)
    requires WellSited(cfg, site) && phi2 == Phi2(cfg, site)
    requires forall i | 0 <= i < |paths| :: RealPath(cfg, paths[i])
    ensures outcome.BugFound? ==>
              outcome.path in paths
              && RealBug(cfg, site, oracle, outcome.path,
                         AndOf(outcome.pathCondition, outcome.violation), names, hidden)
    ensures outcome.NoBug? && Exacting(cfg, site, oracle, names, hidden) ==>
              forall i | 0 <= i < |paths| :: Refuted(cfg, site, paths[i])
  {
    ghost var exacting := Exacting(cfg, site, oracle, names, hidden);
    for i := 0 to |paths|
      invariant exacting ==> forall k | 0 <= k < i :: Refuted(cfg, site, paths[k])
    {
      var answer, pathCondition, violation := TryPath(cfg, site, oracle, i, paths[i], phi2, names, hidden);
      if answer == Failed {
        return NoBug;
      }
      if answer == Answered(Feasible) {
        return BugFound(paths[i], pathCondition, violation);
      }
    }
    outcome := NoBug;
  }

  /** `dart_explore`. BugFound names a path and a formula all of whose models run into the
      violation along it. With an oracle that always decides, exact effects and freshly named
      definitions, NoBug within the path cap means that no bounded path is violable. */
  method DartExplore(
      cfg: Cfg, site: Site, oracle: Oracle, bounds: Bounds, ghost names: set<Name>, ghost hidden: set<Name>)
    returns (outcome: DartOutcome)
    requires WellSited(cfg, site)
    ensures outcome.BugFound? ==>
              WithinBounds(cfg, site, bounds, outcome.path)
              && RealBug(cfg, site, oracle, outcome.path,
                         AndOf(outcome.pathCondition, outcome.violation), names, hidden)
    ensures outcome.NoBug? && Exacting(cfg, site, oracle, names, hidden)
            && |AllPaths(cfg, site.node, bounds.maxIters, [], cfg.entry, bounds.maxDepth)| <= bounds.maxPaths ==>
              forall path | WithinBounds(cfg, site, bounds, path) :: Refuted(cfg, site, path)
  {
    var phi2 := ComputeWp(false, cfg.nodes[site.node], Not(site.obligation));
    var paths := BoundedPaths(cfg, site, bounds);
    forall i | 0 <= i < |paths| ensures RealPath(cfg, paths[i]) {
      assert WithinBounds(cfg, site, bounds, paths[i]);
    }
    outcome := TryPaths(cfg, site, oracle, paths, phi2, names, hidden);
  }
}
