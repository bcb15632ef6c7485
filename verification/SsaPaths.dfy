/** In a graph in SSA form every path names its definitions freshly, so the path condition of
    src/analysis/dart/mod.rs is exact there: a later definition gets a version that no other
    (variable, node, visit) has. */
module SsaPaths {
  import opened Formulas
  import opened Semantics
  import opened Transfer
  import opened Graphs
  import opened Runs
  import opened PathSearch
  import opened Versions
  import opened SymbolicWalk
  import opened PathConditions
  import opened PathRuns
  import opened Dart

  // ---- SSA form -----------------------------------------------------------------------------

  predicate Assigns(e: Effect, x: string) {
    e.Assign? && e.target.name == x
  }

  /** No two of the effects assign the same name. */
  ghost predicate NoRepeats(effects: seq<Effect>) {
    forall i, j :: 0 <= i < j < |effects| && effects[i].Assign? ==> !Assigns(effects[j], effects[i].target.name)
  }

  /** Every variable is assigned at one node: by its effects, or by the effects of edges into it,
      where the source's lowering puts phi assignments. */
  ghost predicate Homed(cfg: Cfg, home: string -> nat) {
    (forall n, i | 0 <= n < |cfg.nodes| && 0 <= i < |cfg.nodes[n]| && cfg.nodes[n][i].Assign? ::
       home(cfg.nodes[n][i].target.name) == n)
    && forall e, i | 0 <= e < |cfg.edges| && 0 <= i < |cfg.edges[e].effects| && cfg.edges[e].effects[i].Assign? ::
         home(cfg.edges[e].effects[i].target.name) == cfg.edges[e].target
  }

  /** And at most once per visit of that node. */
  ghost predicate OncePerVisit(cfg: Cfg)
    requires WellFormed(cfg)
  {
    NoRepeats(cfg.nodes[cfg.entry])
    && forall e | 0 <= e < |cfg.edges| :: NoRepeats(cfg.edges[e].effects + cfg.nodes[cfg.edges[e].target])
  }

  /** What the events assign at all, they assign before they read it. */
  ghost predicate DefinedBeforeRead(events: seq<Event>) {
    forall i, j, v: Var |
      0 <= i <= j < |events| && Scalar(v) in Reads(events[i].effect) && Assigns(events[j].effect, v.name) ::
      exists k | 0 <= k < i :: Assigns(events[k].effect, v.name)
  }

  ghost predicate Ssa(cfg: Cfg, home: string -> nat)
    requires WellFormed(cfg)
  {
    Homed(cfg, home) && OncePerVisit(cfg)
    && forall path, n: nat | IsPath(cfg, {}, path, cfg.entry, n) :: DefinedBeforeRead(PathEvents(cfg, path))
  }

  // ---- Visits along a path ------------------------------------------------------------------

  predicate Clash(a: Event, b: Event) {
    a.effect.Assign? && Assigns(b.effect, a.effect.target.name) && a.node == b.node && a.visit == b.visit
  }

  /** No two events assign the same name at the same visit of a node, and visits only grow. */
  ghost predicate Orderly(events: seq<Event>) {
    forall i, j | 0 <= i < j < |events| ::
      !Clash(events[i], events[j]) && (events[i].node == events[j].node ==> events[i].visit <= events[j].visit)
  }

  /** The events before `tail` stay within the visits `left`, and those of `tail` belong to the
      next visit of `n`. */
  ghost predicate Within(cfg: Cfg, path: seq<nat>, events: seq<Event>) {
    forall i | 0 <= i < |events| :: 1 <= events[i].visit <= LeftCount(cfg, path, events[i].node)
  }

  function Arriving(cfg: Cfg, path: seq<nat>): seq<Effect> {
    if path != [] && path[|path| - 1] < |cfg.edges| then cfg.edges[path[|path| - 1]].effects else []
  }

  /** The path's events, split at its last arrival. */
  ghost predicate Split(cfg: Cfg, path: seq<nat>, n: nat, before: seq<Event>)
    requires WellFormed(cfg)
  {
    PathEvents(cfg, path) == before + Tagged(Arriving(cfg, path), n, LeftCount(cfg, path, n) + 1)
    && Within(cfg, path, before) && Orderly(PathEvents(cfg, path))
    && n < |cfg.nodes| && NoRepeats(Arriving(cfg, path) + cfg.nodes[n])
  }

  lemma OrderlyConcat(a: seq<Event>, b: seq<Event>)
    requires Orderly(a) && Orderly(b)
    requires forall i, j | 0 <= i < |a| && 0 <= j < |b| ::
               !Clash(a[i], b[j]) && (a[i].node == b[j].node ==> a[i].visit <= b[j].visit)
    ensures Orderly(a + b)
  {
    forall i, j | 0 <= i < j < |a + b|
      ensures !Clash((a + b)[i], (a + b)[j])
      ensures (a + b)[i].node == (a + b)[j].node ==> (a + b)[i].visit <= (a + b)[j].visit
    {
      assert (a + b)[i] == if i < |a| then a[i] else b[i - |a|];
      assert (a + b)[j] == if j < |a| then a[j] else b[j - |a|];
    }
  }

  lemma OrderlyParts(a: seq<Event>, b: seq<Event>)
    requires Orderly(a + b)
    ensures Orderly(a)
  {
    forall i, j | 0 <= i < j < |a|
      ensures !Clash(a[i], a[j]) && (a[i].node == a[j].node ==> a[i].visit <= a[j].visit)
    {
      assert a[i] == (a + b)[i] && a[j] == (a + b)[j];
    }
  }

  lemma TaggedOrderly(effects: seq<Effect>, node: nat, visit: nat)
    requires NoRepeats(effects)
    ensures Orderly(Tagged(effects, node, visit))
  {
  }

  lemma NoRepeatsPart(a: seq<Effect>, b: seq<Effect>)
    requires NoRepeats(a + b)
    ensures NoRepeats(a)
  {
    forall i, j | 0 <= i < j < |a| && a[i].Assign? ensures !Assigns(a[j], a[i].target.name) {
      assert a[i] == (a + b)[i] && a[j] == (a + b)[j];
    }
  }

  lemma NoRepeatsGuard(effects: seq<Effect>, guard: Formula)
    requires NoRepeats(effects)
    ensures NoRepeats(effects + [Assume(guard)])
  {
  }

  /** Events of a visit that is yet to come keep the list orderly. */
  lemma OrderlyThen(before: seq<Event>, effects: seq<Effect>, node: nat, visit: nat)
    requires Orderly(before) && NoRepeats(effects)
    requires forall i | 0 <= i < |before| && before[i].node == node :: before[i].visit < visit
    ensures Orderly(before + Tagged(effects, node, visit))
  {
    TaggedOrderly(effects, node, visit);
    OrderlyConcat(before, Tagged(effects, node, visit));
  }

  /** Crossing the edge: its effects belong to a visit of the target that is yet to come. */
  lemma Arrived(cfg: Cfg, front: seq<nat>, e: nat, before: seq<Event>)
    requires WellFormed(cfg) && e < |cfg.edges| && OncePerVisit(cfg) && Orderly(before)
    requires forall i | 0 <= i < |before| ::
               1 <= before[i].visit
                 <= LeftCount(cfg, front, before[i].node) + (if before[i].node == cfg.edges[e].source then 1 else 0)
    requires PathEvents(cfg, front + [e])
          == before
             + Tagged(cfg.edges[e].effects, cfg.edges[e].target, LeftCount(cfg, front + [e], cfg.edges[e].target) + 1)
    ensures Split(cfg, front + [e], cfg.edges[e].target, before)
  {
    var edge, path := cfg.edges[e], front + [e];
    LeftCountSnoc(cfg, front, e);
    NoRepeatsPart(edge.effects, cfg.nodes[edge.target]);
    forall i | 0 <= i < |before| ensures 1 <= before[i].visit <= LeftCount(cfg, path, before[i].node) {
      assert LeftCount(cfg, path, before[i].node)
          == LeftCount(cfg, front, before[i].node) + (if before[i].node == edge.source then 1 else 0);
    }
    OrderlyThen(before, edge.effects, edge.target, LeftCount(cfg, path, edge.target) + 1);
  }

  /** A path from the entry numbers its visits consistently. */
  lemma {:induction false} VisitSplit(cfg: Cfg, path: seq<nat>, n: nat) returns (before: seq<Event>)
    requires WellFormed(cfg) && OncePerVisit(cfg) && IsPath(cfg, {}, path, cfg.entry, n)
    ensures Split(cfg, path, n, before)
    decreases |path|
  {
    if path == [] {
      before := [];
      assert Arriving(cfg, path) + cfg.nodes[n] == cfg.nodes[n];
      assert Tagged([], n, LeftCount(cfg, path, n) + 1) == [];
    } else {
      var front, e := path[..|path| - 1], path[|path| - 1];
      assert path == front + [e];
      PathLast(cfg, front, e, cfg.entry, n);
      var earlier := VisitSplit(cfg, front, cfg.edges[e].source);
      before := Departed(cfg, front, cfg.edges[e].source, earlier, cfg.edges[e].guard);
      var edge, visit := cfg.edges[e], LeftCount(cfg, front, cfg.edges[e].source) + 1;
      EdgeSplits(cfg, front, e,
                 Tagged(cfg.nodes[edge.source], edge.source, visit) + [Event(Assume(edge.guard), edge.source, visit)],
                 Tagged(edge.effects, n, LeftCount(cfg, path, n) + 1));
      Arrived(cfg, front, e, before);
    }
  }

  lemma EdgeSplits(cfg: Cfg, front: seq<nat>, e: nat, depart: seq<Event>, arrive: seq<Event>)
    requires WellFormed(cfg) && e < |cfg.edges| && EdgeEvents(cfg, front, e) == depart + arrive
    ensures PathEvents(cfg, front + [e]) == PathEvents(cfg, front) + depart + arrive
  {
    assert (front + [e])[..|front|] == front;
    assert PathEvents(cfg, front + [e]) == PathEvents(cfg, front) + EdgeEvents(cfg, front, e);
    Regroup(PathEvents(cfg, front), depart, arrive);
  }

  lemma Regroup(a: seq<Event>, b: seq<Event>, c: seq<Event>)
    ensures a + (b + c) == a + b + c
  {
  }

  lemma PathLast(cfg: Cfg, front: seq<nat>, e: nat, m: nat, n: nat)
    requires IsPath(cfg, {}, front + [e], m, n)
    ensures e < |cfg.edges| && IsPath(cfg, {}, front, m, cfg.edges[e].source) && cfg.edges[e].target == n
    decreases |front|
  {
    if front == [] {
      assert (front + [e])[1..] == [];
    } else {
      assert (front + [e])[1..] == front[1..] + [e];
      PathLast(cfg, front[1..], e, cfg.edges[front[0]].target, n);
    }
  }

  lemma DepartedEvents(
      earlier: seq<Event>, arriving: seq<Effect>, node: seq<Effect>, guard: Formula, n: nat, visit: nat)
    ensures earlier + Tagged(arriving, n, visit) + (Tagged(node, n, visit) + [Event(Assume(guard), n, visit)])
         == earlier + Tagged(arriving + node + [Assume(guard)], n, visit)
  {
  }

  /** Executing the node where the path has arrived belongs to the visit of the arrival. */
  lemma Departed(cfg: Cfg, path: seq<nat>, n: nat, earlier: seq<Event>, guard: Formula) returns (before: seq<Event>)
    requires WellFormed(cfg) && Split(cfg, path, n, earlier)
    ensures var visit := LeftCount(cfg, path, n) + 1;
            before == PathEvents(cfg, path) + (Tagged(cfg.nodes[n], n, visit) + [Event(Assume(guard), n, visit)])
    ensures Orderly(before)
    ensures forall i | 0 <= i < |before| ::
              1 <= before[i].visit <= LeftCount(cfg, path, before[i].node) + (if before[i].node == n then 1 else 0)
  {
    var visit := LeftCount(cfg, path, n) + 1;
    var here := Arriving(cfg, path) + cfg.nodes[n] + [Assume(guard)];
    NoRepeatsGuard(Arriving(cfg, path) + cfg.nodes[n], guard);
    before := PathEvents(cfg, path) + (Tagged(cfg.nodes[n], n, visit) + [Event(Assume(guard), n, visit)]);
    DepartedEvents(earlier, Arriving(cfg, path), cfg.nodes[n], guard, n, visit);
    OrderlyParts(earlier, Tagged(Arriving(cfg, path), n, visit));
    OrderlyThen(earlier, here, n, visit);
    forall i | 0 <= i < |before|
      ensures 1 <= before[i].visit <= LeftCount(cfg, path, before[i].node) + (if before[i].node == n then 1 else 0)
    {
      assert before[i] == if i < |earlier| then earlier[i] else Tagged(here, n, visit)[i - |earlier|];
    }
  }

  // ---- Fresh names --------------------------------------------------------------------------

  ghost predicate AtHome(events: seq<Event>, home: string -> nat) {
    forall i | 0 <= i < |events| && events[i].effect.Assign? :: events[i].node == home(events[i].effect.target.name)
  }

  lemma {:induction false} PathAtHome(cfg: Cfg, path: seq<nat>, home: string -> nat, i: nat)
    requires WellFormed(cfg) && Homed(cfg, home) && i < |PathEvents(cfg, path)|
    requires PathEvents(cfg, path)[i].effect.Assign?
    ensures PathEvents(cfg, path)[i].node == home(PathEvents(cfg, path)[i].effect.target.name)
    decreases |path|
  {
    var front, e := path[..|path| - 1], path[|path| - 1];
    if i < |PathEvents(cfg, front)| {
      PathAtHome(cfg, front, home, i);
    } else {
      var edge, j := cfg.edges[e], i - |PathEvents(cfg, front)|;
      var out := cfg.nodes[edge.source];
      assert PathEvents(cfg, path)[i] == EdgeEvents(cfg, front, e)[j];
      if j < |out| {
        assert EdgeEvents(cfg, front, e)[j].effect == out[j];
      } else if j > |out| {
        assert EdgeEvents(cfg, front, e)[j].effect == edge.effects[j - |out| - 1];
      }
    }
  }

  /** Where a mentioned name comes from. */
  lemma {:induction false} MentionedWhere(events: seq<Event>, q: Name) returns (i: nat)
    requires q in Mentioned({}, events)
    ensures i < |events|
    ensures q in Reads(events[i].effect) || q in GivenNames(NamingAfter(events[..i]), events[i])
  {
    var front := events[..|events| - 1];
    i := |events| - 1;
    if q in Mentioned({}, front) {
      i := MentionedWhere(front, q);
      assert front[..i] == events[..i];
    }
  }

  /** Two definitions of one variable are at one node, so they are at different visits. */
  lemma LaterVisit(events: seq<Event>, home: string -> nat, x: string, i: nat, j: nat)
    requires Orderly(events) && AtHome(events, home) && i < j < |events|
    requires Assigns(events[i].effect, x) && Assigns(events[j].effect, x)
    ensures events[i].node == events[j].node && events[i].visit < events[j].visit
  {
    assert !Clash(events[i], events[j]);
  }

  /** A definition on an orderly list of events gets a name not mentioned before it. */
  lemma DefinitionFresh(
      events: seq<Event>, home: string -> nat, names: set<Name>, hidden: set<Name>, j: nat)
    requires Orderly(events) && AtHome(events, home) && DefinedBeforeRead(events) && SafeEvents(events, names, hidden)
    requires forall i | 0 <= i < |events| :: events[i].visit >= 1
    requires j < |events| && events[j].effect.Assign?
    ensures Scalar(GivenVar(NamingAfter(events[..j]), events[j]))
              !in Mentioned({}, events[..j]) + Reads(events[j].effect)
  {
    var given, x := GivenVar(NamingAfter(events[..j]), events[j]), events[j].effect.target;
    assert SafeEffect(events[j].effect, names, hidden);
    if Scalar(given) in Mentioned({}, events[..j]) {
      var i := MentionedWhere(events[..j], Scalar(given));
      assert events[..j][i] == events[i] && events[..j][..i] == events[..i];
      if Scalar(given) in Reads(events[i].effect) {
        ReadNotGiven(events, home, names, hidden, i, j);
      } else {
        GivenOnce(events, home, names, hidden, i, j);
      }
    } else if Scalar(given) in Reads(events[j].effect) {
      ReadNotGiven(events, home, names, hidden, j, j);
    }
  }

  lemma ReadNotGiven(
      events: seq<Event>, home: string -> nat, names: set<Name>, hidden: set<Name>, i: nat, j: nat)
    requires Orderly(events) && AtHome(events, home) && DefinedBeforeRead(events) && SafeEvents(events, names, hidden)
    requires forall k | 0 <= k < |events| :: events[k].visit >= 1
    requires i <= j < |events| && events[j].effect.Assign?
    ensures Scalar(GivenVar(NamingAfter(events[..j]), events[j])) !in Reads(events[i].effect)
  {
    var naming, x := NamingAfter(events[..j]), events[j].effect.target;
    var given := GivenVar(naming, events[j]);
    assert SafeEffect(events[i].effect, names, hidden);
    if Scalar(given) in Reads(events[i].effect) {
      assert Scalar(given) in names;
      if KeepsName(naming, x.name, events[j].visit) {
        assert Assigns(events[j].effect, given.name);
        var k :| 0 <= k < i && Assigns(events[k].effect, given.name);
        LaterVisit(events, home, x.name, k, j);
      }
    }
  }

  lemma GivenOnce(
      events: seq<Event>, home: string -> nat, names: set<Name>, hidden: set<Name>, i: nat, j: nat)
    requires Orderly(events) && AtHome(events, home) && SafeEvents(events, names, hidden)
    requires forall k | 0 <= k < |events| :: events[k].visit >= 1
    requires i < j < |events| && events[j].effect.Assign?
    ensures Scalar(GivenVar(NamingAfter(events[..j]), events[j])) !in GivenNames(NamingAfter(events[..i]), events[i])
  {
    var before, naming := NamingAfter(events[..i]), NamingAfter(events[..j]);
    var given := GivenVar(naming, events[j]);
    if Scalar(given) in GivenNames(before, events[i]) {
      var y, x := events[i].effect.target, events[j].effect.target;
      assert given.name == NameGiven(before, y.name, events[i].node, events[i].visit);
      assert SafeEffect(events[i].effect, names, hidden) && SafeEffect(events[j].effect, names, hidden);
      assert Scalar(x) in names && Scalar(y) in names;
      if KeepsName(naming, x.name, events[j].visit) {
        if KeepsName(before, y.name, events[i].visit) {
          LaterVisit(events, home, x.name, i, j);
        }
      } else if !KeepsName(before, y.name, events[i].visit) {
        VersionNameInjective(y.name, events[i].node, events[i].visit, x.name, events[j].node, events[j].visit);
        LaterVisit(events, home, x.name, i, j);
      }
    }
  }

  lemma {:induction false} PrefixFreshlyNamed(
      events: seq<Event>, home: string -> nat, names: set<Name>, hidden: set<Name>, k: nat)
    requires Orderly(events) && AtHome(events, home) && DefinedBeforeRead(events) && SafeEvents(events, names, hidden)
    requires forall i | 0 <= i < |events| :: events[i].visit >= 1
    requires k <= |events|
    ensures FreshlyNamed({}, events[..k])
  {
    if k > 0 {
      PrefixFreshlyNamed(events, home, names, hidden, k - 1);
      assert events[..k][..k - 1] == events[..k - 1] && events[..k][k - 1] == events[k - 1];
      if events[k - 1].effect.Assign? {
        DefinitionFresh(events, home, names, hidden, k - 1);
      }
    }
  }

  /** In SSA form every path from the entry is freshly named. */
  lemma PathFreshlyNamed(
      cfg: Cfg, site: Site, home: string -> nat, path: seq<nat>, n: nat, names: set<Name>, hidden: set<Name>)
    requires WellFormed(cfg) && Ssa(cfg, home) && SafeCfg(cfg, site, names, hidden)
    requires IsPath(cfg, {}, path, cfg.entry, n)
    ensures FreshlyNamed({}, PathEvents(cfg, path))
  {
    var events := PathEvents(cfg, path);
    var before := VisitSplit(cfg, path, n);
    forall i | 0 <= i < |events| ensures events[i].visit >= 1 && SafeEffect(events[i].effect, names, hidden) {
      PathEventsSafe(cfg, site, path, names, hidden, i);
    }
    forall i | 0 <= i < |events| && events[i].effect.Assign?
      ensures events[i].node == home(events[i].effect.target.name)
    {
      PathAtHome(cfg, path, home, i);
    }
    PrefixFreshlyNamed(events, home, names, hidden, |events|);
    assert events[..|events|] == events;
  }

  /** On graphs in SSA form the exploration is exact: with a decisive oracle and within the path
      cap it reports no bug only if no bounded path has a violating execution. */
  lemma SsaExploration(
      cfg: Cfg, site: Site, home: string -> nat, bounds: Bounds, path: seq<nat>, names: set<Name>, hidden: set<Name>)
    requires WellSited(cfg, site) && Ssa(cfg, home) && SafeCfg(cfg, site, names, hidden)
    requires WithinBounds(cfg, site, bounds, path)
    ensures Refuted(cfg, site, path) <==> !Violable(cfg, site, path)
  {
    PathFreshlyNamed(cfg, site, home, path, site.node, names, hidden);
  }

  const X := Var("x", IntSort)

  const READ_THEN_KEPT :=
    [Event(Assume(Cmp(Eq, TVar(X), Int(0))), 0, 1), Event(Assign(X, ValueTerm(Int(1))), 0, 1)]

  /** Without fresh names the path condition loses executions: `assume x == 0; x := 1` keeps the
      name `x` for the definition although `x` was read, so no model is left of a path that runs
      from every state with `x` zero. */
  lemma ReadThenKept(w: Walk, names: set<Name>, s: State)
    requires Sound(True, READ_THEN_KEPT, w, names) && w.naming == NamingAfter(READ_THEN_KEPT)
    requires Scalar(X) in names && s.ints(X) == 0
    ensures !FreshlyNamed({}, READ_THEN_KEPT) && Outcome(READ_THEN_KEPT, s).Some? && !Satisfiable(w.formula)
  {
    var first, second := READ_THEN_KEPT[0], READ_THEN_KEPT[1];
    assert READ_THEN_KEPT == [] + [first] + [second];
    GivenSnoc([], first);
    GivenSnoc([] + [first], second);
    MentionedSnoc({}, [], first);
    MentionedSnoc({}, [] + [first], second);
    assert Scalar(X) in NamesT(TVar(X)) && Scalar(X) in Reads(first.effect);
    forall m: State
      ensures Outcome(READ_THEN_KEPT, m) == if m.ints(X) == 0 then Some(m.SetInt(X, 1)) else None
    {
      OutcomeSnoc([], first, m);
      OutcomeSnoc([] + [first], second, m);
      assert EvalT(TVar(X), m) == m.ints(X) && EvalT(Int(0), m) == 0 && EvalT(Int(1), m) == 1;
    }
    assert forall m: State :: Eval(w.formula, m) ==> Executes(READ_THEN_KEPT, w, names, m, m);
  }
}
