/** Node summaries of src/analysis/backward/node_summary.rs and what the rule engine keeps true of them:
    reach covers arrivals, state covers and describes violations, blocked edges are dead. */
module Coverage {
  import opened Formulas
  import opened Semantics
  import opened Substitution
  import opened Transfer
  import opened Graphs
  import opened Runs

  datatype NodeSummary = NodeSummary(reach: Formula, state: Formula)
  {
    function Combined(): Formula {
      if reach == False || state == False then False else AndOf(reach, state)
    }

    function JoinReach(incoming: Formula): NodeSummary {
      this.(reach := OrOf(reach, incoming))
    }

    function JoinState(incoming: Formula): NodeSummary {
      this.(state := OrOf(state, incoming))
    }
  }

  type Summaries = seq<NodeSummary>

  lemma CombinedMeaning(n: NodeSummary, s: State)
    ensures Eval(n.Combined(), s) <==> Eval(n.reach, s) && Eval(n.state, s)
  {
    AndMeaning(n.reach, n.state, s);
  }

  // ---- Guards that stay true ----------------------------------------------------------------

  function Writes(effects: seq<Effect>): set<Name>
    decreases |effects|
  {
    if effects == [] then {}
    else
      Writes(effects[1..]) +
      match effects[0]
      case Assign(v, _) => {Scalar(v)}
      case MemoryStore(r, _, _) => {Mem(r)}
      case HavocRegions(rs) => Regions(rs)
      case _ => {}
  }

  lemma {:induction false} RunFrame(effects: seq<Effect>, s: State, t: State)
    requires Modelled(effects) && Run(effects, s, t)
    ensures SameExcept(s, t, Writes(effects))
    decreases |effects|
  {
    if effects != [] {
      var e := effects[0];
      assert e in effects;
      var u :| Step(e, s, u) && Run(effects[1..], u, t);
      RunFrame(effects[1..], u, t);
      forall n | n !in Writes(effects) ensures SameAt(s, t, n) {
        assert SameAt(u, t, n);
        assert SameAt(s, u, n);
      }
    }
  }

  /** No name in a guard is written after the guard, on any path of kept edges: on the edge
      itself or from its target on. */
  ghost predicate GuardsStable(cfg: Cfg, excluded: set<nat>)
    requires WellFormed(cfg)
  {
    forall e: nat, f: nat | e < |cfg.edges| && f < |cfg.edges| && e !in excluded && f !in excluded ::
      Names(cfg.edges[e].guard) !! Writes(cfg.edges[e].effects)
      && (Connected(cfg, excluded, cfg.edges[e].target, cfg.edges[f].source) ==>
            Names(cfg.edges[e].guard) !! Writes(cfg.nodes[cfg.edges[f].source]) + Writes(cfg.edges[f].effects))
  }

  ghost predicate GuardsHold(cfg: Cfg, path: seq<nat>, s: State) {
    forall e | e in path :: e < |cfg.edges| && Eval(cfg.edges[e].guard, s)
  }

  /** Where a run arrives, the guards of all its edges still hold. */
  lemma {:induction false} GuardsStillHold(
      cfg: Cfg, excluded: set<nat>, path: seq<nat>, n: nat, m: nat, s: State, t: State)
    requires WellFormed(cfg) && CfgModelled(cfg) && GuardsStable(cfg, excluded)
    requires IsPath(cfg, excluded, path, n, m) && Follows(cfg, path, s, t)
    ensures GuardsHold(cfg, path, t)
    decreases |path|
  {
    if path != [] {
      var front, e := path[..|path| - 1], path[|path| - 1];
      assert path == front + [e];
      var k := PathSplit(cfg, excluded, path, |path| - 1, n, m);
      var u := FollowsLast(cfg, front, e, s, t);
      GuardsStillHold(cfg, excluded, front, n, k, s, u);
      var edge := cfg.edges[e];
      var v :| Run(cfg.nodes[edge.source], u, v) && Eval(edge.guard, v) && Run(edge.effects, v, t);
      RunFrame(edge.effects, v, t);
      Congruence(edge.guard, v, t);
      RunFrame(cfg.nodes[edge.source], u, v);
      forall d | d in front ensures d < |cfg.edges| && Eval(cfg.edges[d].guard, t) {
        var i :| 0 <= i < |front| && front[i] == d;
        TailConnected(cfg, excluded, front, i, n, k);
        Congruence(cfg.edges[d].guard, u, v);
        Congruence(cfg.edges[d].guard, v, t);
      }
    }
  }

  lemma TailConnected(cfg: Cfg, excluded: set<nat>, path: seq<nat>, i: nat, n: nat, m: nat)
    requires IsPath(cfg, excluded, path, n, m) && i < |path|
    ensures path[i] < |cfg.edges| && path[i] !in excluded
    ensures Connected(cfg, excluded, cfg.edges[path[i]].target, m)
  {
    var k := PathSplit(cfg, excluded, path, i, n, m);
    assert path[i..][1..] == path[i + 1..];
  }

  // ---- What the summaries mean --------------------------------------------------------------

  /** The fixed data of one engine run: the excluded edges, the site and its violation seed. */
  datatype Setting = Setting(cfg: Cfg, excluded: set<nat>, site: Site)

  ghost predicate ValidSetting(g: Setting, hidden: set<Name>) {
    WellSited(g.cfg, g.site) && CfgModelled(g.cfg) && CfgVisible(g.cfg, hidden)
    && Hidden(g.site.obligation) <= hidden
    && g.excluded <= Below(|g.cfg.edges|)
  }

  ghost predicate Sized(g: Setting, sums: Summaries) {
    |sums| == |g.cfg.nodes|
  }

  ghost predicate StatesVisible(sums: Summaries, hidden: set<Name>) {
    forall n | 0 <= n < |sums| :: Hidden(sums[n].state) <= hidden
  }

  /** Every state formula describes real violations. */
  ghost predicate Witnessed(g: Setting, sums: Summaries)
    requires WellSited(g.cfg, g.site) && Sized(g, sums)
  {
    CfgExact(g.cfg) ==>
      forall n: nat, s: State | n < |sums| && Eval(sums[n].state, s) ::
        Violating(g.cfg, g.excluded, g.site, n, s)
  }

  /** Reach covers the arrivals over kept edges. */
  ghost predicate ReachCovers(g: Setting, sums: Summaries)
    requires WellSited(g.cfg, g.site) && Sized(g, sums)
  {
    forall n: nat, s: State | n < |sums| && Arrives(g.cfg, g.excluded, n, s) :: Eval(sums[n].reach, s)
  }

  /** No arrival crosses `e` into a violation without being in the state of its source. */
  ghost predicate EdgeCovered(g: Setting, sums: Summaries, e: nat)
    requires WellSited(g.cfg, g.site) && Sized(g, sums) && e < |g.cfg.edges|
  {
    forall s: State, t: State |
      Arrives(g.cfg, g.excluded, g.cfg.edges[e].source, s) && Cross(g.cfg, e, s, t)
      && Violating(g.cfg, g.excluded, g.site, g.cfg.edges[e].target, t) ::
      Eval(sums[g.cfg.edges[e].source].state, s)
  }

  ghost predicate SiteCovered(g: Setting, sums: Summaries)
    requires WellSited(g.cfg, g.site) && Sized(g, sums)
  {
    forall s: State | Arrives(g.cfg, g.excluded, g.site.node, s) && ViolatedAt(g.cfg, g.site, s) ::
      Eval(sums[g.site.node].state, s)
  }

  ghost predicate NodeCovered(g: Setting, sums: Summaries, n: nat)
    requires WellSited(g.cfg, g.site) && Sized(g, sums) && n < |g.cfg.nodes|
  {
    forall s: State | Arrives(g.cfg, g.excluded, n, s) && Violating(g.cfg, g.excluded, g.site, n, s) ::
      Eval(sums[n].state, s)
  }

  /** No arrival crosses a blocked edge into a violation. */
  ghost predicate BlockedDead(g: Setting, blocked: set<nat>)
    requires WellSited(g.cfg, g.site)
  {
    forall e: nat, s: State, t: State |
      e in blocked && e !in g.excluded && e < |g.cfg.edges|
      && Arrives(g.cfg, g.excluded, g.cfg.edges[e].source, s) && Cross(g.cfg, e, s, t) ::
      !Violating(g.cfg, g.excluded, g.site, g.cfg.edges[e].target, t)
  }

  lemma NodeFromEdges(g: Setting, sums: Summaries, n: nat)
    requires WellSited(g.cfg, g.site) && Sized(g, sums) && n < |g.cfg.nodes|
    requires SiteCovered(g, sums)
    requires forall e: nat | e < |g.cfg.edges| && e !in g.excluded && g.cfg.edges[e].source == n ::
               EdgeCovered(g, sums, e)
    ensures NodeCovered(g, sums, n)
  {
    forall s: State | Arrives(g.cfg, g.excluded, n, s) && Violating(g.cfg, g.excluded, g.site, n, s)
      ensures Eval(sums[n].state, s)
    {
      var path, t :| IsPath(g.cfg, g.excluded, path, n, g.site.node) && Follows(g.cfg, path, s, t)
                     && ViolatedAt(g.cfg, g.site, t);
      if path != [] {
        var u :| Cross(g.cfg, path[0], s, u) && Follows(g.cfg, path[1..], u, t);
        assert Violating(g.cfg, g.excluded, g.site, g.cfg.edges[path[0]].target, u);
        assert EdgeCovered(g, sums, path[0]);
      }
    }
  }

  /** The summaries after `notmay_pre` on an edge that is not blocked. */
  function Propagated(cfg: Cfg, sums: Summaries, e: nat): Summaries
    requires WellFormed(cfg) && |sums| == |cfg.nodes| && e < |cfg.edges|
  {
    var n := cfg.edges[e].source;
    sums[n := sums[n].JoinState(EdgePre(cfg, e, true, false, sums[cfg.edges[e].target].state))]
  }

  lemma PropagatedGrows(g: Setting, sums: Summaries, e: nat, n: nat, s: State)
    requires WellSited(g.cfg, g.site) && Sized(g, sums) && e < |g.cfg.edges| && n < |sums|
    ensures Eval(sums[n].state, s) ==> Eval(Propagated(g.cfg, sums, e)[n].state, s)
    ensures Propagated(g.cfg, sums, e)[n].reach == sums[n].reach
  {
    var m := g.cfg.edges[e].source;
    OrMeaning(sums[m].state, EdgePre(g.cfg, e, true, false, sums[g.cfg.edges[e].target].state), s);
  }

  lemma PropagatedCovers(g: Setting, sums: Summaries, e: nat, hidden: set<Name>)
    requires ValidSetting(g, hidden) && Sized(g, sums) && StatesVisible(sums, hidden)
    requires e < |g.cfg.edges| && e !in g.excluded && NodeCovered(g, sums, g.cfg.edges[e].target)
    ensures EdgeCovered(g, Propagated(g.cfg, sums, e), e)
  {
    var n, m := g.cfg.edges[e].source, g.cfg.edges[e].target;
    forall s: State, t: State |
      Arrives(g.cfg, g.excluded, n, s) && Cross(g.cfg, e, s, t) && Violating(g.cfg, g.excluded, g.site, m, t)
      ensures Eval(Propagated(g.cfg, sums, e)[n].state, s)
    {
      ArrivesNext(g.cfg, g.excluded, e, s, t);
      EdgePreOver(g.cfg, e, true, sums[m].state, s, t, hidden);
      OrMeaning(sums[n].state, EdgePre(g.cfg, e, true, false, sums[m].state), s);
    }
  }

  lemma PropagatedWitnessed(g: Setting, sums: Summaries, e: nat, hidden: set<Name>)
    requires ValidSetting(g, hidden) && Sized(g, sums) && StatesVisible(sums, hidden)
    requires e < |g.cfg.edges| && e !in g.excluded && Witnessed(g, sums)
    ensures Witnessed(g, Propagated(g.cfg, sums, e))
  {
    var n, m := g.cfg.edges[e].source, g.cfg.edges[e].target;
    var pre := EdgePre(g.cfg, e, true, false, sums[m].state);
    if CfgExact(g.cfg) {
      forall s: State | Eval(Propagated(g.cfg, sums, e)[n].state, s)
        ensures Violating(g.cfg, g.excluded, g.site, n, s)
      {
        OrMeaning(sums[n].state, pre, s);
        if Eval(pre, s) {
          EdgePreExact(g.cfg, e, sums[m].state, s, hidden);
          var u :| Cross(g.cfg, e, s, u) && Eval(sums[m].state, u);
          assert Violating(g.cfg, g.excluded, g.site, m, u);
          ViolatingBefore(g, e, s, u);
        }
      }
    }
  }

  lemma ViolatingBefore(g: Setting, e: nat, s: State, u: State)
    requires WellSited(g.cfg, g.site) && e < |g.cfg.edges| && e !in g.excluded && Cross(g.cfg, e, s, u)
    requires Violating(g.cfg, g.excluded, g.site, g.cfg.edges[e].target, u)
    ensures Violating(g.cfg, g.excluded, g.site, g.cfg.edges[e].source, s)
  {
    var path, t :| IsPath(g.cfg, g.excluded, path, g.cfg.edges[e].target, g.site.node)
                   && Follows(g.cfg, path, u, t) && ViolatedAt(g.cfg, g.site, t);
    assert ([e] + path)[1..] == path;
    assert IsPath(g.cfg, g.excluded, [e] + path, g.cfg.edges[e].source, g.site.node);
    assert Follows(g.cfg, [e] + path, s, t);
  }

  lemma PropagatedVisible(g: Setting, sums: Summaries, e: nat, hidden: set<Name>)
    requires ValidSetting(g, hidden) && Sized(g, sums) && StatesVisible(sums, hidden) && e < |g.cfg.edges|
    ensures StatesVisible(Propagated(g.cfg, sums, e), hidden)
  {
    var n := g.cfg.edges[e].source;
    var pre := EdgePre(g.cfg, e, true, false, sums[g.cfg.edges[e].target].state);
    EdgePreHidden(g.cfg, e, true, false, sums[g.cfg.edges[e].target].state, hidden);
    JoinHidden(false, [sums[n].state, pre], hidden);
  }

  /** Where reach and state exclude each other, no arrival is in the state, so dropping the state
      loses none. */
  lemma PrunedCovers(g: Setting, sums: Summaries, n: nat)
    requires WellSited(g.cfg, g.site) && Sized(g, sums) && n < |sums|
    requires ReachCovers(g, sums) && !Satisfiable(sums[n].Combined())
    ensures forall s: State | Arrives(g.cfg, g.excluded, n, s) :: !Eval(sums[n].state, s)
  {
    forall s: State | Arrives(g.cfg, g.excluded, n, s) ensures !Eval(sums[n].state, s) {
      CombinedMeaning(sums[n], s);
    }
  }

  // ---- Forward reach ------------------------------------------------------------------------

  /** The summaries after `forward_may_post` on an edge that is not blocked. */
  function Forwarded(cfg: Cfg, sums: Summaries, e: nat): Summaries
    requires WellFormed(cfg) && |sums| == |cfg.nodes| && e < |cfg.edges|
  {
    var edge := cfg.edges[e];
    sums[edge.target := sums[edge.target].JoinReach(AndOf(sums[edge.source].reach, edge.guard))]
  }

  /** States are equal and reach only grows. */
  ghost predicate ReachGrows(before: Summaries, after: Summaries) {
    |before| == |after|
    && (forall n | 0 <= n < |before| :: before[n].state == after[n].state)
    && forall n, s: State | 0 <= n < |before| && Eval(before[n].reach, s) :: Eval(after[n].reach, s)
  }

  ghost predicate EdgeClosed(cfg: Cfg, sums: Summaries, e: nat)
    requires WellFormed(cfg) && |sums| == |cfg.nodes| && e < |cfg.edges|
  {
    forall s: State | Eval(sums[cfg.edges[e].source].reach, s) && Eval(cfg.edges[e].guard, s) ::
      Eval(sums[cfg.edges[e].target].reach, s)
  }

  ghost predicate EntryReached(cfg: Cfg, sums: Summaries)
    requires WellFormed(cfg) && |sums| == |cfg.nodes|
  {
    forall s: State :: Eval(sums[cfg.entry].reach, s)
  }

  lemma ForwardedGrows(cfg: Cfg, sums: Summaries, e: nat)
    requires WellFormed(cfg) && |sums| == |cfg.nodes| && e < |cfg.edges|
    ensures ReachGrows(sums, Forwarded(cfg, sums, e))
    ensures cfg.edges[e].source != cfg.edges[e].target ==> EdgeClosed(cfg, Forwarded(cfg, sums, e), e)
  {
    var edge := cfg.edges[e];
    var incoming := AndOf(sums[edge.source].reach, edge.guard);
    forall s: State
      ensures Eval(OrOf(sums[edge.target].reach, incoming), s) <==>
              Eval(sums[edge.target].reach, s) || (Eval(sums[edge.source].reach, s) && Eval(edge.guard, s))
    {
      AndMeaning(sums[edge.source].reach, edge.guard, s);
      OrMeaning(sums[edge.target].reach, incoming, s);
    }
  }

  /** Growing the reach of another node keeps an edge closed. */
  lemma ForwardedKeepsClosed(cfg: Cfg, sums: Summaries, e: nat, d: nat)
    requires WellFormed(cfg) && |sums| == |cfg.nodes| && e < |cfg.edges| && d < |cfg.edges|
    requires EdgeClosed(cfg, sums, d) && cfg.edges[d].source != cfg.edges[e].target
    ensures EdgeClosed(cfg, Forwarded(cfg, sums, e), d)
  {
    ForwardedGrows(cfg, sums, e);
  }

  lemma {:induction false} ClosedAlongPath(
      cfg: Cfg, excluded: set<nat>, sums: Summaries, path: seq<nat>, n: nat, m: nat, s: State)
    requires WellFormed(cfg) && |sums| == |cfg.nodes| && n < |sums|
    requires forall e: nat | e < |cfg.edges| && e !in excluded :: EdgeClosed(cfg, sums, e)
    requires IsPath(cfg, excluded, path, n, m) && GuardsHold(cfg, path, s)
    requires Eval(sums[n].reach, s)
    ensures m < |sums| && Eval(sums[m].reach, s)
    decreases |path|
  {
    if path != [] {
      assert path[0] in path && forall e :: e in path[1..] ==> e in path;
      assert EdgeClosed(cfg, sums, path[0]);
      ClosedAlongPath(cfg, excluded, sums, path[1..], cfg.edges[path[0]].target, m, s);
    }
  }

  /** From a node whose reach formula holds, edges that are not blocked and whose guards hold lead to
      `n`. */
  ghost predicate ReachedFrom(cfg: Cfg, blocked: set<nat>, sums: Summaries, n: nat, s: State) {
    exists path, m: nat ::
      m < |sums| && IsPath(cfg, blocked, path, m, n) && GuardsHold(cfg, path, s) && Eval(sums[m].reach, s)
  }

  /** Reach formulas hold only where guards lead from the reach formulas before. */
  ghost predicate OnlyReached(cfg: Cfg, blocked: set<nat>, before: Summaries, sums: Summaries) {
    forall n: nat, s: State | n < |sums| && Eval(sums[n].reach, s) :: ReachedFrom(cfg, blocked, before, n, s)
  }

  lemma StartReached(cfg: Cfg, blocked: set<nat>, sums: Summaries)
    ensures OnlyReached(cfg, blocked, sums, sums)
  {
    forall n: nat, s: State | n < |sums| && Eval(sums[n].reach, s) ensures ReachedFrom(cfg, blocked, sums, n, s) {
      assert IsPath(cfg, blocked, [], n, n) && GuardsHold(cfg, [], s);
    }
  }

  lemma ReachedNext(cfg: Cfg, blocked: set<nat>, before: Summaries, e: nat, s: State)
    requires WellFormed(cfg) && e < |cfg.edges| && e !in blocked && Eval(cfg.edges[e].guard, s)
    requires ReachedFrom(cfg, blocked, before, cfg.edges[e].source, s)
    ensures ReachedFrom(cfg, blocked, before, cfg.edges[e].target, s)
  {
    var path, m: nat :| m < |before| && IsPath(cfg, blocked, path, m, cfg.edges[e].source) && GuardsHold(cfg, path, s)
                        && Eval(before[m].reach, s);
    EdgePath(cfg, blocked, e);
    PathConcat(cfg, blocked, path, [e], m, cfg.edges[e].source, cfg.edges[e].target);
    assert GuardsHold(cfg, path + [e], s);
  }

  lemma ForwardedOnly(cfg: Cfg, blocked: set<nat>, before: Summaries, sums: Summaries, e: nat)
    requires WellFormed(cfg) && |sums| == |cfg.nodes| && e < |cfg.edges| && e !in blocked
    requires OnlyReached(cfg, blocked, before, sums)
    ensures OnlyReached(cfg, blocked, before, Forwarded(cfg, sums, e))
  {
    var edge, next := cfg.edges[e], Forwarded(cfg, sums, e);
    var incoming := AndOf(sums[edge.source].reach, edge.guard);
    forall n: nat, s: State | n < |next| && Eval(next[n].reach, s) ensures ReachedFrom(cfg, blocked, before, n, s) {
      if n == edge.target && !Eval(sums[n].reach, s) {
        OrMeaning(sums[n].reach, incoming, s);
        AndMeaning(sums[edge.source].reach, edge.guard, s);
        ReachedNext(cfg, blocked, before, e, s);
      }
    }
  }

  /** After a pass that closed every edge, the reach formulas are exactly what guards lead to from the
      reach formulas before it. */
  ghost predicate ReachExact(cfg: Cfg, blocked: set<nat>, before: Summaries, sums: Summaries) {
    |before| == |sums|
    && forall n: nat, s: State | n < |sums| :: Eval(sums[n].reach, s) <==> ReachedFrom(cfg, blocked, before, n, s)
  }

  lemma ClosedExact(cfg: Cfg, blocked: set<nat>, before: Summaries, sums: Summaries)
    requires WellFormed(cfg) && |sums| == |cfg.nodes| && ReachGrows(before, sums)
    requires OnlyReached(cfg, blocked, before, sums)
    requires forall e: nat | e < |cfg.edges| && e !in blocked :: EdgeClosed(cfg, sums, e)
    ensures ReachExact(cfg, blocked, before, sums)
  {
    forall n: nat, s: State | n < |sums| && ReachedFrom(cfg, blocked, before, n, s) ensures Eval(sums[n].reach, s) {
      var path, m: nat :| m < |before| && IsPath(cfg, blocked, path, m, n) && GuardsHold(cfg, path, s)
                          && Eval(before[m].reach, s);
      ClosedAlongPath(cfg, blocked, sums, path, m, n, s);
    }
  }

  /** With stable guards, closed reach formulas cover every arrival. */
  lemma ClosedCovers(g: Setting, sums: Summaries)
    requires WellSited(g.cfg, g.site) && Sized(g, sums) && CfgModelled(g.cfg)
    requires GuardsStable(g.cfg, g.excluded) && EntryReached(g.cfg, sums)
    requires forall e: nat | e < |g.cfg.edges| && e !in g.excluded :: EdgeClosed(g.cfg, sums, e)
    ensures ReachCovers(g, sums)
  {
    forall n: nat, s: State | n < |sums| && Arrives(g.cfg, g.excluded, n, s) ensures Eval(sums[n].reach, s) {
      var path, s0 :| IsPath(g.cfg, g.excluded, path, g.cfg.entry, n) && Follows(g.cfg, path, s0, s);
      GuardsStillHold(g.cfg, g.excluded, path, g.cfg.entry, n, s0, s);
      ClosedAlongPath(g.cfg, g.excluded, sums, path, g.cfg.entry, n, s);
    }
  }

  // ---- One backward rule application --------------------------------------------------------

  /** What every backward rule application keeps. */
  ghost predicate Invariant(g: Setting, hidden: set<Name>, sums: Summaries, blocked: set<nat>) {
    && ValidSetting(g, hidden) && Sized(g, sums) && StatesVisible(sums, hidden)
    && Witnessed(g, sums) && ReachCovers(g, sums) && SiteCovered(g, sums) && BlockedDead(g, blocked)
    && g.excluded <= blocked
  }

  function WithoutState(sums: Summaries, n: nat): Summaries
    requires n < |sums|
  {
    sums[n := sums[n].(state := False)]
  }

  lemma PropagatedKeeps(g: Setting, hidden: set<Name>, sums: Summaries, blocked: set<nat>, e: nat)
    requires Invariant(g, hidden, sums, blocked) && e < |g.cfg.edges| && e !in blocked
    requires NodeCovered(g, sums, g.cfg.edges[e].target)
    ensures var next := Propagated(g.cfg, sums, e);
            Invariant(g, hidden, next, blocked) && EdgeCovered(g, next, e)
            && (forall d: nat | d < |g.cfg.edges| && EdgeCovered(g, sums, d) :: EdgeCovered(g, next, d))
            && (g.cfg.edges[e].source != g.cfg.edges[e].target ==> NodeCovered(g, next, g.cfg.edges[e].target))
  {
    var next := Propagated(g.cfg, sums, e);
    forall n: nat, s: State | n < |sums|
      ensures Eval(sums[n].state, s) ==> Eval(next[n].state, s)
      ensures next[n].reach == sums[n].reach
    {
      PropagatedGrows(g, sums, e, n, s);
    }
    PropagatedCovers(g, sums, e, hidden);
    PropagatedWitnessed(g, sums, e, hidden);
    PropagatedVisible(g, sums, e, hidden);
  }

  lemma WithoutStateKeeps(g: Setting, hidden: set<Name>, sums: Summaries, blocked: set<nat>, e: nat)
    requires Invariant(g, hidden, sums, blocked) && e < |g.cfg.edges|
    requires e in g.excluded || EdgeCovered(g, sums, e)
    requires !Satisfiable(sums[g.cfg.edges[e].source].Combined())
    ensures var next := WithoutState(sums, g.cfg.edges[e].source);
            Invariant(g, hidden, next, blocked + {e})
            && (forall d: nat | d < |g.cfg.edges| && EdgeCovered(g, sums, d) :: EdgeCovered(g, next, d))
            && (forall n: nat | n < |sums| && n != g.cfg.edges[e].source && NodeCovered(g, sums, n) ::
                  NodeCovered(g, next, n))
  {
    var n := g.cfg.edges[e].source;
    PrunedCovers(g, sums, n);
    var next := WithoutState(sums, n);
    assert Witnessed(g, next);
  }

  /** A blocked edge is covered: nothing violates through it. */
  lemma BlockedCovered(g: Setting, hidden: set<Name>, sums: Summaries, blocked: set<nat>, e: nat)
    requires Invariant(g, hidden, sums, blocked) && e in blocked && e !in g.excluded && e < |g.cfg.edges|
    ensures EdgeCovered(g, sums, e)
  {
  }

  /** At the entry the combined formula holds exactly in the states that a run over kept edges
      takes to a violation; without exactness it still covers them. */
  lemma EntryVerdict(g: Setting, hidden: set<Name>, sums: Summaries, blocked: set<nat>, s: State)
    requires Invariant(g, hidden, sums, blocked) && NodeCovered(g, sums, g.cfg.entry)
    ensures Violating(g.cfg, g.excluded, g.site, g.cfg.entry, s) ==> Eval(sums[g.cfg.entry].Combined(), s)
    ensures CfgExact(g.cfg) && Eval(sums[g.cfg.entry].Combined(), s) ==>
              Violating(g.cfg, g.excluded, g.site, g.cfg.entry, s)
  {
    CombinedMeaning(sums[g.cfg.entry], s);
    assert IsPath(g.cfg, g.excluded, [], g.cfg.entry, g.cfg.entry) && Follows(g.cfg, [], s, s);
    assert Arrives(g.cfg, g.excluded, g.cfg.entry, s);
  }
  // ---- Why guards must stay true --------------------------------------------------------------

  /** The summaries that the pruning query on `e` asks about: both backward rules have joined. */
  function Asked(cfg: Cfg, sums: Summaries, e: nat): Summaries
    requires WellFormed(cfg) && |sums| == |cfg.nodes| && e < |cfg.edges|
  {
    Propagated(cfg, Propagated(cfg, sums, e), e)
  }

  function Pruned(cfg: Cfg, sums: Summaries, e: nat): Summaries
    requires WellFormed(cfg) && |sums| == |cfg.nodes| && e < |cfg.edges|
  {
    WithoutState(Asked(cfg, sums, e), cfg.edges[e].source)
  }

  /** Nothing flows back over an edge whose target has no state. */
  lemma DeadTarget(cfg: Cfg, sums: Summaries, e: nat, hidden: set<Name>)
    requires WellFormed(cfg) && |sums| == |cfg.nodes| && e < |cfg.edges| && EdgeExact(cfg, e)
    requires CfgVisible(cfg, hidden) && cfg.edges[e].source != cfg.edges[e].target
    requires sums[cfg.edges[e].source].state == False && sums[cfg.edges[e].target].state == False
    ensures !Satisfiable(Asked(cfg, sums, e)[cfg.edges[e].source].Combined())
  {
    var pre := EdgePre(cfg, e, true, false, False);
    forall s: State ensures !Eval(Asked(cfg, sums, e)[cfg.edges[e].source].Combined(), s) {
      EdgePreExact(cfg, e, False, s, hidden);
      OrMeaning(False, pre, s);
      OrMeaning(OrOf(False, pre), pre, s);
      CombinedMeaning(Asked(cfg, sums, e)[cfg.edges[e].source], s);
    }
  }

  const X := Var("x", IntSort)
  const IS_ZERO := Cmp(Eq, TVar(X), Int(0))
  const IS_ONE := Cmp(Eq, TVar(X), Int(1))
  const SET_ONE := Assign(X, ValueTerm(Int(1)))

  /** After the guard `x == 0` a node sets x to 1, and the next guard is `x == 1`. */
  const REASSIGNED := Cfg(
    [[], [SET_ONE], [], []],
    [Edge(0, 1, IS_ZERO, []), Edge(1, 2, IS_ONE, []), Edge(2, 3, True, [])],
    0)

  const FAILING := Site(3, False)

  /** The engine at the start: the entry is reached, the site is violated. */
  const PRIMED: Summaries := [
    NodeSummary(True, False), NodeSummary(False, False), NodeSummary(False, False), NodeSummary(False, Not(False))]

  function ForwardRound(): Summaries {
    Forwarded(REASSIGNED, Forwarded(REASSIGNED, Forwarded(REASSIGNED, PRIMED, 0), 1), 2)
  }

  lemma ReassignedReach()
    ensures forall s: State :: !Eval(ForwardRound()[2].reach, s)
    ensures forall n | 0 <= n < 3 :: ForwardRound()[n].state == False
  {
    var first := Forwarded(REASSIGNED, PRIMED, 0);
    var second := Forwarded(REASSIGNED, first, 1);
    assert ForwardRound()[2] == second[2];
    assert first[1].reach == OrOf(False, AndOf(True, IS_ZERO));
    assert second[2].reach == OrOf(False, AndOf(first[1].reach, IS_ONE));
    forall s: State ensures !Eval(second[2].reach, s) {
      OrMeaning(False, AndOf(True, IS_ZERO), s);
      AndMeaning(True, IS_ZERO, s);
      OrMeaning(False, AndOf(first[1].reach, IS_ONE), s);
      AndMeaning(first[1].reach, IS_ONE, s);
      assert EvalT(TVar(X), s) == s.ints(X) && EvalT(Int(0), s) == 0 && EvalT(Int(1), s) == 1;
    }
  }

  lemma ReassignedShape()
    ensures CfgVisible(REASSIGNED, {}) && CfgExact(REASSIGNED) && !GuardsStable(REASSIGNED, {})
  {
    assert Hidden(IS_ZERO) == {} && Hidden(IS_ONE) == {} && HiddenT(Int(1)) == {};
    assert IsPath(REASSIGNED, {}, [], 1, 1) && Connected(REASSIGNED, {}, 1, 1);
    assert Scalar(X) in Names(IS_ZERO) && Scalar(X) in Writes([SET_ONE]);
    assert REASSIGNED.edges[0].target == 1 && REASSIGNED.edges[1].source == 1;
  }

  lemma ReassignedCrossings(s: State)
    requires s.ints(X) == 0
    ensures Cross(REASSIGNED, 0, s, s) && Cross(REASSIGNED, 1, s, s.SetInt(X, 1))
    ensures Cross(REASSIGNED, 2, s.SetInt(X, 1), s.SetInt(X, 1))
  {
    var t := s.SetInt(X, 1);
    assert EvalT(TVar(X), s) == 0 && EvalT(TVar(X), t) == 1 && EvalT(Int(1), s) == 1;
    assert EvalT(Int(0), s) == 0 && EvalT(Int(1), t) == 1;
    assert Run([], s, s) && Run([], t, t);
    assert [SET_ONE][1..] == [] && Step(SET_ONE, s, t) && Run([SET_ONE], s, t);
    CrossVia(REASSIGNED, 0, s, s, s);
    CrossVia(REASSIGNED, 1, s, t, t);
    CrossVia(REASSIGNED, 2, t, t, t);
  }

  lemma ReassignedRun(s: State)
    requires s.ints(X) == 0
    ensures Violating(REASSIGNED, {}, FAILING, 0, s)
  {
    var g, t := Setting(REASSIGNED, {}, FAILING), s.SetInt(X, 1);
    ReassignedCrossings(s);
    assert REASSIGNED.nodes[FAILING.node] == [] && Run([], t, t) && !Eval(FAILING.obligation, t);
    assert ViolatedAt(REASSIGNED, FAILING, t);
    assert IsPath(REASSIGNED, {}, [], 3, 3) && Follows(REASSIGNED, [], t, t);
    assert Violating(REASSIGNED, {}, FAILING, 3, t);
    ViolatingBefore(g, 2, t, t);
    ViolatingBefore(g, 1, s, t);
    ViolatingBefore(g, 0, s, s);
  }

  lemma ReassignedPruning(sums: Summaries)
    requires |sums| == 4 && sums[0].state == False && sums[1].state == False
    requires forall s: State :: !Eval(sums[2].reach, s)
    ensures var third := Pruned(REASSIGNED, sums, 2);
            var second := Pruned(REASSIGNED, third, 1);
            !Satisfiable(Asked(REASSIGNED, sums, 2)[2].Combined())
            && !Satisfiable(Asked(REASSIGNED, third, 1)[1].Combined())
            && !Satisfiable(Asked(REASSIGNED, second, 0)[0].Combined())
            && Pruned(REASSIGNED, second, 0)[0].Combined() == False
  {
    var third := Pruned(REASSIGNED, sums, 2);
    var second := Pruned(REASSIGNED, third, 1);
    ReassignedShape();
    forall s: State ensures !Eval(Asked(REASSIGNED, sums, 2)[2].Combined(), s) {
      CombinedMeaning(Asked(REASSIGNED, sums, 2)[2], s);
    }
    DeadTarget(REASSIGNED, third, 1, {});
    DeadTarget(REASSIGNED, second, 0, {});
  }

  /** Without stable guards the engine misses violations. In the first round on this graph every
      pruning query is infeasible, so a truthful oracle that decides has every edge blocked, the
      entry formula is False and the verdict Verified; yet a run from the entry violates the
      obligation. */
  lemma ReassignedGuardMissed(s: State)
    requires s.ints(X) == 0
    ensures var sums := ForwardRound();
            var third := Pruned(REASSIGNED, sums, 2);
            var second := Pruned(REASSIGNED, third, 1);
            !Satisfiable(Asked(REASSIGNED, sums, 2)[2].Combined())
            && !Satisfiable(Asked(REASSIGNED, third, 1)[1].Combined())
            && !Satisfiable(Asked(REASSIGNED, second, 0)[0].Combined())
            && Pruned(REASSIGNED, second, 0)[0].Combined() == False
    ensures Violating(REASSIGNED, {}, FAILING, REASSIGNED.entry, s) && !GuardsStable(REASSIGNED, {})
  {
    ReassignedShape();
    ReassignedReach();
    ReassignedPruning(ForwardRound());
    ReassignedRun(s);
  }
}
