/** The assertion checker of src/analysis/backward/mod.rs: acyclic graphs directly, graphs with one
    loop through an accepted invariant. The candidate search is abstracted to a list of
    candidates tried in order. */
module Checker {
  import opened Formulas
  import opened Semantics
  import opened Substitution
  import opened Transfer
  import opened Graphs
  import opened Ordering
  import opened Runs
  import opened Passes
  import opened Oracles
  import opened Coverage
  import opened Engine
  import opened Reach
  import opened Acceptance
  import opened Loops
  import opened LoopRule

  datatype Verdict = Verified | BugFound | Inconclusive | CyclicUnsupported | OracleError

  // ---- The violation seed -------------------------------------------------------------------

  /** The violation precondition at the site. */
  function ViolationSeed(cfg: Cfg, site: Site): Seed
    requires WellFormed(cfg) && site.node < |cfg.nodes|
  {
    Seed(site.node, Wp(cfg.nodes[site.node], Not(site.obligation)))
  }

  lemma SeedHidden(g: Setting, hidden: set<Name>)
    requires ValidSetting(g, hidden)
    ensures Hidden(ViolationSeed(g.cfg, g.site).f) <= hidden
  {
    WpHidden(false, g.cfg.nodes[g.site.node], Not(g.site.obligation), hidden);
  }

  lemma SeedCovers(g: Setting, hidden: set<Name>, s: State)
    requires ValidSetting(g, hidden)
    ensures ViolatedAt(g.cfg, g.site, s) ==> Eval(ViolationSeed(g.cfg, g.site).f, s)
    ensures CfgExact(g.cfg) && Eval(ViolationSeed(g.cfg, g.site).f, s) ==> ViolatedAt(g.cfg, g.site, s)
  {
    var effects, bad := g.cfg.nodes[g.site.node], Not(g.site.obligation);
    if ViolatedAt(g.cfg, g.site, s) {
      var t :| Run(effects, s, t) && !Eval(g.site.obligation, t);
      WpOver(effects, bad, s, t, hidden);
    }
    if CfgExact(g.cfg) {
      WpExact(effects, bad, s, hidden);
    }
  }

  // ---- Preliminary backward states ----------------------------------------------------------

  ghost function StatesOf(sums: Summaries): seq<Formula> {
    seq(|sums|, n requires 0 <= n < |sums| => sums[n].state)
  }

  lemma PropagatedStates(cfg: Cfg, sums: Summaries, e: nat)
    requires WellFormed(cfg) && |sums| == |cfg.nodes| && e < |cfg.edges|
    ensures var n := cfg.edges[e].source;
            var states := StatesOf(sums);
            StatesOf(Propagated(cfg, sums, e)) == states[n := OrOf(states[n], Pre(cfg, e, PLAIN, states))]
  {
  }

  method PreliminaryEdges(
      engine: RuleEngine, order: seq<nat>, i: nat, ghost seed: Seed, ghost done0: set<nat>,
      ghost visible: bool, ghost hidden: set<Name>)
    returns (ghost done: set<nat>)
    requires engine.Ready() && IsTopological(engine.cfg, engine.blocked, order) && i < |order|
    requires Equations(engine.cfg, PLAIN, seed, done0, StatesOf(engine.summaries))
    requires visible ==> CfgVisible(engine.cfg, hidden) && StatesHidden(StatesOf(engine.summaries), hidden)
    requires forall e: nat :: e in done0 <==>
               e < |engine.cfg.edges| && e !in engine.blocked && engine.cfg.edges[e].target in order[i + 1..]
    modifies engine`summaries
    ensures engine.Ready() && Equations(engine.cfg, PLAIN, seed, done, StatesOf(engine.summaries))
    ensures visible ==> StatesHidden(StatesOf(engine.summaries), hidden)
    ensures forall e: nat :: e in done <==>
              e < |engine.cfg.edges| && e !in engine.blocked && engine.cfg.edges[e].target in order[i..]
  {
    var cfg, node := engine.cfg, order[i];
    done := done0;
    var incoming := Incoming(cfg, node);
    for j := 0 to |incoming|
      invariant engine.Ready() && Equations(cfg, PLAIN, seed, done, StatesOf(engine.summaries))
      invariant visible ==> StatesHidden(StatesOf(engine.summaries), hidden)
      invariant forall e: nat :: e in done <==> e in done0 || (e in incoming[..j] && e !in engine.blocked)
    {
      var e := incoming[j];
      assert e in incoming;
      assert incoming[..j + 1] == incoming[..j] + [e];
      ghost var before := engine.summaries;
      engine.NotMayPre(e);
      if e !in engine.blocked {
        SourceEarlier(cfg, engine.blocked, order, i, e);
        forall d | d in done + {e} && d < |cfg.edges| ensures cfg.edges[d].target != cfg.edges[e].source {
          assert d in incoming[..j] ==> d in incoming;
          if d in done0 {
            assert cfg.edges[d].target in order[i + 1..];
          }
        }
        PropagatedStates(cfg, before, e);
        JoinEdge(cfg, PLAIN, seed, done, StatesOf(before), e);
        if visible {
          JoinHiddenState(cfg, PLAIN, StatesOf(before), e, hidden);
        }
        done := done + {e};
      }
    }
    assert incoming[..|incoming|] == incoming;
    assert order[i..] == [node] + order[i + 1..];
  }

  method SeededEngine(cfg: Cfg, site: Site, oracle: Oracle, excluded: set<nat>) returns (engine: RuleEngine)
    requires WellSited(cfg, site)
    ensures fresh(engine) && engine.cfg == cfg && engine.oracle == oracle && engine.Ready()
    ensures engine.blocked == excluded
    ensures forall n :: 0 <= n < |cfg.nodes| ==>
              engine.summaries[n] == NodeSummary(
                if n == cfg.entry then True else False,
                if n == site.node then ViolationSeed(cfg, site).f else False)
  {
    engine := new RuleEngine(cfg, oracle);
    engine.blocked := excluded;
    var pre := ComputeWp(false, cfg.nodes[site.node], Not(site.obligation));
    engine.SetState(site.node, pre);
  }

  /** Postconditions that say exactly which states are doomed. */
  ghost predicate PostsExact(cfg: Cfg, excluded: set<nat>, site: Site, posts: map<nat, Formula>)
    requires WellSited(cfg, site)
  {
    forall n: nat | n < |cfg.nodes| ::
      n in posts && forall s: State :: Eval(posts[n], s) <==> Violating(cfg, excluded, site, n, s)
  }

  /** `compute_preliminary_backward_states`: per node, the states from which a run over kept edges
      violates the obligation. */
  method PreliminaryStates(cfg: Cfg, site: Site, oracle: Oracle, excluded: set<nat>, ghost hidden: set<Name>)
    returns (posts: Option<map<nat, Formula>>)
    requires WellSited(cfg, site)
    ensures posts.None? <==> Cyclic(cfg, excluded)
    ensures var g := Setting(cfg, excluded, site);
            posts.Some? && ValidSetting(g, hidden) ==>
              PostsCover(cfg, excluded, site, posts.value) && PostsHidden(posts.value, hidden)
    ensures var g := Setting(cfg, excluded, site);
            posts.Some? && ValidSetting(g, hidden) && CfgExact(cfg) ==> PostsExact(cfg, excluded, site, posts.value)
  {
    var order := TopologicalOrder(cfg, excluded);
    if order.None? {
      return None;
    }
    var engine := SeededEngine(cfg, site, oracle, excluded);
    ghost var g := Setting(cfg, excluded, site);
    ghost var valid := ValidSetting(g, hidden);
    ghost var seed := ViolationSeed(cfg, site);
    if valid {
      SeedHidden(g, hidden);
    }
    ghost var done: set<nat> := {};
    for i := |order.value| downto 0
      invariant engine.Ready() && engine.blocked == excluded
      invariant engine.cfg == cfg && Equations(cfg, PLAIN, seed, done, StatesOf(engine.summaries))
      invariant valid ==> StatesHidden(StatesOf(engine.summaries), hidden)
      invariant forall e: nat :: e in done <==>
                  e < |cfg.edges| && e !in excluded && cfg.edges[e].target in order.value[i..]
    {
      done := PreliminaryEdges(engine, order.value, i, seed, done, valid, hidden);
    }
    assert order.value[0..] == order.value;
    assert done == KeptEdges(cfg, excluded);
    ghost var states := StatesOf(engine.summaries);
    var result := map n: nat | n in Below(|cfg.nodes|) && n < |engine.summaries| :: engine.summaries[n].state;
    posts := Some(result);
    if valid {
      PreliminaryMeaning(g, hidden, states, result);
    }
  }

  lemma PreliminaryMeaning(g: Setting, hidden: set<Name>, states: seq<Formula>, posts: map<nat, Formula>)
    requires ValidSetting(g, hidden) && StatesHidden(states, hidden) && HasOrder(g.cfg, g.excluded)
    requires Equations(g.cfg, PLAIN, ViolationSeed(g.cfg, g.site), KeptEdges(g.cfg, g.excluded), states)
    requires forall n: nat :: (n in posts <==> n < |states|) && (n in posts ==> posts[n] == states[n])
    ensures PostsCover(g.cfg, g.excluded, g.site, posts) && PostsHidden(posts, hidden)
    ensures CfgExact(g.cfg) ==> PostsExact(g.cfg, g.excluded, g.site, posts)
  {
    forall n: nat, s: State | n < |g.cfg.nodes| && Violating(g.cfg, g.excluded, g.site, n, s)
      ensures n in posts && Eval(posts[n], s)
    {
      PreliminaryCovers(g, hidden, states, n, s);
    }
    if CfgExact(g.cfg) {
      forall n: nat, s: State | n < |g.cfg.nodes| && Eval(posts[n], s)
        ensures Violating(g.cfg, g.excluded, g.site, n, s)
      {
        PreliminaryWitnessed(g, hidden, states, n, s);
      }
    }
  }

  lemma PreliminaryCovers(g: Setting, hidden: set<Name>, states: seq<Formula>, n: nat, s: State)
    requires ValidSetting(g, hidden) && StatesHidden(states, hidden)
    requires Equations(g.cfg, PLAIN, ViolationSeed(g.cfg, g.site), KeptEdges(g.cfg, g.excluded), states)
    requires n < |g.cfg.nodes| && Violating(g.cfg, g.excluded, g.site, n, s)
    ensures Eval(states[n], s)
  {
    var path, t :| IsPath(g.cfg, g.excluded, path, n, g.site.node) && Follows(g.cfg, path, s, t)
                   && ViolatedAt(g.cfg, g.site, t);
    SeedCovers(g, hidden, t);
    PassCovers(g.cfg, true, ViolationSeed(g.cfg, g.site), g.excluded, states, hidden, path, n, s, t);
  }

  lemma PreliminaryWitnessed(g: Setting, hidden: set<Name>, states: seq<Formula>, n: nat, s: State)
    requires ValidSetting(g, hidden) && StatesHidden(states, hidden) && CfgExact(g.cfg)
    requires Equations(g.cfg, PLAIN, ViolationSeed(g.cfg, g.site), KeptEdges(g.cfg, g.excluded), states)
    requires HasOrder(g.cfg, g.excluded) && n < |g.cfg.nodes| && Eval(states[n], s)
    ensures Violating(g.cfg, g.excluded, g.site, n, s)
  {
    var seed := ViolationSeed(g.cfg, g.site);
    PassExact(g.cfg, seed, g.excluded, states, hidden, n, s);
    var path, t :| IsPath(g.cfg, g.excluded, path, n, seed.node) && Follows(g.cfg, path, s, t) && Eval(seed.f, t);
    SeedCovers(g, hidden, t);
  }

  // ---- The engine run -----------------------------------------------------------------------

  /** `conjunct_loop_invariants`: one formula per header. */
  method ConjunctLoopInvariants(invariants: seq<(nat, Formula)>) returns (combined: map<nat, Formula>)
    ensures forall h :: h in combined <==> exists i :: 0 <= i < |invariants| && invariants[i].0 == h
    ensures forall h, s: State :: h in combined ==>
              (Eval(combined[h], s) <==>
               forall i :: 0 <= i < |invariants| && invariants[i].0 == h ==> Eval(invariants[i].1, s))
  {
    combined := map[];
    for k := 0 to |invariants|
      invariant forall h :: h in combined <==> exists i :: 0 <= i < k && invariants[i].0 == h
      invariant forall h, s: State :: h in combined ==>
                  (Eval(combined[h], s) <==>
                   forall i :: 0 <= i < k && invariants[i].0 == h ==> Eval(invariants[i].1, s))
    {
      var (h, f) := invariants[k];
      if h in combined {
        forall s: State ensures Eval(AndOf(combined[h], f), s) <==> Eval(combined[h], s) && Eval(f, s) {
          AndMeaning(combined[h], f, s);
        }
        combined := combined[h := AndOf(combined[h], f)];
      } else {
        combined := combined[h := f];
      }
    }
  }

  /** Where a header was not known to be reached its invariant stands for its reach, otherwise both
      must hold; nothing else changes. */
  ghost predicate Injected(invariants: map<nat, Formula>, before: Summaries, after: Summaries, headers: set<nat>) {
    |after| == |before|
    && forall n: nat | n < |before| ::
         after[n].state == before[n].state
         && if n in headers && n in invariants then
              forall s: State ::
                Eval(after[n].reach, s) <==>
                Eval(invariants[n], s) && (before[n].reach != False ==> Eval(before[n].reach, s))
            else after[n].reach == before[n].reach
  }

  lemma InjectedNext(
      invariants: map<nat, Formula>, before: Summaries, sums: Summaries, headers: set<nat>, h: nat, after: Summaries)
    requires Injected(invariants, before, sums, headers) && h < |before| && h in invariants && h !in headers
    requires after == sums[h := sums[h].(reach :=
               if sums[h].reach == False then invariants[h] else AndOf(sums[h].reach, invariants[h]))]
    ensures Injected(invariants, before, after, headers + {h})
  {
    forall s: State
      ensures Eval(after[h].reach, s) <==>
              Eval(invariants[h], s) && (before[h].reach != False ==> Eval(before[h].reach, s))
    {
      AndMeaning(sums[h].reach, invariants[h], s);
    }
  }

  method InjectInvariants(engine: RuleEngine, invariants: map<nat, Formula>)
    requires engine.Ready() && forall h | h in invariants :: h < |engine.cfg.nodes|
    modifies engine`summaries
    ensures engine.Ready() && Injected(invariants, old(engine.summaries), engine.summaries, invariants.Keys)
  {
    var headers := invariants.Keys;
    while headers != {}
      invariant headers <= invariants.Keys && engine.Ready()
      invariant Injected(invariants, old(engine.summaries), engine.summaries, invariants.Keys - headers)
    {
      var h :| h in headers;
      ghost var sums := engine.summaries;
      engine.InjectReach(h, invariants[h]);
      InjectedNext(invariants, old(engine.summaries), sums, invariants.Keys - headers, h, engine.summaries);
      assert invariants.Keys - headers + {h} == invariants.Keys - (headers - {h});
      headers := headers - {h};
    }
  }

  /** What the verdict of one engine run is worth. */
  ghost predicate VerdictSound(g: Setting, verdict: Verdict)
    requires WellSited(g.cfg, g.site)
  {
    (verdict == Verified ==> SafeFrom(g.cfg, g.excluded, g.site))
    && (verdict == BugFound && CfgExact(g.cfg) ==> !SafeFrom(g.cfg, g.excluded, g.site))
  }

  /** `run_backward`. Whatever invariants were injected away from the entry, Verified means that
      no run over kept edges violates the obligation; on exact effects BugFound means that one
      does; and a decisive oracle always yields the right one of the two. */
  method RunBackward(
      cfg: Cfg, site: Site, oracle: Oracle, excluded: set<nat>, invariants: seq<(nat, Formula)>,
      acyclic: bool, ghost hidden: set<Name>)
    returns (verdict: Verdict, rounds: nat)
    requires WellSited(cfg, site) && excluded <= Below(|cfg.edges|)
    requires forall i :: 0 <= i < |invariants| ==> invariants[i].0 < |cfg.nodes|
    ensures rounds <= |cfg.edges| + 1
    ensures verdict == CyclicUnsupported <==> Cyclic(cfg, excluded)
    ensures verdict == BugFound ==> acyclic
    ensures var g := Setting(cfg, excluded, site);
            ValidSetting(g, hidden) && GuardsStable(cfg, excluded) && Truthful(oracle)
            && (forall i :: 0 <= i < |invariants| ==> invariants[i].0 != cfg.entry) ==>
              VerdictSound(g, verdict)
              && (Decisive(oracle) && CfgExact(cfg) && verdict != CyclicUnsupported ==>
                    verdict == if SafeFrom(cfg, excluded, site) then Verified
                               else if acyclic then BugFound else Inconclusive)
  {
    rounds := 0;
    var order := TopologicalOrder(cfg, excluded);
    if order.None? {
      return CyclicUnsupported, 0;
    }
    var engine := SeededEngine(cfg, site, oracle, excluded);
    var combined := ConjunctLoopInvariants(invariants);
    InjectInvariants(engine, combined);
    ghost var g := Setting(cfg, excluded, site);
    ghost var sound := ValidSetting(g, hidden) && GuardsStable(cfg, excluded) && Truthful(oracle)
                       && forall i :: 0 <= i < |invariants| ==> invariants[i].0 != cfg.entry;
    if sound {
      PrimedStart(engine, g, hidden);
    }
    var ok, stable;
    ok, rounds, stable := engine.RunToFixpoint(order.value, g, hidden, sound);
    if !ok {
      return OracleError, rounds;
    }
    verdict := Decide(engine, acyclic);
    if sound {
      EntryDecides(g, hidden, engine.summaries, engine.blocked);
    }
  }

  /** Feasibility at the entry is the existence of a violating run. */
  lemma EntryDecides(g: Setting, hidden: set<Name>, sums: Summaries, blocked: set<nat>)
    requires Invariant(g, hidden, sums, blocked) && NodeCovered(g, sums, g.cfg.entry)
    ensures var combined := sums[g.cfg.entry].Combined();
            (!Satisfiable(combined) ==> SafeFrom(g.cfg, g.excluded, g.site))
            && (CfgExact(g.cfg) && Satisfiable(combined) ==> !SafeFrom(g.cfg, g.excluded, g.site))
  {
    forall s: State
      ensures Violating(g.cfg, g.excluded, g.site, g.cfg.entry, s) ==> Eval(sums[g.cfg.entry].Combined(), s)
      ensures CfgExact(g.cfg) && Eval(sums[g.cfg.entry].Combined(), s) ==>
                Violating(g.cfg, g.excluded, g.site, g.cfg.entry, s)
    {
      EntryVerdict(g, hidden, sums, blocked, s);
    }
  }

  /** The decision at the entry: bug first, then verified, each with its own query. */
  method Decide(engine: RuleEngine, acyclic: bool) returns (verdict: Verdict)
    requires engine.Ready()
    modifies engine`queries
    ensures var combined := engine.summaries[engine.cfg.entry].Combined();
            verdict != CyclicUnsupported
            && (Truthful(engine.oracle) ==>
                  (verdict == Verified ==> !Satisfiable(combined)) && (verdict == BugFound ==> Satisfiable(combined)))
            && (Truthful(engine.oracle) && Decisive(engine.oracle) ==>
                  verdict == if !Satisfiable(combined) then Verified else if acyclic then BugFound else Inconclusive)
    ensures verdict == BugFound ==> acyclic
  {
    var bug := engine.IsBugFound(acyclic);
    if bug.None? {
      return OracleError;
    }
    if bug.value {
      return BugFound;
    }
    var verified := engine.IsVerified();
    if verified.None? {
      return OracleError;
    }
    verdict := if verified.value then Verified else Inconclusive;
  }

  lemma PrimedStart(engine: RuleEngine, g: Setting, hidden: set<Name>)
    requires engine.Ready() && engine.cfg == g.cfg && Truthful(engine.oracle)
    requires ValidSetting(g, hidden) && GuardsStable(g.cfg, g.excluded) && engine.blocked == g.excluded
    requires engine.summaries[g.cfg.entry].reach == True
    requires forall n :: 0 <= n < |g.cfg.nodes| ==>
               engine.summaries[n].state == if n == g.site.node then ViolationSeed(g.cfg, g.site).f else False
    ensures engine.Primed(g, hidden)
  {
    forall s: State
      ensures ViolatedAt(g.cfg, g.site, s) ==> Eval(ViolationSeed(g.cfg, g.site).f, s)
      ensures CfgExact(g.cfg) && Eval(ViolationSeed(g.cfg, g.site).f, s) ==>
                Violating(g.cfg, g.excluded, g.site, g.site.node, s)
    {
      SeedCovers(g, hidden, s);
      assert IsPath(g.cfg, g.excluded, [], g.site.node, g.site.node) && Follows(g.cfg, [], s, s);
    }
    SeedHidden(g, hidden);
  }

  // ---- The whole analysis -------------------------------------------------------------------

  /** What the cyclic branch needs of the graph and its loop: the conditions of the loop rule, the
      site behind the loop, guards that stay true and nothing mentioned that is overwritten. */
  ghost predicate LoopGraph(cfg: Cfg, site: Site, info: LoopInfo, candidates: seq<Formula>, hidden: set<Name>) {
    && WellSited(cfg, site) && LoopConditions(cfg, info, hidden) && site.node !in info.body
    && Hidden(site.obligation) <= hidden && (forall f :: f in candidates ==> Hidden(f) <= hidden)
    && GuardsStable(cfg, {info.backEdge}) && KeepsMentioned(cfg, {info.backEdge}, info.header)
  }

  /** The graph has a loop of that kind. */
  ghost predicate SingleLoopGraph(cfg: Cfg, site: Site, candidates: seq<Formula>, hidden: set<Name>) {
    exists info :: LoopGraph(cfg, site, info, candidates, hidden)
  }

  /** The states from which a run over kept edges violates the obligation. */
  ghost function Doomed(cfg: Cfg, excluded: set<nat>, site: Site, n: nat): State -> bool
    requires WellSited(cfg, site)
  {
    (s: State) => Violating(cfg, excluded, site, n, s)
  }

  /** The candidate meets the three checks, said of runs: it holds on the claimed first entries, every
      trip round from it can return into it, and no exit leads from it to a violation. */
  ghost predicate Meets(cfg: Cfg, site: Site, info: LoopInfo, candidate: Formula)
    requires WellSited(cfg, site) && IsLoop(cfg, info)
  {
    var inv := Normalised(cfg, info, candidate);
    && Initiated(cfg, info, inv) && Returning(cfg, info, inv)
    && forall x | x in info.exitEdges ::
         LooselyClosed(cfg, info, inv, x, Doomed(cfg, {info.backEdge}, site, cfg.edges[x].target))
  }

  ghost predicate SomeMeets(cfg: Cfg, site: Site, info: LoopInfo, candidates: seq<Formula>)
    requires WellSited(cfg, site) && IsLoop(cfg, info)
  {
    exists c :: c in candidates && Meets(cfg, site, info, c)
  }

  lemma AcceptableMeets(cfg: Cfg, site: Site, info: LoopInfo, candidate: Formula, posts: map<nat, Formula>)
    requires WellSited(cfg, site) && IsLoop(cfg, info) && PostsExact(cfg, {info.backEdge}, site, posts)
    ensures Acceptable(cfg, info, Normalised(cfg, info, candidate), posts) <==> Meets(cfg, site, info, candidate)
  {
    var inv := Normalised(cfg, info, candidate);
    forall x: nat | x in info.exitEdges
      ensures OpenExit(cfg, info, inv, posts, x) <==>
              !LooselyClosed(cfg, info, inv, x, Doomed(cfg, {info.backEdge}, site, cfg.edges[x].target))
    {
      var n := cfg.edges[x].target;
      var given, doomed := Holding(posts[n]), Doomed(cfg, {info.backEdge}, site, n);
      assert forall s: State :: given(s) <==> doomed(s);
    }
  }

  /** `synthesize_loop_invariants` for one loop: the first accepted candidate. */
  method FirstAccepted(
      cfg: Cfg, info: LoopInfo, candidates: seq<Formula>, posts: map<nat, Formula>, oracle: Oracle,
      ghost hidden: set<Name>)
    returns (accepted: Option<Formula>)
    requires IsLoop(cfg, info)
    ensures accepted.Some? ==> accepted.value in candidates
    ensures accepted.Some? && Truthful(oracle) && LoopConditions(cfg, info, hidden)
            && Hidden(accepted.value) <= hidden && PostsHidden(posts, hidden)
            && KeepsMentioned(cfg, {info.backEdge}, info.header) ==>
              var inv := Normalised(cfg, info, accepted.value);
              HoldsOnEntry(cfg, info, inv) && Inductive(cfg, info, inv) && ExitClosed(cfg, info, inv, posts)
    ensures Deciding(oracle) && LoopConditions(cfg, info, hidden) && CfgExact(cfg) && PostsHidden(posts, hidden)
            && (forall c | c in candidates :: Hidden(c) <= hidden) ==>
              FirstAcceptable(cfg, info, candidates, posts, accepted)
  {
    var k := 0;
    ghost var exact := Deciding(oracle) && LoopConditions(cfg, info, hidden) && CfgExact(cfg)
                       && PostsHidden(posts, hidden) && forall c | c in candidates :: Hidden(c) <= hidden;
    for i := 0 to |candidates|
      invariant exact ==> forall j | 0 <= j < i :: !Acceptable(cfg, info, Normalised(cfg, info, candidates[j]), posts)
    {
      var result;
      result, k := CheckLoopInvariant(cfg, info, candidates[i], posts, oracle, k, hidden);
      if result == Accepted {
        return Some(candidates[i]);
      }
    }
    accepted := None;
  }

  /** None when no candidate is acceptable, otherwise the first that is. */
  ghost predicate FirstAcceptable(
      cfg: Cfg, info: LoopInfo, candidates: seq<Formula>, posts: map<nat, Formula>, accepted: Option<Formula>)
    requires IsLoop(cfg, info)
  {
    match accepted
    case None => forall c | c in candidates :: !Acceptable(cfg, info, Normalised(cfg, info, c), posts)
    case Some(c) =>
      exists i :: 0 <= i < |candidates| && candidates[i] == c
                  && Acceptable(cfg, info, Normalised(cfg, info, c), posts)
                  && forall j | 0 <= j < i :: !Acceptable(cfg, info, Normalised(cfg, info, candidates[j]), posts)
  }

  lemma AcceptedMeets(
      cfg: Cfg, site: Site, info: LoopInfo, candidates: seq<Formula>, posts: map<nat, Formula>,
      accepted: Option<Formula>)
    requires WellSited(cfg, site) && IsLoop(cfg, info) && PostsExact(cfg, {info.backEdge}, site, posts)
    requires FirstAcceptable(cfg, info, candidates, posts, accepted)
    ensures accepted.Some? <==> SomeMeets(cfg, site, info, candidates)
  {
    forall c | c in candidates
      ensures Acceptable(cfg, info, Normalised(cfg, info, c), posts) <==> Meets(cfg, site, info, c)
    {
      AcceptableMeets(cfg, site, info, c, posts);
    }
  }

  /** The verdict on a graph with one loop. */
  ghost function LoopVerdict(cfg: Cfg, site: Site, info: LoopInfo, candidates: seq<Formula>): Verdict
    requires WellSited(cfg, site) && IsLoop(cfg, info)
  {
    if !SomeMeets(cfg, site, info, candidates) then CyclicUnsupported
    else if SafeFrom(cfg, {info.backEdge}, site) then Verified
    else Inconclusive
  }

  /** The cyclic branch for one back edge. */
  method AnalyzeLoop(
      cfg: Cfg, site: Site, oracle: Oracle, info: LoopInfo, candidates: seq<Formula>, ghost hidden: set<Name>)
    returns (verdict: Verdict)
    requires WellSited(cfg, site) && IsLoop(cfg, info)
    ensures verdict != BugFound
    ensures verdict == Verified && Truthful(oracle) && LoopGraph(cfg, site, info, candidates, hidden) ==>
              SafeTyped(cfg, site)
    ensures Deciding(oracle) && LoopGraph(cfg, site, info, candidates, hidden) && CfgExact(cfg) ==>
              verdict == LoopVerdict(cfg, site, info, candidates)
  {
    var excluded := {info.backEdge};
    var posts := PreliminaryStates(cfg, site, oracle, excluded, hidden);
    if posts.None? {
      return CyclicUnsupported;
    }
    var accepted := FirstAccepted(cfg, info, candidates, posts.value, oracle, hidden);
    if Deciding(oracle) && LoopGraph(cfg, site, info, candidates, hidden) && CfgExact(cfg) {
      AcceptedMeets(cfg, site, info, candidates, posts.value, accepted);
    }
    if accepted.None? {
      return CyclicUnsupported;
    }
    var rounds;
    verdict, rounds := RunBackward(cfg, site, oracle, excluded, [(info.header, accepted.value)], false, hidden);
    if verdict == Verified && Truthful(oracle) && LoopGraph(cfg, site, info, candidates, hidden) {
      SingleLoopSafe(cfg, info, Normalised(cfg, info, accepted.value), posts.value, site);
    }
  }

  /** The order of the exit edges does not matter. */
  lemma SameVerdict(cfg: Cfg, site: Site, a: LoopInfo, b: LoopInfo, candidates: seq<Formula>)
    requires WellSited(cfg, site) && IsLoop(cfg, a) && IsLoop(cfg, b) && b == a.(exitEdges := b.exitEdges)
    ensures LoopVerdict(cfg, site, a, candidates) == LoopVerdict(cfg, site, b, candidates)
  {
    if c :| c in candidates && Meets(cfg, site, a, c) {
      SameMeets(cfg, site, a, b, c);
      assert SomeMeets(cfg, site, b, candidates);
    }
    if c :| c in candidates && Meets(cfg, site, b, c) {
      SameMeets(cfg, site, b, a, c);
      assert SomeMeets(cfg, site, a, candidates);
    }
  }

  lemma SameMeets(cfg: Cfg, site: Site, a: LoopInfo, b: LoopInfo, candidate: Formula)
    requires WellSited(cfg, site) && IsLoop(cfg, a) && IsLoop(cfg, b) && b == a.(exitEdges := b.exitEdges)
    requires Meets(cfg, site, a, candidate)
    ensures Meets(cfg, site, b, candidate)
  {
    var inv := Normalised(cfg, a, candidate);
    forall x | x in b.exitEdges
      ensures LooselyClosed(cfg, b, inv, x, Doomed(cfg, {b.backEdge}, site, cfg.edges[x].target))
    {
      assert x in a.exitEdges;
      var doomed := Doomed(cfg, {a.backEdge}, site, cfg.edges[x].target);
      forall path, s: State, u: State, t: State | Eval(inv, s) && LooseRun(cfg, b, x, path, s, u, t)
        ensures !doomed(t)
      {
        assert LooseRun(cfg, a, x, path, s, u, t);
      }
    }
    assert Returning(cfg, b, inv);
  }

  /** The one loop of a cyclic graph has a cycle at its header. */
  lemma HeaderCycle(cfg: Cfg, info: LoopInfo) returns (path: seq<nat>)
    requires SingleLoop(cfg, info) && Cyclic(cfg, {})
    ensures path != [] && IsPath(cfg, {}, path, info.header, info.header)
  {
    var b := info.backEdge;
    var n, p :| p != [] && IsPath(cfg, {}, p, n, n);
    assert {} + {b} == {b};
    if b !in p {
      PathWithin(cfg, {}, {b}, p, n, n);
      assert false;
    }
    var i :| 0 <= i < |p| && p[i] == b;
    var m := PathSplit(cfg, {}, p, i + 1, n, n);
    path := p[i + 1..] + p[..i + 1];
    PathConcat(cfg, {}, p[i + 1..], p[..i + 1], info.header, n, info.header);
  }

  /** When the search does not report exactly one back edge, the header of the loop is not reached,
      and no candidate has a first entry. */
  lemma NotDetected(cfg: Cfg, site: Site, info: LoopInfo, candidates: seq<Formula>, back: seq<nat>)
    requires WellSited(cfg, site) && SingleLoop(cfg, info) && Cyclic(cfg, {}) && |back| != 1
    requires forall i, j :: 0 <= i < j < |back| ==> back[i] != back[j]
    requires AllClimb(cfg, back) && CutsCycles(cfg, Ids(back))
    ensures !SomeMeets(cfg, site, info, candidates)
  {
    assert |back| > 1 ==> back[0] != back[1];
    forall i | 0 <= i < |back| ensures back[i] == info.backEdge {
      assert back[i] in back;
      OneBackEdge(cfg, info, back[i]);
    }
    var path := HeaderCycle(cfg, info);
    assert Ids(back) == {};
    assert !Reachable(cfg, info.header);
    if c :| c in candidates && Meets(cfg, site, info, c) {
      NeverEntered(cfg, info, Normalised(cfg, info, c));
    }
  }

  lemma NeverEntered(cfg: Cfg, info: LoopInfo, inv: Formula)
    requires IsLoop(cfg, info) && Initiated(cfg, info, inv)
    ensures Reachable(cfg, info.header)
  {
    var reach, facts :| ReachSolved(cfg, {info.backEdge}, reach, facts) && ClaimsMeet(reach, facts, info.header, inv);
    var s: State :| Claims(reach, facts, info.header, s);
    ReachedConnected(cfg, {info.backEdge}, reach, facts, info.header);
    var p :| IsPath(cfg, {info.backEdge}, p, cfg.entry, info.header);
    PathRelax(cfg, {info.backEdge}, {}, p, cfg.entry, info.header);
  }

  /** `analyze_with_tables` with empty tables, for graphs with at most one back edge. An acyclic
      graph is decided by the engine alone. A graph with one loop needs an accepted invariant;
      Verified then speaks about executions with any number of iterations. Graphs with more back
      edges are outside this model and answered as unsupported. */
  method Analyze(cfg: Cfg, site: Site, oracle: Oracle, candidates: seq<Formula>, ghost hidden: set<Name>)
    returns (verdict: Verdict)
    requires WellSited(cfg, site)
    ensures !Cyclic(cfg, {}) && ValidSetting(Setting(cfg, {}, site), hidden) && GuardsStable(cfg, {})
            && Truthful(oracle) ==>
              verdict != CyclicUnsupported && VerdictSound(Setting(cfg, {}, site), verdict)
              && (Decisive(oracle) && CfgExact(cfg) ==>
                    verdict == if Safe(cfg, site) then Verified else BugFound)
    ensures Cyclic(cfg, {}) ==> verdict != BugFound
    ensures Cyclic(cfg, {}) && verdict == Verified && Truthful(oracle)
            && SingleLoopGraph(cfg, site, candidates, hidden) ==>
              SafeTyped(cfg, site)
    ensures Cyclic(cfg, {}) && Deciding(oracle) && CfgExact(cfg) ==>
              forall info | LoopGraph(cfg, site, info, candidates, hidden) ::
                verdict == LoopVerdict(cfg, site, info, candidates)
  {
    var order := TopologicalOrder(cfg, {});
    var back := DetectBackEdges(cfg);
    BackEdgesIffCycle(cfg, back);
    if order.Some? {
      var rounds;
      verdict, rounds := RunBackward(cfg, site, oracle, {}, [], back == [], hidden);
      return;
    }
    verdict := CyclicUnsupported;
    if |back| == 1 {
      assert back[0] in back;
      var info := DetectLoop(cfg, back[0]);
      verdict := AnalyzeLoop(cfg, site, oracle, info, candidates, hidden);
      forall loop | LoopGraph(cfg, site, loop, candidates, hidden)
        ensures LoopGraph(cfg, site, info, candidates, hidden)
        ensures LoopVerdict(cfg, site, info, candidates) == LoopVerdict(cfg, site, loop, candidates)
      {
        OneBackEdge(cfg, loop, back[0]);
        SameLoop(cfg, loop, info);
        SameVerdict(cfg, site, loop, info, candidates);
      }
    } else {
      forall loop | LoopGraph(cfg, site, loop, candidates, hidden)
        ensures LoopVerdict(cfg, site, loop, candidates) == CyclicUnsupported
      {
        NotDetected(cfg, site, loop, candidates, back);
      }
    }
  }
}
