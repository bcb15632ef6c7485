/** The three-part invariant check of src/analysis/loops/mod.rs, and exactly what it accepts. */
module Acceptance {
  import opened Formulas
  import opened Semantics
  import opened Substitution
  import opened Transfer
  import opened Graphs
  import opened Ordering
  import opened Runs
  import opened Passes
  import opened Oracles
  import opened Reach
  import opened Loops

  // ---- The inductiveness query ----------------------------------------------------------------

  lemma EdgePreLiberal(cfg: Cfg, e: nat, target: Formula, s: State, t: State, hidden: set<Name>)
    requires WellFormed(cfg) && e < |cfg.edges| && EdgeExact(cfg, e)
    requires CfgVisible(cfg, hidden) && Hidden(target) <= hidden && Cross(cfg, e, s, t) && Eval(target, t)
    ensures Eval(EdgePre(cfg, e, true, true, target), s)
  {
    var edge := cfg.edges[e];
    var m :| Run(cfg.nodes[edge.source], s, m) && Eval(edge.guard, m) && Run(edge.effects, m, t);
    var rest := Wp(edge.effects, target);
    WpOver(edge.effects, target, m, t, hidden);
    AndMeaning(edge.guard, rest, m);
    EdgePreHidden(cfg, e, true, true, target, hidden);
    WpInductiveLiberal(cfg.nodes[edge.source], AndOf(edge.guard, rest), s, hidden);
  }

  /** The liberal pass covers every run into the seed. */
  lemma {:induction false} LiberalCovers(
      cfg: Cfg, seed: Seed, dropped: set<nat>, states: seq<Formula>, hidden: set<Name>, path: seq<nat>, n: nat,
      s: State, t: State)
    requires Equations(cfg, LIBERAL, seed, KeptEdges(cfg, dropped), states) && KeptExact(cfg, dropped)
    requires CfgVisible(cfg, hidden) && StatesHidden(states, hidden)
    requires n < |cfg.nodes| && IsPath(cfg, dropped, path, n, seed.node)
    requires Follows(cfg, path, s, t) && Eval(seed.f, t)
    ensures Eval(states[n], s)
    decreases |path|
  {
    if path != [] {
      var e := path[0];
      var m := cfg.edges[e].target;
      var u :| Cross(cfg, e, s, u) && Follows(cfg, path[1..], u, t);
      LiberalCovers(cfg, seed, dropped, states, hidden, path[1..], m, u, t);
      EdgePreLiberal(cfg, e, states[m], s, u, hidden);
      assert SomeEdge(cfg, LIBERAL, KeptEdges(cfg, dropped), states, n, s);
    }
  }

  lemma BodyKeptExact(cfg: Cfg, info: LoopInfo)
    requires IsLoop(cfg, info) && BodyExact(cfg, info.body)
    ensures KeptExact(cfg, Dropped(cfg, {info.backEdge}, Some(info.body)))
  {
    forall e: nat | e < |cfg.edges| && e !in Dropped(cfg, {info.backEdge}, Some(info.body))
      ensures EdgeExact(cfg, e)
    {
      assert e in Below(|cfg.edges|);
      assert InBody(cfg, info.body, e);
    }
  }

  lemma ReturningValid(
      cfg: Cfg, info: LoopInfo, hidden: set<Name>, inv: Formula, around: seq<Formula>, continuing: seq<Formula>,
      s: State)
    requires LoopConditions(cfg, info, hidden) && Hidden(inv) <= hidden
    requires InductivenessPasses(cfg, info, hidden, inv, around, continuing)
    requires HasOrder(cfg, Dropped(cfg, {info.backEdge}, Some(info.body)))
    requires Returning(cfg, info, inv) && Eval(AndOf(inv, continuing[info.header]), s)
    ensures Eval(around[info.header], s)
  {
    var dropped := Dropped(cfg, {info.backEdge}, Some(info.body));
    AndMeaning(inv, continuing[info.header], s);
    BodyKeptExact(cfg, info);
    PassLeads(cfg, Seed(info.latch, True), dropped, continuing, hidden, info.header, s);
    var path, u :| IsPath(cfg, dropped, path, info.header, info.latch) && Follows(cfg, path, s, u) && Eval(True, u);
    PathRelax(cfg, dropped, {info.backEdge}, path, info.header, info.latch);
    assert InBody(cfg, info.body, info.backEdge);
    EdgePreExact(cfg, info.backEdge, inv, u, hidden);
    LiberalCovers(cfg, Seed(info.latch, EdgePre(cfg, info.backEdge, true, false, inv)), dropped, around, hidden,
                  path, info.header, s, u);
  }

  /** The inductiveness query is valid exactly when every run round the loop from an invariant state
      can return into the invariant. */
  lemma InductivenessExact(
      cfg: Cfg, info: LoopInfo, hidden: set<Name>, inv: Formula, around: seq<Formula>, continuing: seq<Formula>)
    requires LoopConditions(cfg, info, hidden) && Hidden(inv) <= hidden
    requires InductivenessPasses(cfg, info, hidden, inv, around, continuing)
    requires HasOrder(cfg, Dropped(cfg, {info.backEdge}, Some(info.body)))
    ensures Entails(AndOf(inv, continuing[info.header]), around[info.header]) <==> Returning(cfg, info, inv)
  {
    if Returning(cfg, info, inv) {
      forall s: State | Eval(AndOf(inv, continuing[info.header]), s) ensures Eval(around[info.header], s) {
        ReturningValid(cfg, info, hidden, inv, around, continuing, s);
      }
    } else if Entails(AndOf(inv, continuing[info.header]), around[info.header]) {
      InductiveCheck(cfg, info, hidden, inv, around, continuing);
    }
  }

  // ---- The exit query -------------------------------------------------------------------------

  /** The graph with every guard dropped, as the exit pass sees it. */
  function Unguarded(cfg: Cfg): Cfg {
    Cfg(cfg.nodes, seq(|cfg.edges|, i requires 0 <= i < |cfg.edges| => cfg.edges[i].(guard := True)), cfg.entry)
  }

  /** A run that ignores guards leads from the header to the source of the edge and crosses it. */
  ghost predicate LooseRun(cfg: Cfg, info: LoopInfo, x: nat, path: seq<nat>, s: State, u: State, t: State)
    requires IsLoop(cfg, info) && x < |cfg.edges|
  {
    IsPath(cfg, {info.backEdge}, path, info.header, cfg.edges[x].source)
    && Follows(Unguarded(cfg), path, s, u) && Cross(cfg, x, u, t)
  }

  /** From an invariant state at the header, no run that ignores the guards of the body crosses the
      exit edge into the postcondition. */
  ghost predicate LooselyClosed(cfg: Cfg, info: LoopInfo, inv: Formula, x: nat, post: State -> bool)
    requires IsLoop(cfg, info) && x < |cfg.edges|
  {
    forall path, s: State, u: State, t: State | Eval(inv, s) && LooseRun(cfg, info, x, path, s, u, t) :: !post(t)
  }

  ghost function Holding(f: Formula): State -> bool {
    (s: State) => Eval(f, s)
  }

  lemma {:induction false} UnguardedPath(cfg: Cfg, excluded: set<nat>, path: seq<nat>, n: nat, m: nat)
    ensures IsPath(Unguarded(cfg), excluded, path, n, m) <==> IsPath(cfg, excluded, path, n, m)
    decreases |path|
  {
    if path != [] && path[0] < |cfg.edges| {
      UnguardedPath(cfg, excluded, path[1..], cfg.edges[path[0]].target, m);
    }
  }

  lemma UnguardedConditions(cfg: Cfg, hidden: set<Name>)
    requires WellFormed(cfg) && CfgVisible(cfg, hidden) && CfgExact(cfg)
    ensures var loose := Unguarded(cfg);
            WellFormed(loose) && CfgVisible(loose, hidden) && CfgExact(loose)
  {
    var loose := Unguarded(cfg);
    forall e | 0 <= e < |loose.edges|
      ensures Visible(loose.edges[e].effects, hidden) && Hidden(loose.edges[e].guard) <= hidden
      ensures Exact(loose.edges[e].effects)
    {
      assert loose.edges[e].effects == cfg.edges[e].effects;
    }
  }

  lemma UnguardedOrder(cfg: Cfg, excluded: set<nat>)
    requires HasOrder(cfg, excluded)
    ensures HasOrder(Unguarded(cfg), excluded)
  {
    var order :| IsTopological(cfg, excluded, order);
    assert IsTopological(Unguarded(cfg), excluded, order);
  }

  lemma UnguardedPass(cfg: Cfg, seed: Seed, done: set<nat>, states: seq<Formula>)
    requires Equations(cfg, Mode(false, false), seed, done, states)
    ensures Equations(Unguarded(cfg), PLAIN, seed, done, states)
  {
    var loose := Unguarded(cfg);
    forall e: nat | e < |cfg.edges| ensures Pre(loose, e, PLAIN, states) == Pre(cfg, e, Mode(false, false), states) {
    }
    forall n, s: State | 0 <= n < |states|
      ensures SomeEdge(loose, PLAIN, done, states, n, s) <==> SomeEdge(cfg, Mode(false, false), done, states, n, s)
    {
      if e :|
          e in done && e < |cfg.edges| && cfg.edges[e].source == n && Eval(Pre(cfg, e, Mode(false, false), states), s) {
        assert loose.edges[e].source == n && Eval(Pre(loose, e, PLAIN, states), s);
      }
      if e :| e in done && e < |cfg.edges| && loose.edges[e].source == n && Eval(Pre(loose, e, PLAIN, states), s) {
        assert cfg.edges[e].source == n && Eval(Pre(cfg, e, Mode(false, false), states), s);
      }
    }
  }

  /** The pass behind the exit query of `x`. */
  ghost predicate ExitPass(
      cfg: Cfg, info: LoopInfo, hidden: set<Name>, x: nat, post: Formula, exits: seq<Formula>)
    requires IsLoop(cfg, info) && x < |cfg.edges|
  {
    && StatesHidden(exits, hidden)
    && Equations(cfg, Mode(false, false), Seed(cfg.edges[x].source, EdgePre(cfg, x, true, false, post)),
                 KeptEdges(cfg, Dropped(cfg, {info.backEdge}, Some(info.body))), exits)
  }

  /** The exit pass at the header: some run that ignores guards leads over the edge. */
  lemma ExitReached(
      cfg: Cfg, info: LoopInfo, hidden: set<Name>, x: nat, post: Formula, exits: seq<Formula>, s: State)
    requires SingleLoop(cfg, info) && CfgExact(cfg) && CfgVisible(cfg, hidden) && Hidden(post) <= hidden
    requires x < |cfg.edges| && cfg.edges[x].source in info.body && ExitPass(cfg, info, hidden, x, post, exits)
    requires HasOrder(cfg, Dropped(cfg, {info.backEdge}, Some(info.body)))
    ensures Eval(exits[info.header], s) <==>
            exists path, u: State, t: State :: LooseRun(cfg, info, x, path, s, u, t) && Eval(post, t)
  {
    var loose, dropped := Unguarded(cfg), Dropped(cfg, {info.backEdge}, Some(info.body));
    var source := cfg.edges[x].source;
    var seed := Seed(source, EdgePre(cfg, x, true, false, post));
    UnguardedConditions(cfg, hidden);
    UnguardedOrder(cfg, dropped);
    UnguardedPass(cfg, seed, KeptEdges(cfg, dropped), exits);
    assert KeptEdges(loose, dropped) == KeptEdges(cfg, dropped);
    PassExact(loose, seed, dropped, exits, hidden, info.header, s);
    if Eval(exits[info.header], s) {
      var path, u :| IsPath(loose, dropped, path, info.header, source) && Follows(loose, path, s, u) && Eval(seed.f, u);
      UnguardedPath(cfg, dropped, path, info.header, source);
      PathRelax(cfg, dropped, {info.backEdge}, path, info.header, source);
      EdgePreExact(cfg, x, post, u, hidden);
      var t: State :| Cross(cfg, x, u, t) && Eval(post, t);
      assert LooseRun(cfg, info, x, path, s, u, t);
    }
    if path, u: State, t: State :| LooseRun(cfg, info, x, path, s, u, t) && Eval(post, t) {
      PathInBody(cfg, info, path, source);
      UnguardedPath(cfg, dropped, path, info.header, source);
      EdgePreExact(cfg, x, post, u, hidden);
      assert LeadsTo(loose, dropped, seed, info.header, s);
    }
  }

  /** The exit query is infeasible exactly when the exit is loosely closed. */
  lemma ExitExact(
      cfg: Cfg, info: LoopInfo, hidden: set<Name>, inv: Formula, x: nat, post: Formula, exits: seq<Formula>)
    requires SingleLoop(cfg, info) && CfgExact(cfg) && CfgVisible(cfg, hidden) && Hidden(post) <= hidden
    requires x < |cfg.edges| && cfg.edges[x].source in info.body && ExitPass(cfg, info, hidden, x, post, exits)
    requires HasOrder(cfg, Dropped(cfg, {info.backEdge}, Some(info.body)))
    ensures !Satisfiable(AndOf(inv, exits[info.header])) <==> LooselyClosed(cfg, info, inv, x, Holding(post))
  {
    forall s: State
      ensures Eval(AndOf(inv, exits[info.header]), s) <==> Eval(inv, s) && Eval(exits[info.header], s)
    {
      AndMeaning(inv, exits[info.header], s);
    }
    if s: State :| Eval(AndOf(inv, exits[info.header]), s) {
      ExitReached(cfg, info, hidden, x, post, exits, s);
    }
    if path, s: State, u: State, t: State :| Eval(inv, s) && LooseRun(cfg, info, x, path, s, u, t) && Eval(post, t) {
      ExitReached(cfg, info, hidden, x, post, exits, s);
    }
  }

  /** An oracle that always gives the right one of the two answers. */
  ghost predicate Deciding(oracle: Oracle) {
    Truthful(oracle) && Decisive(oracle)
  }

  // ---- Initiation -----------------------------------------------------------------------------

  /** What the forward pass claims of the header. */
  ghost predicate Claims(reach: seq<Formula>, facts: seq<StoreFacts>, header: nat, s: State) {
    header < |reach| == |facts| && Eval(reach[header], s) && FactsHold(facts[header], s)
  }

  /** The invariant holds wherever first entries are claimed, and there is a claim. */
  ghost predicate ClaimsMeet(reach: seq<Formula>, facts: seq<StoreFacts>, header: nat, inv: Formula) {
    (forall s: State | Claims(reach, facts, header, s) :: Eval(inv, s))
    && exists s: State :: Claims(reach, facts, header, s)
  }

  /** The invariant holds on the first entries that the forward pass claims. The pass has one
      solution. */
  ghost predicate Initiated(cfg: Cfg, info: LoopInfo, inv: Formula)
    requires IsLoop(cfg, info)
  {
    exists reach, facts ::
      ReachSolved(cfg, {info.backEdge}, reach, facts) && ClaimsMeet(reach, facts, info.header, inv)
  }

  lemma SolvedSame(
      cfg: Cfg, excluded: set<nat>, reach: seq<Formula>, facts: seq<StoreFacts>, reach': seq<Formula>,
      facts': seq<StoreFacts>)
    requires ReachSolved(cfg, excluded, reach, facts) && ReachSolved(cfg, excluded, reach', facts')
    ensures reach == reach' && facts == facts'
  {
    var order :| IsTopological(cfg, excluded, order);
    forall n | 0 <= n < |reach| ensures reach[n] == reach'[n] && facts[n] == facts'[n] {
      assert n in order;
      var i :| 0 <= i < |order| && order[i] == n;
      SolutionUnique(cfg, excluded, order, i, reach, facts, reach', facts');
    }
  }

  lemma InitiatedBy(cfg: Cfg, info: LoopInfo, inv: Formula, reach: seq<Formula>, facts: seq<StoreFacts>)
    requires IsLoop(cfg, info) && ReachSolved(cfg, {info.backEdge}, reach, facts)
    ensures Initiated(cfg, info, inv) <==> ClaimsMeet(reach, facts, info.header, inv)
  {
    if Initiated(cfg, info, inv) {
      var reach', facts' :|
        ReachSolved(cfg, {info.backEdge}, reach', facts') && ClaimsMeet(reach', facts', info.header, inv);
      SolvedSame(cfg, {info.backEdge}, reach', facts', reach, facts);
    }
  }

  lemma EntailedMeaning(f: Formula, g: Formula)
    requires Entails(f, g)
    ensures Satisfiable(AndOf(f, g)) <==> Satisfiable(f)
  {
    forall s: State ensures Eval(AndOf(f, g), s) <==> Eval(f, s) && Eval(g, s) {
      AndMeaning(f, g, s);
    }
    if s: State :| Eval(f, s) {
      assert Eval(AndOf(f, g), s);
    }
  }

  lemma InitiationExact(
      cfg: Cfg, info: LoopInfo, inv: Formula, reachH: Formula, reach: seq<Formula>, facts: seq<StoreFacts>)
    requires IsLoop(cfg, info) && ReachSolved(cfg, {info.backEdge}, reach, facts)
    requires forall s: State :: Eval(reachH, s) <==> Eval(reach[info.header], s) && FactsHold(facts[info.header], s)
    ensures Entails(reachH, inv) && Satisfiable(AndOf(reachH, inv)) <==> Initiated(cfg, info, inv)
  {
    if Entails(reachH, inv) {
      EntailedMeaning(reachH, inv);
    }
    InitiatedBy(cfg, info, inv, reach, facts);
    forall s: State ensures Eval(reachH, s) <==> Claims(reach, facts, info.header, s) {
    }
    if s: State :| Eval(reachH, s) {
      assert Claims(reach, facts, info.header, s);
    }
    if s: State :| Claims(reach, facts, info.header, s) {
      assert Eval(reachH, s);
    }
  }

  // ---- The check ----------------------------------------------------------------------------

  datatype CheckResult =
    | Accepted
    | InitiationFailed
    | InductivenessFailed
    | ExitClosureFailed(exitEdge: nat)

  /** The candidate at the entry of the header: its precondition through the header's effects. */
  function Normalised(cfg: Cfg, info: LoopInfo, candidate: Formula): Formula
    requires IsLoop(cfg, info)
  {
    Wp(cfg.nodes[info.header], candidate)
  }

  ghost predicate PostsHidden(posts: map<nat, Formula>, hidden: set<Name>) {
    forall n | n in posts :: Hidden(posts[n]) <= hidden
  }

  method CheckInitiation(inv: Formula, reach: Formula, oracle: Oracle, k0: nat) returns (ok: bool, k: nat)
    ensures ok && Truthful(oracle) ==>
              Entails(reach, inv) && Satisfiable(AndOf(reach, inv)) && Satisfiable(inv)
    ensures Deciding(oracle) ==> (ok <==> Entails(reach, inv) && Satisfiable(AndOf(reach, inv)))
  {
    k := k0 + 1;
    forall s: State ensures Eval(AndOf(reach, inv), s) <==> Eval(reach, s) && Eval(inv, s) {
      AndMeaning(reach, inv, s);
    }
    if oracle(k0, inv) == Answered(Infeasible) {
      return false, k;
    }
    if Truthful(oracle) {
      RefutationMeaning(oracle, k0 + 1, reach, inv);
    }
    k := k0 + 2;
    if oracle(k0 + 1, Refutation(reach, inv)) != Answered(Infeasible) {
      return false, k;
    }
    k := k0 + 3;
    ok := oracle(k0 + 2, AndOf(reach, inv)) == Answered(Feasible);
  }

  /** The queries of initiation, about the reach formula of the header. */
  method CheckEntry(cfg: Cfg, info: LoopInfo, inv: Formula, oracle: Oracle, k0: nat) returns (ok: bool, k: nat)
    requires IsLoop(cfg, info)
    ensures ok && Truthful(oracle) ==> Satisfiable(inv)
    ensures ok && Truthful(oracle) && KeepsMentioned(cfg, {info.backEdge}, info.header) ==> HoldsOnEntry(cfg, info, inv)
    ensures Deciding(oracle) && SingleLoop(cfg, info) ==> (ok <==> Initiated(cfg, info, inv))
  {
    var reachH;
    ghost var reach, facts;
    reachH, reach, facts := ForwardReachAtHeader(cfg, {info.backEdge}, info.header);
    ok, k := CheckInitiation(inv, reachH, oracle, k0);
    if SingleLoop(cfg, info) {
      InitiationExact(cfg, info, inv, reachH, reach, facts);
    }
  }

  method CheckInductiveness(
      cfg: Cfg, info: LoopInfo, inv: Formula, oracle: Oracle, k0: nat, ghost hidden: set<Name>)
    returns (ok: bool, k: nat)
    requires IsLoop(cfg, info)
    ensures ok && Truthful(oracle) && LoopConditions(cfg, info, hidden) && Hidden(inv) <= hidden ==>
              Inductive(cfg, info, inv)
    ensures Deciding(oracle) && LoopConditions(cfg, info, hidden) && Hidden(inv) <= hidden ==>
              (ok <==> Returning(cfg, info, inv))
  {
    k := k0;
    var requirement := EdgePre(cfg, info.backEdge, true, false, inv);
    var around := BackwardStates(cfg, Seed(info.latch, requirement), {info.backEdge}, Some(info.body), LIBERAL, hidden);
    if around.None? {
      return false, k;
    }
    var continuing := BackwardStates(cfg, Seed(info.latch, True), {info.backEdge}, Some(info.body), PLAIN, hidden);
    var guard := if continuing.None? then True else continuing.value[info.header];
    k := k0 + 1;
    ok := oracle(k0, Refutation(AndOf(inv, guard), around.value[info.header])) == Answered(Infeasible);
    if Truthful(oracle) && LoopConditions(cfg, info, hidden) && Hidden(inv) <= hidden {
      RefutationMeaning(oracle, k0, AndOf(inv, guard), around.value[info.header]);
      EdgePreHidden(cfg, info.backEdge, true, false, inv, hidden);
      InductivenessExact(cfg, info, hidden, inv, around.value, continuing.value);
      if ok {
        ReturningInductive(cfg, info, inv);
      }
    }
  }

  /** No crossing of `x` from an invariant header state ends in its postcondition. */
  ghost predicate ExitEdgeClosed(cfg: Cfg, info: LoopInfo, inv: Formula, x: nat, post: Formula)
    requires IsLoop(cfg, info) && x < |cfg.edges|
  {
    forall path, s: State, u: State, t: State |
      Eval(inv, s) && IsPath(cfg, {info.backEdge}, path, info.header, cfg.edges[x].source)
      && Follows(cfg, path, s, u) && Cross(cfg, x, u, t) ::
      !Eval(post, t)
  }

  method CheckExit(
      cfg: Cfg, info: LoopInfo, inv: Formula, x: nat, post: Formula, oracle: Oracle, k0: nat,
      ghost hidden: set<Name>)
    returns (ok: bool, k: nat)
    requires IsLoop(cfg, info) && x in info.exitEdges
    ensures ok && Truthful(oracle) && SingleLoop(cfg, info) && CfgModelled(cfg) && CfgVisible(cfg, hidden)
            && Hidden(post) <= hidden ==>
              ExitEdgeClosed(cfg, info, inv, x, post)
    ensures Deciding(oracle) && SingleLoop(cfg, info) && CfgExact(cfg) && CfgVisible(cfg, hidden)
            && Hidden(post) <= hidden ==>
              (ok <==> LooselyClosed(cfg, info, inv, x, Holding(post)))
  {
    k := k0;
    var source := cfg.edges[x].source;
    var requirement := EdgePre(cfg, x, true, false, post);
    var exits := BackwardStates(cfg, Seed(source, requirement), {info.backEdge}, Some(info.body),
                                Mode(false, false), hidden);
    if exits.None? {
      return false, k;
    }
    k := k0 + 1;
    ok := oracle(k0, AndOf(inv, exits.value[info.header])) == Answered(Infeasible);
    if ok && Truthful(oracle) && SingleLoop(cfg, info) && CfgModelled(cfg) && CfgVisible(cfg, hidden)
       && Hidden(post) <= hidden {
      EdgePreHidden(cfg, x, true, false, post, hidden);
      forall path, s: State, u: State, t: State |
        Eval(inv, s) && IsPath(cfg, {info.backEdge}, path, info.header, source)
        && Follows(cfg, path, s, u) && Cross(cfg, x, u, t)
        ensures !Eval(post, t)
      {
        ExitCheck(cfg, info, hidden, inv, x, post, exits.value, path, s, u, t);
      }
    }
    if Deciding(oracle) && SingleLoop(cfg, info) && CfgExact(cfg) && CfgVisible(cfg, hidden) && Hidden(post) <= hidden {
      EdgePreHidden(cfg, x, true, false, post, hidden);
      ExitExact(cfg, info, hidden, inv, x, post, exits.value);
    }
  }

  /** The exit has a postcondition and is open. */
  ghost predicate OpenExit(cfg: Cfg, info: LoopInfo, inv: Formula, posts: map<nat, Formula>, x: nat)
    requires IsLoop(cfg, info)
  {
    x in info.exitEdges && cfg.edges[x].target in posts
    && !LooselyClosed(cfg, info, inv, x, Holding(posts[cfg.edges[x].target]))
  }

  /** One exit edge: nothing to ask when its target has no postcondition. */
  method CheckExitAt(
      cfg: Cfg, info: LoopInfo, inv: Formula, posts: map<nat, Formula>, x: nat, oracle: Oracle, k0: nat,
      ghost hidden: set<Name>)
    returns (ok: bool, k: nat)
    requires IsLoop(cfg, info) && x in info.exitEdges
    ensures ok && Truthful(oracle) && LoopConditions(cfg, info, hidden) && PostsHidden(posts, hidden) ==>
              cfg.edges[x].target in posts ==> ExitEdgeClosed(cfg, info, inv, x, posts[cfg.edges[x].target])
    ensures Deciding(oracle) && LoopConditions(cfg, info, hidden) && CfgExact(cfg) && PostsHidden(posts, hidden) ==>
              (ok <==> !OpenExit(cfg, info, inv, posts, x))
  {
    var target := cfg.edges[x].target;
    if target !in posts || posts[target] == False {
      return true, k0;
    }
    ok, k := CheckExit(cfg, info, inv, x, posts[target], oracle, k0, hidden);
  }

  lemma ExitsClosed(cfg: Cfg, info: LoopInfo, inv: Formula, posts: map<nat, Formula>)
    requires IsLoop(cfg, info)
    requires forall x | x in info.exitEdges && cfg.edges[x].target in posts ::
               ExitEdgeClosed(cfg, info, inv, x, posts[cfg.edges[x].target])
    ensures ExitClosed(cfg, info, inv, posts)
  {
    forall x, path, s: State, u: State, t: State |
      x in info.exitEdges && cfg.edges[x].target in posts && Eval(inv, s)
      && IsPath(cfg, {info.backEdge}, path, info.header, cfg.edges[x].source) && Follows(cfg, path, s, u)
      && Cross(cfg, x, u, t)
      ensures !Eval(posts[cfg.edges[x].target], t)
    {
      assert ExitEdgeClosed(cfg, info, inv, x, posts[cfg.edges[x].target]);
    }
  }

  method CheckExits(
      cfg: Cfg, info: LoopInfo, inv: Formula, posts: map<nat, Formula>, oracle: Oracle, k0: nat,
      ghost hidden: set<Name>)
    returns (failed: Option<nat>, k: nat)
    requires IsLoop(cfg, info)
    ensures failed.None? && Truthful(oracle) && LoopConditions(cfg, info, hidden) && PostsHidden(posts, hidden) ==>
              ExitClosed(cfg, info, inv, posts)
    ensures Deciding(oracle) && LoopConditions(cfg, info, hidden) && CfgExact(cfg) && PostsHidden(posts, hidden) ==>
              if failed.Some? then OpenExit(cfg, info, inv, posts, failed.value)
              else forall x: nat :: !OpenExit(cfg, info, inv, posts, x)
  {
    k := k0;
    ghost var sound := Truthful(oracle) && LoopConditions(cfg, info, hidden) && PostsHidden(posts, hidden);
    ghost var exact := sound && Decisive(oracle) && CfgExact(cfg);
    for i := 0 to |info.exitEdges|
      invariant sound ==> forall x | x in info.exitEdges[..i] && x < |cfg.edges| && cfg.edges[x].target in posts ::
                  ExitEdgeClosed(cfg, info, inv, x, posts[cfg.edges[x].target])
      invariant exact ==> forall x | x in info.exitEdges[..i] :: !OpenExit(cfg, info, inv, posts, x)
    {
      var x := info.exitEdges[i];
      assert x in info.exitEdges;
      assert info.exitEdges[..i + 1] == info.exitEdges[..i] + [x];
      var ok;
      ok, k := CheckExitAt(cfg, info, inv, posts, x, oracle, k, hidden);
      if !ok {
        return Some(x), k;
      }
    }
    assert info.exitEdges[..|info.exitEdges|] == info.exitEdges;
    failed := None;
    if sound {
      ExitsClosed(cfg, info, inv, posts);
    }
  }

  /** The three conditions of acceptance. */
  ghost predicate Acceptable(cfg: Cfg, info: LoopInfo, inv: Formula, posts: map<nat, Formula>)
    requires IsLoop(cfg, info)
  {
    Initiated(cfg, info, inv) && Returning(cfg, info, inv) && forall x: nat :: !OpenExit(cfg, info, inv, posts, x)
  }

  /** The results of the check, in the order in which it asks. */
  ghost predicate ResultExact(
      cfg: Cfg, info: LoopInfo, inv: Formula, posts: map<nat, Formula>, result: CheckResult)
    requires IsLoop(cfg, info)
  {
    && (result == InitiationFailed <==> !Initiated(cfg, info, inv))
    && (result == InductivenessFailed <==> Initiated(cfg, info, inv) && !Returning(cfg, info, inv))
    && (result == Accepted <==> Acceptable(cfg, info, inv, posts))
    && (result.ExitClosureFailed? ==> OpenExit(cfg, info, inv, posts, result.exitEdge))
  }

  /** Inductiveness and exit closure of the normalised candidate. */
  method CheckBody(
      cfg: Cfg, info: LoopInfo, inv: Formula, posts: map<nat, Formula>, oracle: Oracle, k0: nat,
      ghost hidden: set<Name>)
    returns (result: CheckResult, k: nat)
    requires IsLoop(cfg, info)
    ensures result != InitiationFailed
    ensures result == Accepted && Truthful(oracle) && LoopConditions(cfg, info, hidden)
            && Hidden(inv) <= hidden && PostsHidden(posts, hidden) ==>
              Inductive(cfg, info, inv) && ExitClosed(cfg, info, inv, posts)
    ensures Deciding(oracle) && LoopConditions(cfg, info, hidden) && CfgExact(cfg)
            && Hidden(inv) <= hidden && PostsHidden(posts, hidden) && Initiated(cfg, info, inv) ==>
              ResultExact(cfg, info, inv, posts, result)
  {
    var ok;
    ok, k := CheckInductiveness(cfg, info, inv, oracle, k0, hidden);
    if !ok {
      result := InductivenessFailed;
      return;
    }
    var failed;
    failed, k := CheckExits(cfg, info, inv, posts, oracle, k, hidden);
    result := if failed.Some? then ExitClosureFailed(failed.value) else Accepted;
  }

  /** `check_loop_invariant_verbose`, without the witness models. What acceptance means for runs
      is stated for truthful oracles and under conditions on the graph; with an oracle that decides
      and exact effects every result is given exactly when its reason holds. */
  method CheckLoopInvariant(
      cfg: Cfg, info: LoopInfo, candidate: Formula, posts: map<nat, Formula>, oracle: Oracle, k0: nat,
      ghost hidden: set<Name>)
    returns (result: CheckResult, k: nat)
    requires IsLoop(cfg, info)
    ensures result == Accepted && Truthful(oracle) ==> Satisfiable(Normalised(cfg, info, candidate))
    ensures result == Accepted && Truthful(oracle) && KeepsMentioned(cfg, {info.backEdge}, info.header) ==>
              HoldsOnEntry(cfg, info, Normalised(cfg, info, candidate))
    ensures result == Accepted && Truthful(oracle) && LoopConditions(cfg, info, hidden)
            && Hidden(candidate) <= hidden && PostsHidden(posts, hidden) ==>
              Inductive(cfg, info, Normalised(cfg, info, candidate))
              && ExitClosed(cfg, info, Normalised(cfg, info, candidate), posts)
    ensures Deciding(oracle) && LoopConditions(cfg, info, hidden) && CfgExact(cfg)
            && Hidden(candidate) <= hidden && PostsHidden(posts, hidden) ==>
              ResultExact(cfg, info, Normalised(cfg, info, candidate), posts, result)
  {
    var inv := ComputeWp(false, cfg.nodes[info.header], candidate);
    var ok;
    ok, k := CheckEntry(cfg, info, inv, oracle, k0);
    if !ok {
      result := InitiationFailed;
      return;
    }
    if LoopConditions(cfg, info, hidden) && Hidden(candidate) <= hidden {
      WpHidden(false, cfg.nodes[info.header], candidate, hidden);
    }
    result, k := CheckBody(cfg, info, inv, posts, oracle, k, hidden);
  }
}
