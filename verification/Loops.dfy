/** Natural loops and the three-part invariant check of src/analysis/loops/mod.rs, for one loop. */
module Loops {
  import opened Formulas
  import opened Semantics
  import opened Substitution
  import opened Transfer
  import opened Graphs
  import opened Ordering
  import opened Runs
  import opened Passes
  import opened Reach

  datatype LoopInfo = LoopInfo(header: nat, latch: nat, backEdge: nat, body: set<nat>, exitEdges: seq<nat>)

  // ---- Detection ----------------------------------------------------------------------------

  /** A path to the latch that never enters the header. */
  ghost predicate Avoiding(cfg: Cfg, header: nat, path: seq<nat>, n: nat, m: nat) {
    IsPath(cfg, {}, path, n, m) && forall e | e in path :: e < |cfg.edges| && cfg.edges[e].target != header
  }

  /** The natural loop: the header and the nodes that reach the latch without entering it. */
  ghost predicate InNaturalLoop(cfg: Cfg, header: nat, latch: nat, n: nat) {
    n == header || exists path :: Avoiding(cfg, header, path, n, latch)
  }

  /** What the search collects: the natural loop, unless the latch is the header itself. Then the
      search does not stop at the header and finds every node that reaches it. */
  ghost predicate InLoop(cfg: Cfg, header: nat, latch: nat, n: nat) {
    if header == latch then Connected(cfg, {}, n, header) else InNaturalLoop(cfg, header, latch, n)
  }

  ghost predicate IsBody(cfg: Cfg, header: nat, latch: nat, body: set<nat>) {
    forall n: nat | n < |cfg.nodes| || n in body :: n in body <==> n < |cfg.nodes| && InLoop(cfg, header, latch, n)
  }

  /** Every predecessor of a body node other than the header is in the body. */
  ghost predicate ClosedBody(cfg: Cfg, header: nat, body: set<nat>) {
    forall e: nat | e < |cfg.edges| && cfg.edges[e].target in body && cfg.edges[e].target != header ::
      cfg.edges[e].source in body
  }

  ghost predicate BodySoFar(cfg: Cfg, header: nat, latch: nat, body: set<nat>, queue: seq<nat>) {
    && body <= Below(|cfg.nodes|) && header in body && latch in body
    && (forall n | n in queue :: n in body && (header != latch ==> n != header))
    && (forall n | n in body :: InLoop(cfg, header, latch, n))
    && (forall e: nat | e < |cfg.edges| && cfg.edges[e].target in body && cfg.edges[e].target !in queue
                        && (header != latch ==> cfg.edges[e].target != header) ::
          cfg.edges[e].source in body)
  }

  /** The backward search from the latch. */
  method LoopBody(cfg: Cfg, header: nat, latch: nat) returns (body: set<nat>)
    requires WellFormed(cfg) && header < |cfg.nodes| && latch < |cfg.nodes|
    ensures header in body && latch in body && ClosedBody(cfg, header, body)
    ensures IsBody(cfg, header, latch, body)
  {
    body := {header, latch};
    var queue := [latch];
    assert IsPath(cfg, {}, [], latch, latch) && Avoiding(cfg, header, [], latch, latch);
    while queue != []
      invariant BodySoFar(cfg, header, latch, body, queue)
      decreases Below(|cfg.nodes|) - body, |queue|
    {
      var node := queue[0];
      ghost var bodyBefore, queueBefore := body, queue;
      queue := queue[1..];
      assert queueBefore == [node] + queue;
      var incoming := Incoming(cfg, node);
      for j := 0 to |incoming|
        invariant bodyBefore <= body <= Below(|cfg.nodes|)
        invariant body == bodyBefore ==> queue == queueBefore[1..]
        invariant forall n | n in queueBefore[1..] :: n in queue
        invariant forall n | n in body :: n in bodyBefore || n in queue
        invariant forall n | n in queue :: n in body && (header != latch ==> n != header)
        invariant forall n | n in body :: InLoop(cfg, header, latch, n)
        invariant forall e: nat | e in incoming[..j] && e < |cfg.edges| :: cfg.edges[e].source in body
      {
        var e := incoming[j];
        assert e in incoming;
        assert incoming[..j + 1] == incoming[..j] + [e];
        var pred := cfg.edges[e].source;
        if pred !in body {
          StepsInto(cfg, header, latch, e);
          body := body + {pred};
          queue := queue + [pred];
        }
      }
      assert incoming[..|incoming|] == incoming;
    }
    forall n: nat | n < |cfg.nodes| && InLoop(cfg, header, latch, n) ensures n in body {
      if header == latch {
        var path :| IsPath(cfg, {}, path, n, header);
        ReachesIn(cfg, header, true, body, path, n, header);
      } else if n != header {
        var path :| Avoiding(cfg, header, path, n, latch);
        ReachesIn(cfg, header, false, body, path, n, latch);
      }
    }
  }

  lemma StepsInto(cfg: Cfg, header: nat, latch: nat, e: nat)
    requires WellFormed(cfg) && e < |cfg.edges| && InLoop(cfg, header, latch, cfg.edges[e].target)
    requires header != latch ==> cfg.edges[e].target != header
    ensures InLoop(cfg, header, latch, cfg.edges[e].source)
  {
    var m := cfg.edges[e].target;
    if header == latch {
      var path := Prepend(cfg, {}, e, header);
    } else {
      var path :| Avoiding(cfg, header, path, m, latch);
      assert ([e] + path)[1..] == path;
      assert Avoiding(cfg, header, [e] + path, cfg.edges[e].source, latch);
    }
  }

  lemma {:induction false} ReachesIn(cfg: Cfg, header: nat, all: bool, body: set<nat>, path: seq<nat>, n: nat, m: nat)
    requires IsPath(cfg, {}, path, n, m) && m in body && (all || Avoiding(cfg, header, path, n, m))
    requires forall e: nat | e < |cfg.edges| && cfg.edges[e].target in body && (all || cfg.edges[e].target != header) ::
               cfg.edges[e].source in body
    ensures n in body
    decreases |path|
  {
    if path != [] {
      assert path[0] in path && forall e | e in path[1..] :: e in path;
      ReachesIn(cfg, header, all, body, path[1..], cfg.edges[path[0]].target, m);
    }
  }

  ghost predicate IsLoop(cfg: Cfg, info: LoopInfo) {
    && WellFormed(cfg) && info.backEdge < |cfg.edges|
    && info.header == cfg.edges[info.backEdge].target && info.latch == cfg.edges[info.backEdge].source
    && info.header in info.body && info.latch in info.body
    && ClosedBody(cfg, info.header, info.body) && IsBody(cfg, info.header, info.latch, info.body)
    && forall e: nat :: e in info.exitEdges <==>
         e < |cfg.edges| && cfg.edges[e].source in info.body && cfg.edges[e].target !in info.body
  }

  /** Those of the edges that lead out of the body, in order. */
  method LeavingEdges(cfg: Cfg, body: set<nat>, edges: seq<nat>) returns (leaving: seq<nat>)
    requires forall j | 0 <= j < |edges| :: edges[j] < |cfg.edges|
    ensures forall e: nat :: e in leaving <==> e in edges && e < |cfg.edges| && cfg.edges[e].target !in body
  {
    leaving := [];
    for j := 0 to |edges|
      invariant forall e: nat :: e in leaving <==> e in edges[..j] && e < |cfg.edges| && cfg.edges[e].target !in body
    {
      assert edges[..j + 1] == edges[..j] + [edges[j]];
      if cfg.edges[edges[j]].target !in body {
        leaving := leaving + [edges[j]];
      }
    }
    assert edges[..|edges|] == edges;
  }

  method DetectLoop(cfg: Cfg, backEdge: nat) returns (info: LoopInfo)
    requires WellFormed(cfg) && backEdge < |cfg.edges|
    ensures IsLoop(cfg, info) && info.backEdge == backEdge
  {
    var header, latch := cfg.edges[backEdge].target, cfg.edges[backEdge].source;
    var body := LoopBody(cfg, header, latch);
    var exitEdges: seq<nat> := [];
    for n := 0 to |cfg.nodes|
      invariant forall e: nat :: e in exitEdges <==>
                  e < |cfg.edges| && cfg.edges[e].source < n
                  && cfg.edges[e].source in body && cfg.edges[e].target !in body
    {
      if n in body {
        var out := Outgoing(cfg, n);
        assert forall j | 0 <= j < |out| :: out[j] in out;
        var leaving := LeavingEdges(cfg, body, out);
        exitEdges := exitEdges + leaving;
      }
    }
    info := LoopInfo(header, latch, backEdge, body, exitEdges);
  }

  /** The detected body is the natural loop exactly when the header is not its own latch, or no
      other node reaches it. */
  lemma BodyIsNatural(cfg: Cfg, info: LoopInfo)
    requires IsLoop(cfg, info)
    ensures (forall n: nat | n < |cfg.nodes| :: n in info.body <==> InNaturalLoop(cfg, info.header, info.latch, n))
       <==> (info.header != info.latch
             || forall n: nat | n < |cfg.nodes| && Connected(cfg, {}, n, info.header) :: n == info.header)
  {
    var h := info.header;
    forall n: nat | n < |cfg.nodes| ensures n in info.body <==> InLoop(cfg, h, info.latch, n) {
    }
    if h == info.latch {
      assert forall n: nat | n < |cfg.nodes| :: n in info.body <==> Connected(cfg, {}, n, h);
      forall n: nat ensures InNaturalLoop(cfg, h, h, n) <==> n == h {
        if path :| Avoiding(cfg, h, path, n, h) && path != [] {
          assert path[|path|..] == [] && path[|path| - 1] in path;
          var m := PathSplit(cfg, {}, path, |path|, n, h);
        }
      }
      assert IsPath(cfg, {}, [], h, h);
      assert Connected(cfg, {}, h, h);
    }
  }

  const SELF_LOOP := Cfg([[], []], [Edge(0, 1, True, []), Edge(1, 1, True, [])], 0)

  const SWALLOWED := LoopInfo(1, 1, 1, {0, 1}, [])

  /** A back edge from a header to itself: the detected body takes in the entry, which is not in
      the natural loop. */
  lemma SelfLoopSwallows()
    ensures IsLoop(SELF_LOOP, SWALLOWED) && !InNaturalLoop(SELF_LOOP, 1, 1, SELF_LOOP.entry)
  {
    EdgePath(SELF_LOOP, {}, 0);
    assert IsPath(SELF_LOOP, {}, [], 1, 1);
    assert Connected(SELF_LOOP, {}, 0, 1) && Connected(SELF_LOOP, {}, 1, 1);
    forall path ensures !Avoiding(SELF_LOOP, 1, path, 0, 1) {
      if IsPath(SELF_LOOP, {}, path, 0, 1) {
        assert path[0] in path && SELF_LOOP.edges[path[0]].target == 1;
      }
    }
  }

  // ---- What the three checks establish ------------------------------------------------------

  /** The data of one check: the graph, its loop and the candidate at the entry of the header. */
  ghost predicate SingleLoop(cfg: Cfg, info: LoopInfo) {
    IsLoop(cfg, info) && cfg.entry !in info.body && !Cyclic(cfg, {info.backEdge})
  }

  ghost predicate InBody(cfg: Cfg, body: set<nat>, e: nat) {
    e < |cfg.edges| && cfg.edges[e].source in body && cfg.edges[e].target in body
  }

  /** Two edges that stay in the loop and leave one node never both have a true guard. */
  ghost predicate ExclusiveGuards(cfg: Cfg, body: set<nat>) {
    forall d: nat, e: nat, s: State |
      d != e && InBody(cfg, body, d) && InBody(cfg, body, e) && cfg.edges[d].source == cfg.edges[e].source ::
      !(Eval(cfg.edges[d].guard, s) && Eval(cfg.edges[e].guard, s))
  }

  /** Two-way branches have exclusive guards: one guard is the negation of the other. */
  lemma TwoWayExclusive(cfg: Cfg, body: set<nat>)
    requires forall d: nat, e: nat |
               d != e && InBody(cfg, body, d) && InBody(cfg, body, e) && cfg.edges[d].source == cfg.edges[e].source ::
               cfg.edges[d].guard == Not(cfg.edges[e].guard) || cfg.edges[e].guard == Not(cfg.edges[d].guard)
    ensures ExclusiveGuards(cfg, body)
  {
  }

  /** One trip around the loop: kept edges from the header to the latch, then the back edge. */
  ghost predicate Trip(cfg: Cfg, info: LoopInfo, s: State, t: State)
    requires IsLoop(cfg, info)
  {
    exists path, u: State ::
      IsPath(cfg, {info.backEdge}, path, info.header, info.latch) && Follows(cfg, path, s, u)
      && Cross(cfg, info.backEdge, u, t)
  }

  /** The invariant holds whenever the header is reached without the back edge. */
  ghost predicate HoldsOnEntry(cfg: Cfg, info: LoopInfo, inv: Formula)
    requires IsLoop(cfg, info)
  {
    forall s: State | TruncatedOps(s) && Arrives(Strict(cfg), {info.backEdge}, info.header, s) :: Eval(inv, s)
  }

  /** From an invariant state at the header, every run round to the latch can take the back edge,
      back into the invariant. */
  ghost predicate Returning(cfg: Cfg, info: LoopInfo, inv: Formula)
    requires IsLoop(cfg, info)
  {
    forall path, s: State, u: State |
      Eval(inv, s) && IsPath(cfg, {info.backEdge}, path, info.header, info.latch) && Follows(cfg, path, s, u) ::
      exists t: State :: Cross(cfg, info.backEdge, u, t) && Eval(inv, t)
  }

  ghost predicate Inductive(cfg: Cfg, info: LoopInfo, inv: Formula)
    requires IsLoop(cfg, info)
  {
    forall s: State, t: State | Eval(inv, s) && Trip(cfg, info, s, t) :: Eval(inv, t)
  }

  /** From an invariant state at the header, no exit edge is crossed into its postcondition. */
  ghost predicate ExitClosed(cfg: Cfg, info: LoopInfo, inv: Formula, posts: map<nat, Formula>)
    requires IsLoop(cfg, info)
  {
    forall x, path, s: State, u: State, t: State |
      x in info.exitEdges && cfg.edges[x].target in posts && Eval(inv, s)
      && IsPath(cfg, {info.backEdge}, path, info.header, cfg.edges[x].source) && Follows(cfg, path, s, u)
      && Cross(cfg, x, u, t) ::
      !Eval(posts[cfg.edges[x].target], t)
  }

  // ---- Paths inside the loop ----------------------------------------------------------------

  /** A kept path from the header never enters the header again. */
  lemma NoReturn(cfg: Cfg, info: LoopInfo, path: seq<nat>, n: nat, i: nat)
    requires SingleLoop(cfg, info) && IsPath(cfg, {info.backEdge}, path, info.header, n) && i < |path|
    ensures path[i] < |cfg.edges| && cfg.edges[path[i]].target != info.header
  {
    var k := PathSplit(cfg, {info.backEdge}, path, i + 1, info.header, n);
    assert path[..i + 1] != [];
  }

  /** A path into the body that does not enter the header stays in the body. */
  lemma {:induction false} StaysInBody(cfg: Cfg, info: LoopInfo, path: seq<nat>, n: nat, m: nat)
    requires IsLoop(cfg, info) && IsPath(cfg, {info.backEdge}, path, n, m) && m in info.body
    requires forall i | 0 <= i < |path| :: path[i] < |cfg.edges| && cfg.edges[path[i]].target != info.header
    ensures n in info.body && IsPath(cfg, Dropped(cfg, {info.backEdge}, Some(info.body)), path, n, m)
    decreases |path|
  {
    if path != [] {
      StaysInBody(cfg, info, path[1..], cfg.edges[path[0]].target, m);
    }
  }

  lemma PathInBody(cfg: Cfg, info: LoopInfo, path: seq<nat>, n: nat)
    requires SingleLoop(cfg, info) && IsPath(cfg, {info.backEdge}, path, info.header, n) && n in info.body
    ensures IsPath(cfg, Dropped(cfg, {info.backEdge}, Some(info.body)), path, info.header, n)
  {
    forall i | 0 <= i < |path|
      ensures path[i] < |cfg.edges| && cfg.edges[path[i]].target != info.header
    {
      NoReturn(cfg, info, path, n, i);
    }
    StaysInBody(cfg, info, path, info.header, n);
  }

  // ---- Inductiveness ------------------------------------------------------------------------

  const LIBERAL := Mode(true, true)

  /** The effects inside the loop have one outcome each; outside it they may havoc. */
  ghost predicate BodyExact(cfg: Cfg, body: set<nat>)
    requires WellFormed(cfg)
  {
    forall e: nat | InBody(cfg, body, e) :: EdgeExact(cfg, e)
  }

  /** The conditions under which the checks speak about runs. */
  ghost predicate LoopConditions(cfg: Cfg, info: LoopInfo, hidden: set<Name>) {
    && SingleLoop(cfg, info) && CfgModelled(cfg) && CfgVisible(cfg, hidden)
    && BodyExact(cfg, info.body) && ExclusiveGuards(cfg, info.body)
  }

  /** The inductive formula ranges over alternatives, but only one branch can be followed: it
      carries over to the node the run goes to. */
  lemma InductiveStep(
      cfg: Cfg, info: LoopInfo, hidden: set<Name>, seed: Seed, states: seq<Formula>, e: nat, s: State, t: State)
    requires LoopConditions(cfg, info, hidden) && StatesHidden(states, hidden)
    requires Equations(cfg, LIBERAL, seed,
                       KeptEdges(cfg, Dropped(cfg, {info.backEdge}, Some(info.body))), states)
    requires InBody(cfg, info.body, e) && Cross(cfg, e, s, t)
    requires Eval(states[cfg.edges[e].source], s) && !(cfg.edges[e].source == seed.node && Eval(seed.f, s))
    ensures e != info.backEdge && Eval(states[cfg.edges[e].target], t)
  {
    var n := cfg.edges[e].source;
    var kept := KeptEdges(cfg, Dropped(cfg, {info.backEdge}, Some(info.body)));
    assert SomeEdge(cfg, LIBERAL, kept, states, n, s);
    var d :| d in kept && d < |cfg.edges| && cfg.edges[d].source == n && Eval(Pre(cfg, d, LIBERAL, states), s);
    assert InBody(cfg, info.body, d);
    BranchTaken(cfg, d, e, states[cfg.edges[d].target], s, t, hidden);
    assert d == e;
  }

  /** A run across `e` while the liberal precondition of `d` holds: both guards hold after the
      node's effects, and when they are one edge the run ends in the target formula. */
  lemma BranchTaken(
      cfg: Cfg, d: nat, e: nat, target: Formula, s: State, t: State, hidden: set<Name>)
    requires WellFormed(cfg) && CfgVisible(cfg, hidden) && Hidden(target) <= hidden
    requires d < |cfg.edges| && e < |cfg.edges| && cfg.edges[d].source == cfg.edges[e].source
    requires EdgeExact(cfg, d) && EdgeExact(cfg, e)
    requires Cross(cfg, e, s, t) && Eval(EdgePre(cfg, d, true, true, target), s)
    ensures exists m: State ::
              Run(cfg.nodes[cfg.edges[e].source], s, m) && Eval(cfg.edges[d].guard, m) && Eval(cfg.edges[e].guard, m)
    ensures d == e ==> Eval(target, t)
  {
    var n := cfg.edges[e].source;
    var m :| Run(cfg.nodes[n], s, m) && Eval(cfg.edges[e].guard, m) && Run(cfg.edges[e].effects, m, t);
    var rest := Wp(cfg.edges[d].effects, target);
    var post := AndOf(cfg.edges[d].guard, rest);
    EdgePreHidden(cfg, d, true, true, target, hidden);
    WpInductiveLiberal(cfg.nodes[n], post, s, hidden);
    RunUnique(cfg.nodes[n], s, m);
    assert Eval(post, m);
    AndMeaning(cfg.edges[d].guard, rest, m);
    if d == e {
      WpExact(cfg.edges[e].effects, target, m, hidden);
      RunUnique(cfg.edges[e].effects, m, t);
    }
  }

  /** A path to the latch, cut at its first visit, does not use the back edge. */
  lemma {:induction false} CutAtLatch(cfg: Cfg, info: LoopInfo, path: seq<nat>, n: nat) returns (q: seq<nat>)
    requires IsLoop(cfg, info) && IsPath(cfg, {}, path, n, info.latch)
    ensures IsPath(cfg, {info.backEdge}, q, n, info.latch)
    decreases |path|
  {
    if path == [] || path[0] == info.backEdge {
      q := [];
    } else {
      var rest := CutAtLatch(cfg, info, path[1..], cfg.edges[path[0]].target);
      q := [path[0]] + rest;
      assert q[1..] == rest;
    }
  }

  /** When the header reaches the latch, no edge but the back edge leads from the latch into the
      body. */
  lemma LatchOnly(cfg: Cfg, info: LoopInfo, d: nat)
    requires SingleLoop(cfg, info) && Connected(cfg, {}, info.header, info.latch)
    requires InBody(cfg, info.body, d) && cfg.edges[d].source == info.latch
    ensures d == info.backEdge
  {
    var m := cfg.edges[d].target;
    assert InLoop(cfg, info.header, info.latch, m);
    if d != info.backEdge {
      var p :| IsPath(cfg, {}, p, m, info.latch);
      var q := CutAtLatch(cfg, info, p, m);
      EdgePath(cfg, {info.backEdge}, d);
      assert [d] + q != [];
      PathConcat(cfg, {info.backEdge}, [d], q, info.latch, m, info.latch);
    }
  }

  lemma {:induction false} InductivePath(
      cfg: Cfg, info: LoopInfo, hidden: set<Name>, seed: Seed, states: seq<Formula>,
      path: seq<nat>, n: nat, s: State, u: State)
    requires LoopConditions(cfg, info, hidden) && StatesHidden(states, hidden) && seed.node == info.latch
    requires Equations(cfg, LIBERAL, seed,
                       KeptEdges(cfg, Dropped(cfg, {info.backEdge}, Some(info.body))), states)
    requires IsPath(cfg, Dropped(cfg, {info.backEdge}, Some(info.body)), path, n, info.latch)
    requires Connected(cfg, {}, info.header, info.latch)
    requires n < |states| && Eval(states[n], s) && Follows(cfg, path, s, u)
    ensures Eval(seed.f, u)
    decreases |path|
  {
    if path == [] {
      if !Eval(seed.f, u) {
        var kept := KeptEdges(cfg, Dropped(cfg, {info.backEdge}, Some(info.body)));
        assert SomeEdge(cfg, LIBERAL, kept, states, n, u);
        var d :| d in kept && d < |cfg.edges| && cfg.edges[d].source == n;
        LatchOnly(cfg, info, d);
      }
    } else {
      var e := path[0];
      var v :| Cross(cfg, e, s, v) && Follows(cfg, path[1..], v, u);
      if n == info.latch {
        PathRelax(cfg, Dropped(cfg, {info.backEdge}, Some(info.body)), {info.backEdge}, path, n, n);
        assert false;
      }
      assert e in Below(|cfg.edges|);
      InductiveStep(cfg, info, hidden, seed, states, e, s, v);
      InductivePath(cfg, info, hidden, seed, states, path[1..], cfg.edges[e].target, v, u);
    }
  }

  /** The two passes behind the inductiveness query of a candidate. */
  ghost predicate InductivenessPasses(
      cfg: Cfg, info: LoopInfo, hidden: set<Name>, inv: Formula, around: seq<Formula>, continuing: seq<Formula>)
    requires IsLoop(cfg, info)
  {
    var kept := KeptEdges(cfg, Dropped(cfg, {info.backEdge}, Some(info.body)));
    && StatesHidden(around, hidden) && StatesHidden(continuing, hidden)
    && Equations(cfg, LIBERAL, Seed(info.latch, EdgePre(cfg, info.backEdge, true, false, inv)), kept, around)
    && Equations(cfg, PLAIN, Seed(info.latch, True), kept, continuing)
  }

  lemma ValidReturns(
      cfg: Cfg, info: LoopInfo, hidden: set<Name>, inv: Formula, around: seq<Formula>, continuing: seq<Formula>,
      path: seq<nat>, s: State, u: State)
    requires LoopConditions(cfg, info, hidden) && Hidden(inv) <= hidden
    requires InductivenessPasses(cfg, info, hidden, inv, around, continuing)
    requires Entails(AndOf(inv, continuing[info.header]), around[info.header]) && Eval(inv, s)
    requires IsPath(cfg, {info.backEdge}, path, info.header, info.latch) && Follows(cfg, path, s, u)
    ensures exists t: State :: Cross(cfg, info.backEdge, u, t) && Eval(inv, t)
  {
    PathInBody(cfg, info, path, info.latch);
    var dropped := Dropped(cfg, {info.backEdge}, Some(info.body));
    PassCovers(cfg, true, Seed(info.latch, True), dropped, continuing, hidden, path, info.header, s, u);
    AndMeaning(inv, continuing[info.header], s);
    PathRelax(cfg, {info.backEdge}, {}, path, info.header, info.latch);
    var pre := EdgePre(cfg, info.backEdge, true, false, inv);
    InductivePath(cfg, info, hidden, Seed(info.latch, pre), around, path, info.header, s, u);
    assert InBody(cfg, info.body, info.backEdge);
    EdgePreExact(cfg, info.backEdge, inv, u, hidden);
  }

  /** A valid inductiveness query makes the candidate inductive, although the query ranges over an
      OR of branches and reads assumptions as implications. */
  lemma InductiveCheck(
      cfg: Cfg, info: LoopInfo, hidden: set<Name>, inv: Formula, around: seq<Formula>, continuing: seq<Formula>)
    requires LoopConditions(cfg, info, hidden) && Hidden(inv) <= hidden
    requires InductivenessPasses(cfg, info, hidden, inv, around, continuing)
    requires Entails(AndOf(inv, continuing[info.header]), around[info.header])
    ensures Returning(cfg, info, inv) && Inductive(cfg, info, inv)
  {
    forall path, s: State, u: State |
      Eval(inv, s) && IsPath(cfg, {info.backEdge}, path, info.header, info.latch) && Follows(cfg, path, s, u)
      ensures exists t: State :: Cross(cfg, info.backEdge, u, t) && Eval(inv, t)
    {
      ValidReturns(cfg, info, hidden, inv, around, continuing, path, s, u);
    }
    ReturningInductive(cfg, info, inv);
  }

  lemma ReturningInductive(cfg: Cfg, info: LoopInfo, inv: Formula)
    requires IsLoop(cfg, info) && BodyExact(cfg, info.body) && Returning(cfg, info, inv)
    ensures Inductive(cfg, info, inv)
  {
    assert InBody(cfg, info.body, info.backEdge);
    forall s: State, t: State | Eval(inv, s) && Trip(cfg, info, s, t) ensures Eval(inv, t) {
      var path, u :| IsPath(cfg, {info.backEdge}, path, info.header, info.latch) && Follows(cfg, path, s, u)
                     && Cross(cfg, info.backEdge, u, t);
      var w: State :| Cross(cfg, info.backEdge, u, w) && Eval(inv, w);
      CrossUnique(cfg, info.backEdge, u, t, w);
    }
  }

  /** An infeasible exit query closes one exit edge, although the pass behind it ignores guards. */
  lemma ExitCheck(
      cfg: Cfg, info: LoopInfo, hidden: set<Name>, inv: Formula, x: nat, post: Formula, exits: seq<Formula>,
      path: seq<nat>, s: State, u: State, t: State)
    requires SingleLoop(cfg, info) && CfgModelled(cfg) && CfgVisible(cfg, hidden)
    requires Hidden(post) <= hidden && StatesHidden(exits, hidden)
    requires x < |cfg.edges| && cfg.edges[x].source in info.body
    requires Equations(cfg, Mode(false, false),
                       Seed(cfg.edges[x].source, EdgePre(cfg, x, true, false, post)),
                       KeptEdges(cfg, Dropped(cfg, {info.backEdge}, Some(info.body))), exits)
    requires !Satisfiable(AndOf(inv, exits[info.header]))
    requires Eval(inv, s) && Follows(cfg, path, s, u) && Cross(cfg, x, u, t)
    requires IsPath(cfg, {info.backEdge}, path, info.header, cfg.edges[x].source)
    ensures !Eval(post, t)
  {
    if Eval(post, t) {
      PathInBody(cfg, info, path, cfg.edges[x].source);
      EdgePreOver(cfg, x, true, post, u, t, hidden);
      PassCovers(cfg, false, Seed(cfg.edges[x].source, EdgePre(cfg, x, true, false, post)),
                 Dropped(cfg, {info.backEdge}, Some(info.body)), exits, hidden, path, info.header, s, u);
      AndMeaning(inv, exits[info.header], s);
    }
  }

  // ---- Why guards must exclude each other -----------------------------------------------------

  const N := Var("n", IntSort)

  function SetN(k: int): Effect {
    Assign(N, ValueTerm(Int(k)))
  }

  const N_IS_ZERO := Cmp(Eq, TVar(N), Int(0))

  /** A loop with two branches that are both always open; one of them destroys `n == 0`. */
  const TWO_BRANCHES := Cfg(
    [[], [], []],
    [Edge(0, 1, True, []), Edge(1, 2, True, [SetN(0)]), Edge(1, 2, True, [SetN(1)]), Edge(2, 1, True, [])],
    0)

  const BRANCH_LOOP := LoopInfo(1, 2, 3, {1, 2}, [])

  lemma BranchLoopDetected()
    ensures IsLoop(TWO_BRANCHES, BRANCH_LOOP)
  {
    assert IsPath(TWO_BRANCHES, {}, [], 2, 2) && Avoiding(TWO_BRANCHES, 1, [], 2, 2);
    forall path ensures !Avoiding(TWO_BRANCHES, 1, path, 0, 2) {
      if IsPath(TWO_BRANCHES, {}, path, 0, 2) {
        assert path[0] in path && path[0] == 0;
      }
    }
  }

  lemma EdgePreMeans(e: nat, liberal: bool, target: Formula, s: State)
    requires e < 4 && Hidden(target) == {}
    ensures Eval(EdgePre(TWO_BRANCHES, e, true, liberal, target), s) <==>
            Eval(target, if e == 1 then s.SetInt(N, 0) else if e == 2 then s.SetInt(N, 1) else s)
  {
    var edge := TWO_BRANCHES.edges[e];
    var rest := Wp(edge.effects, target);
    AndMeaning(True, rest, s);
    assert TWO_BRANCHES.nodes[edge.source] == [];
    assert EvalT(Int(0), s) == 0 && EvalT(Int(1), s) == 1;
    if e == 1 || e == 2 {
      var k := e - 1;
      assert edge.effects == [SetN(k)] && edge.effects[1..] == [];
      assert rest == Apply(VarBy(N, Int(k)), target);
      Substituted(VarBy(N, Int(k)), target, s);
    }
  }

  /** Inductiveness is an OR over the branches: on guards that overlap, the query is valid for
      every result of the backward pass, and yet the candidate is not inductive. */
  lemma OverlappingBranches(around: seq<Formula>, s: State)
    requires Equations(TWO_BRANCHES, LIBERAL, Seed(2, EdgePre(TWO_BRANCHES, 3, true, false, N_IS_ZERO)),
                       KeptEdges(TWO_BRANCHES, Dropped(TWO_BRANCHES, {3}, Some({1, 2}))), around)
    requires StatesHidden(around, {})
    ensures IsLoop(TWO_BRANCHES, BRANCH_LOOP) && !ExclusiveGuards(TWO_BRANCHES, {1, 2})
    ensures Entails(True, around[1]) && !Inductive(TWO_BRANCHES, BRANCH_LOOP, N_IS_ZERO)
  {
    BranchLoopDetected();
    assert EvalT(TVar(N), s) == s.ints(N) && Hidden(N_IS_ZERO) == {};
    assert InBody(TWO_BRANCHES, {1, 2}, 1) && InBody(TWO_BRANCHES, {1, 2}, 2) && Eval(True, s);
    var kept := KeptEdges(TWO_BRANCHES, Dropped(TWO_BRANCHES, {3}, Some({1, 2})));
    assert 1 in Below(4) && 1 in kept;
    forall t: State ensures Eval(around[1], t) {
      var u := t.SetInt(N, 0);
      assert EvalT(TVar(N), u) == 0 && EvalT(Int(0), u) == 0;
      EdgePreMeans(3, false, N_IS_ZERO, u);
      assert Eval(around[2], u);
      EdgePreMeans(1, true, around[2], t);
      assert SomeEdge(TWO_BRANCHES, LIBERAL, kept, around, 1, t);
    }
    BreakingTrip(s.SetInt(N, 0));
  }

  lemma BreakingTrip(s: State)
    requires IsLoop(TWO_BRANCHES, BRANCH_LOOP) && s.ints(N) == 0
    ensures !Inductive(TWO_BRANCHES, BRANCH_LOOP, N_IS_ZERO)
  {
    var t := s.SetInt(N, 1);
    assert EvalT(TVar(N), s) == 0 && EvalT(TVar(N), t) == 1 && EvalT(Int(0), s) == 0 && EvalT(Int(0), t) == 0;
    assert EvalT(Int(1), s) == 1;
    assert [SetN(1)][1..] == [] && Run([], t, t) && Step(SetN(1), s, t) && Run([SetN(1)], s, t);
    assert Run([], s, s);
    CrossVia(TWO_BRANCHES, 2, s, s, t);
    CrossVia(TWO_BRANCHES, 3, t, t, t);
    assert [2][1..] == [] && Follows(TWO_BRANCHES, [2][1..], t, t) && Follows(TWO_BRANCHES, [2], s, t);
    assert IsPath(TWO_BRANCHES, {3}, [2][1..], 2, 2) && IsPath(TWO_BRANCHES, {3}, [2], 1, 2);
    assert Trip(TWO_BRANCHES, BRANCH_LOOP, s, t);
  }
  // ---- Why the body must not havoc ------------------------------------------------------------

  /** A loop that forgets a region on the way round. */
  const HAVOC_BODY := Cfg(
    [[], [], []],
    [Edge(0, 1, True, []), Edge(1, 2, True, [HavocRegions(["m"])]), Edge(2, 1, True, [])],
    0)

  const HAVOC_LOOP := LoopInfo(1, 2, 2, {1, 2}, [])

  const M_IS_ZERO := Cmp(Eq, Select(Region("m"), Int(0)), Int(0))

  lemma MIsZeroMeans(s: State)
    ensures Eval(M_IS_ZERO, s) <==> s.mem("m", 0) == 0
  {
    assert EvalT(Int(0), s) == 0 && Read(Region("m"), s, 0) == s.mem("m", 0);
  }

  lemma HavocLoopDetected()
    ensures IsLoop(HAVOC_BODY, HAVOC_LOOP) && CfgModelled(HAVOC_BODY) && !BodyExact(HAVOC_BODY, {1, 2})
  {
    var effects := [HavocRegions(["m"])];
    assert InBody(HAVOC_BODY, {1, 2}, 1) && effects[0] in effects;
    assert IsPath(HAVOC_BODY, {}, [], 2, 2) && Avoiding(HAVOC_BODY, 1, [], 2, 2);
    forall path ensures !Avoiding(HAVOC_BODY, 1, path, 0, 2) {
      if IsPath(HAVOC_BODY, {}, path, 0, 2) {
        assert path[0] in path && path[0] == 0;
      }
    }
  }

  lemma AroundTwo(s: State)
    requires s.mem("m", 0) == 0
    ensures Eval(EdgePre(HAVOC_BODY, 2, true, false, M_IS_ZERO), s)
  {
    MIsZeroMeans(s);
    AndMeaning(True, M_IS_ZERO, s);
  }

  lemma ForgetsRegion(target: Formula, s: State)
    requires Eval(target, s.Write("m", 0, 0))
    ensures Eval(EdgePre(HAVOC_BODY, 1, true, true, target), s)
  {
    var effects := [HavocRegions(["m"])];
    assert Mem("m") in Regions(["m"]);
    HavocAllOver(["m"], target, s, s.Write("m", 0, 0));
    assert effects[1..] == [] && Wp(effects, target) == HavocAll(["m"], target);
    AndMeaning(True, Wp(effects, target), s);
  }

  ghost predicate HavocPass(around: seq<Formula>) {
    Equations(HAVOC_BODY, LIBERAL, Seed(2, EdgePre(HAVOC_BODY, 2, true, false, M_IS_ZERO)),
              KeptEdges(HAVOC_BODY, Dropped(HAVOC_BODY, {2}, Some({1, 2}))), around)
  }

  lemma HavocQuery(around: seq<Formula>, s: State)
    requires HavocPass(around)
    ensures Eval(around[1], s)
  {
    var kept := KeptEdges(HAVOC_BODY, Dropped(HAVOC_BODY, {2}, Some({1, 2})));
    assert 1 in Below(3) && 1 in kept;
    AroundTwo(s.Write("m", 0, 0));
    assert Eval(around[2], s.Write("m", 0, 0));
    ForgetsRegion(around[2], s);
    assert SomeEdge(HAVOC_BODY, LIBERAL, kept, around, 1, s);
  }

  /** With a havoc in the body, which `wp` drops from conjunctions, the inductiveness query is valid
      for every result of the backward pass, and yet the candidate is not inductive. */
  lemma HavocInBody(around: seq<Formula>, s: State)
    requires HavocPass(around)
    ensures IsLoop(HAVOC_BODY, HAVOC_LOOP) && CfgModelled(HAVOC_BODY) && !BodyExact(HAVOC_BODY, {1, 2})
    ensures Entails(True, around[1]) && !Inductive(HAVOC_BODY, HAVOC_LOOP, M_IS_ZERO)
  {
    HavocLoopDetected();
    forall t: State ensures Eval(around[1], t) {
      HavocQuery(around, t);
    }
    ForgettingTrip(s.Write("m", 0, 0));
  }

  lemma ForgettingTrip(s: State)
    requires IsLoop(HAVOC_BODY, HAVOC_LOOP) && s.mem("m", 0) == 0
    ensures !Inductive(HAVOC_BODY, HAVOC_LOOP, M_IS_ZERO)
  {
    var t, havoc := s.Write("m", 0, 1), HavocRegions(["m"]);
    MIsZeroMeans(s);
    MIsZeroMeans(t);
    assert Mem("m") in Regions(["m"]) && Step(havoc, s, t) && [havoc][1..] == [] && Run([], t, t) && Run([havoc], s, t);
    assert Run([], s, s);
    CrossVia(HAVOC_BODY, 1, s, s, t);
    CrossVia(HAVOC_BODY, 2, t, t, t);
    assert [1][1..] == [] && Follows(HAVOC_BODY, [1][1..], t, t) && Follows(HAVOC_BODY, [1], s, t);
    assert IsPath(HAVOC_BODY, {2}, [1][1..], 2, 2) && IsPath(HAVOC_BODY, {2}, [1], 1, 2);
    assert Trip(HAVOC_BODY, HAVOC_LOOP, s, t);
  }
}
