/** The loop rule: what an accepted invariant says about every execution, whatever the number of
    iterations. Executions are those on which the type bounds hold and division rounds toward
    zero, because the initiation check relies on both. */
module LoopRule {
  import opened Formulas
  import opened Semantics
  import opened Transfer
  import opened Graphs
  import opened Runs
  import opened Reach
  import opened Loops

  /** The last visit to the header on a path that starts outside the body and ends inside. */
  lemma {:induction false} LastHeaderVisit(cfg: Cfg, info: LoopInfo, path: seq<nat>, n: nat, m: nat) returns (i: nat)
    requires IsLoop(cfg, info) && IsPath(cfg, {}, path, n, m) && n !in info.body && m in info.body
    ensures i <= |path| && IsPath(cfg, {}, path[..i], n, info.header)
    ensures IsPath(cfg, {info.backEdge}, path[i..], info.header, m)
    decreases |path|
  {
    if m == info.header {
      i := |path|;
      assert path[..i] == path && path[i..] == [];
    } else {
      var k := PathSplit(cfg, {}, path, |path| - 1, n, m);
      var e := path[|path| - 1];
      assert path[|path| - 1..] == [e];
      i := LastHeaderVisit(cfg, info, path[..|path| - 1], n, k);
      assert path[..|path| - 1][..i] == path[..i];
      assert path[..|path| - 1][i..] + [e] == path[i..];
      EdgePath(cfg, {info.backEdge}, e);
      PathConcat(cfg, {info.backEdge}, path[..|path| - 1][i..], [e], info.header, k, m);
    }
  }

  lemma {:induction false} LastOccurrence(path: seq<nat>, e: nat) returns (i: nat)
    requires e in path
    ensures i < |path| && path[i] == e && e !in path[i + 1..]
  {
    if path[|path| - 1] == e {
      i := |path| - 1;
    } else {
      var front := path[..|path| - 1];
      assert path == front + [path[|path| - 1]];
      i := LastOccurrence(front, e);
      assert path[i + 1..] == front[i + 1..] + [path[|path| - 1]];
    }
  }

  /** A header arrival is a first entry or ends with the back edge. */
  lemma EndsWithBackEdge(cfg: Cfg, info: LoopInfo, path: seq<nat>)
    requires SingleLoop(cfg, info) && IsPath(cfg, {}, path, cfg.entry, info.header)
    requires info.backEdge in path
    ensures path == path[..|path| - 1] + [info.backEdge]
    ensures IsPath(cfg, {}, path[..|path| - 1], cfg.entry, info.latch)
  {
    var b := info.backEdge;
    var i := LastOccurrence(path, b);
    var n := PathSplit(cfg, {}, path, i, cfg.entry, info.header);
    assert path[i..][1..] == path[i + 1..];
    PathWithin(cfg, {}, {b}, path[i + 1..], info.header, info.header);
    assert {} + {b} == {b};
    assert path[i + 1..] == [];
  }

  /** Every arrival at the header satisfies the invariant, after any number of iterations. */
  lemma {:induction false} HeaderInvariant(
      cfg: Cfg, info: LoopInfo, inv: Formula, path: seq<nat>, s0: State, s: State)
    requires SingleLoop(cfg, info) && HoldsOnEntry(cfg, info, inv) && Inductive(cfg, info, inv)
    requires IsPath(cfg, {}, path, cfg.entry, info.header) && Follows(Strict(cfg), path, s0, s)
    requires TruncatedOps(s0)
    ensures Eval(inv, s)
    decreases |path|, 0
  {
    var b := info.backEdge;
    if b in path {
      EndsWithBackEdge(cfg, info, path);
      var front := path[..|path| - 1];
      var u := FollowsLast(Strict(cfg), front, b, s0, s);
      var v, tail := ToLastHeader(cfg, info, inv, front, info.latch, s0, u);
      StrictFollows(cfg, tail, v, u);
      StrictCross(cfg, b, u, s);
      assert Trip(cfg, info, v, s);
    } else {
      FollowsOps(Strict(cfg), path, s0, s);
      PathWithin(cfg, {}, {b}, path, cfg.entry, info.header);
      assert {} + {b} == {b};
      StrictPath(cfg, {b}, path, cfg.entry, info.header);
      assert Arrives(Strict(cfg), {b}, info.header, s);
    }
  }

  /** Cut a run into the body at its last visit to the header, where the invariant holds. */
  lemma {:induction false} ToLastHeader(
      cfg: Cfg, info: LoopInfo, inv: Formula, path: seq<nat>, n: nat, s0: State, u: State)
    returns (v: State, tail: seq<nat>)
    requires SingleLoop(cfg, info) && HoldsOnEntry(cfg, info, inv) && Inductive(cfg, info, inv)
    requires IsPath(cfg, {}, path, cfg.entry, n) && n in info.body && Follows(Strict(cfg), path, s0, u)
    requires TruncatedOps(s0)
    ensures Eval(inv, v) && IsPath(cfg, {info.backEdge}, tail, info.header, n) && Follows(Strict(cfg), tail, v, u)
    decreases |path|, 1
  {
    var i := LastHeaderVisit(cfg, info, path, cfg.entry, n);
    v := FollowsSplit(Strict(cfg), path, i, s0, u);
    tail := path[i..];
    HeaderInvariant(cfg, info, inv, path[..i], s0, v);
  }

  /** No execution crosses an exit edge into a state satisfying its violation postcondition. */
  lemma ExitsExcluded(
      cfg: Cfg, info: LoopInfo, inv: Formula, posts: map<nat, Formula>, path: seq<nat>, x: nat,
      s0: State, u: State, t: State)
    requires SingleLoop(cfg, info) && HoldsOnEntry(cfg, info, inv) && Inductive(cfg, info, inv)
    requires ExitClosed(cfg, info, inv, posts) && x in info.exitEdges && cfg.edges[x].target in posts
    requires IsPath(cfg, {}, path, cfg.entry, cfg.edges[x].source) && Follows(Strict(cfg), path, s0, u)
    requires Cross(Strict(cfg), x, u, t) && TruncatedOps(s0)
    ensures !Eval(posts[cfg.edges[x].target], t)
  {
    var v, tail := ToLastHeader(cfg, info, inv, path, cfg.edges[x].source, s0, u);
    StrictFollows(cfg, tail, v, u);
    StrictCross(cfg, x, u, t);
  }

  // ---- Which loop the search finds ------------------------------------------------------------

  /** No simple path from the entry goes from the latch into the header: it has been there. */
  lemma SpineEntersOnce(cfg: Cfg, info: LoopInfo, spine: seq<nat>, k: nat)
    requires SingleLoop(cfg, info) && IsSpine(cfg, spine) && 0 < k < |spine|
    ensures !(info.latch == spine[k - 1] && info.header == spine[k])
  {
    if info.latch == spine[k - 1] && info.header == spine[k] {
      var p := AlongSpine(cfg, spine, 0, k - 1);
      forall e | e in p ensures e < |cfg.edges| && cfg.edges[e].target != info.header {
        var i :| 0 < i <= k - 1 && cfg.edges[e].target == spine[i];
      }
      assert Avoiding(cfg, info.header, p, cfg.entry, info.latch);
      assert InLoop(cfg, info.header, info.latch, cfg.entry);
    }
  }

  lemma NotOnSpine(cfg: Cfg, info: LoopInfo, spine: seq<nat>, i: nat, j: nat, path: seq<nat>)
    requires SingleLoop(cfg, info) && IsSpine(cfg, spine) && i <= j < |spine| && WithinSpine(cfg, spine, i, j, path)
    ensures info.backEdge !in path
  {
    if info.backEdge in path {
      var k :| i < k <= j && info.latch == spine[k - 1] && info.header == spine[k];
      SpineEntersOnce(cfg, info, spine, k);
    }
  }

  /** An edge that closes a path to a cycle is the back edge, or the path takes the back edge. */
  lemma ClosesThrough(cfg: Cfg, info: LoopInfo, path: seq<nat>, b: nat)
    requires SingleLoop(cfg, info) && b < |cfg.edges|
    requires IsPath(cfg, {}, path, cfg.edges[b].target, cfg.edges[b].source)
    ensures b == info.backEdge || info.backEdge in path
  {
    var n, m := cfg.edges[b].target, cfg.edges[b].source;
    if b != info.backEdge && info.backEdge !in path {
      EdgePath(cfg, {}, b);
      PathConcat(cfg, {}, path, [b], n, m, n);
      assert {} + {info.backEdge} == {info.backEdge} && path + [b] != [];
      PathWithin(cfg, {}, {info.backEdge}, path + [b], n, n);
    }
  }

  /** A single loop has one back edge: any edge that climbs a simple path from the entry is it,
      because every path to the latch passes the header. */
  lemma OneBackEdge(cfg: Cfg, info: LoopInfo, b: nat)
    requires SingleLoop(cfg, info) && ClimbsSpine(cfg, b)
    ensures b == info.backEdge
  {
    var spine :| spine != [] && IsSpine(cfg, spine)
                 && cfg.edges[b].source == spine[|spine| - 1] && cfg.edges[b].target in spine;
    var i :| 0 <= i < |spine| && spine[i] == cfg.edges[b].target;
    var around := AlongSpine(cfg, spine, i, |spine| - 1);
    NotOnSpine(cfg, info, spine, i, |spine| - 1, around);
    ClosesThrough(cfg, info, around, b);
  }

  /** The back edge determines the loop, up to the order of its exit edges. */
  lemma SameLoop(cfg: Cfg, a: LoopInfo, b: LoopInfo)
    requires IsLoop(cfg, a) && IsLoop(cfg, b) && a.backEdge == b.backEdge
    ensures b == a.(exitEdges := b.exitEdges)
  {
    forall n ensures n in a.body <==> n in b.body {
    }
  }

  // ---- From the rule to the assertion -------------------------------------------------------

  /** The postconditions cover the violations over kept edges. */
  ghost predicate PostsCover(cfg: Cfg, excluded: set<nat>, site: Site, posts: map<nat, Formula>)
    requires WellSited(cfg, site)
  {
    forall n: nat, s: State | n < |cfg.nodes| && Violating(cfg, excluded, site, n, s) ::
      n in posts && Eval(posts[n], s)
  }

  /** No type-correct execution violates the obligation. */
  ghost predicate SafeTyped(cfg: Cfg, site: Site)
    requires WellSited(cfg, site)
  {
    forall path, s0: State, t: State |
      TruncatedOps(s0) && IsPath(cfg, {}, path, cfg.entry, site.node) && Follows(Strict(cfg), path, s0, t) ::
      !ViolatedAt(Strict(cfg), site, t)
  }

  lemma {:induction false} LeavesBody(cfg: Cfg, info: LoopInfo, path: seq<nat>, n: nat, m: nat) returns (i: nat)
    requires IsLoop(cfg, info) && IsPath(cfg, {info.backEdge}, path, n, m) && n in info.body && m !in info.body
    ensures i < |path| && path[i] in info.exitEdges
    decreases |path|
  {
    if cfg.edges[path[0]].target in info.body {
      var j := LeavesBody(cfg, info, path[1..], cfg.edges[path[0]].target, m);
      i := j + 1;
    } else {
      i := 0;
    }
  }

  /** With an accepted invariant, the runs that use the back edge cannot violate an assertion
      behind the loop: they would have to cross an exit edge into its postcondition. */
  lemma LoopingRunSafe(
      cfg: Cfg, info: LoopInfo, inv: Formula, posts: map<nat, Formula>, site: Site, path: seq<nat>,
      s0: State, t: State)
    requires SingleLoop(cfg, info) && HoldsOnEntry(cfg, info, inv) && Inductive(cfg, info, inv)
    requires WellSited(cfg, site) && site.node !in info.body
    requires ExitClosed(cfg, info, inv, posts) && PostsCover(cfg, {info.backEdge}, site, posts)
    requires TruncatedOps(s0) && info.backEdge in path
    requires IsPath(cfg, {}, path, cfg.entry, site.node) && Follows(Strict(cfg), path, s0, t)
    ensures !ViolatedAt(Strict(cfg), site, t)
  {
    if ViolatedAt(Strict(cfg), site, t) {
      var b := info.backEdge;
      var i := LastOccurrence(path, b);
      var n := PathSplit(cfg, {}, path, i + 1, cfg.entry, site.node);
      var tail := path[i + 1..];
      PathWithin(cfg, {}, {b}, tail, n, site.node);
      assert {} + {b} == {b};
      var j := LeavesBody(cfg, info, tail, info.header, site.node);
      ViolationAfterExit(cfg, info, inv, posts, site, path, i + 1 + j, s0, t);
    }
  }

  lemma ViolationAfterExit(
      cfg: Cfg, info: LoopInfo, inv: Formula, posts: map<nat, Formula>, site: Site, path: seq<nat>, i: nat,
      s0: State, t: State)
    requires SingleLoop(cfg, info) && HoldsOnEntry(cfg, info, inv) && Inductive(cfg, info, inv)
    requires WellSited(cfg, site) && i < |path| && path[i] in info.exitEdges
    requires ExitClosed(cfg, info, inv, posts) && PostsCover(cfg, {info.backEdge}, site, posts)
    requires TruncatedOps(s0) && info.backEdge !in path[i + 1..]
    requires IsPath(cfg, {}, path, cfg.entry, site.node) && Follows(Strict(cfg), path, s0, t)
    ensures !ViolatedAt(Strict(cfg), site, t)
  {
    var x, rest := path[i], path[i + 1..];
    var n := PathSplit(cfg, {}, path, i, cfg.entry, site.node);
    var u := FollowsSplit(Strict(cfg), path, i, s0, t);
    assert path[i..][1..] == rest;
    var v: State :| Cross(Strict(cfg), x, u, v) && Follows(Strict(cfg), rest, v, t);
    if ViolatedAt(Strict(cfg), site, t) {
      ViolatingFrom(cfg, info.backEdge, site, rest, cfg.edges[x].target, v, t);
      ExitsExcluded(cfg, info, inv, posts, path[..i], x, s0, u, v);
    }
  }

  lemma ViolatingFrom(cfg: Cfg, b: nat, site: Site, rest: seq<nat>, n: nat, v: State, t: State)
    requires WellSited(cfg, site) && b !in rest && IsPath(cfg, {}, rest, n, site.node)
    requires Follows(Strict(cfg), rest, v, t) && ViolatedAt(Strict(cfg), site, t)
    ensures Violating(cfg, {b}, site, n, v)
  {
    PathWithin(cfg, {}, {b}, rest, n, site.node);
    assert {} + {b} == {b};
    StrictFollows(cfg, rest, v, t);
    StrictViolated(cfg, site, t);
  }

  lemma StrictViolated(cfg: Cfg, site: Site, s: State)
    requires WellSited(cfg, site) && ViolatedAt(Strict(cfg), site, s)
    ensures ViolatedAt(cfg, site, s)
  {
    var t: State :| Run(Strict(cfg).nodes[site.node], s, t) && !Eval(site.obligation, t);
    StrictRun(cfg.nodes[site.node], s, t);
  }

  /** End-to-end safety of a single-loop procedure: an accepted invariant and a safe skeleton
      leave no violating execution with any number of iterations. */
  lemma SingleLoopSafe(
      cfg: Cfg, info: LoopInfo, inv: Formula, posts: map<nat, Formula>, site: Site)
    requires SingleLoop(cfg, info) && HoldsOnEntry(cfg, info, inv) && Inductive(cfg, info, inv)
    requires WellSited(cfg, site) && site.node !in info.body
    requires ExitClosed(cfg, info, inv, posts) && PostsCover(cfg, {info.backEdge}, site, posts)
    requires SafeFrom(cfg, {info.backEdge}, site)
    ensures SafeTyped(cfg, site)
  {
    forall path, s0: State, t: State |
      TruncatedOps(s0) && IsPath(cfg, {}, path, cfg.entry, site.node) && Follows(Strict(cfg), path, s0, t)
      ensures !ViolatedAt(Strict(cfg), site, t)
    {
      if info.backEdge in path {
        LoopingRunSafe(cfg, info, inv, posts, site, path, s0, t);
      } else if ViolatedAt(Strict(cfg), site, t) {
        PathWithin(cfg, {}, {info.backEdge}, path, cfg.entry, site.node);
        assert {} + {info.backEdge} == {info.backEdge};
        StrictFollows(cfg, path, s0, t);
        StrictViolated(cfg, site, t);
        assert Violating(cfg, {info.backEdge}, site, cfg.entry, s0);
      }
    }
  }
}
