/** The bounded backtracking path enumeration of src/analysis/dart/mod.rs. */
module PathSearch {
  import opened Formulas
  import opened Graphs

  /** The bounds of the search: edges per path, departures per node, paths in all. */
  datatype Bounds = Bounds(maxDepth: nat, maxIters: nat, maxPaths: nat)

  /** How often the path leaves `n`. */
  function LeftCount(cfg: Cfg, path: seq<nat>, n: nat): nat {
    if path == [] then 0
    else
      var e := path[|path| - 1];
      LeftCount(cfg, path[..|path| - 1], n) + (if e < |cfg.edges| && cfg.edges[e].source == n then 1 else 0)
  }

  // ---- The pure enumeration -----------------------------------------------------------------

  /** All continuations of `prefix` from `node` to the target, depth first. */
  function AllPaths(cfg: Cfg, target: nat, iters: nat, prefix: seq<nat>, node: nat, depth: nat): seq<seq<nat>>
    decreases depth, 1, 0
  {
    if node == target then [prefix]
    else if depth == 0 || LeftCount(cfg, prefix, node) >= iters then []
    else ThroughEdges(cfg, target, iters, prefix, Outgoing(cfg, node), |Outgoing(cfg, node)|, depth)
  }

  /** The continuations through the first `k` of the edges `ids`. */
  function ThroughEdges(
      cfg: Cfg, target: nat, iters: nat, prefix: seq<nat>, ids: seq<nat>, k: nat, depth: nat): seq<seq<nat>>
    requires depth > 0 && k <= |ids|
    decreases depth, 0, k
  {
    if k == 0 then []
    else
      var e := ids[k - 1];
      ThroughEdges(cfg, target, iters, prefix, ids, k - 1, depth) +
      (if e < |cfg.edges|
       then AllPaths(cfg, target, iters, prefix + [e], cfg.edges[e].target, depth - 1)
       else [])
  }

  function Take<T>(s: seq<T>, k: nat): seq<T> {
    if k < |s| then s[..k] else s
  }

  lemma TakeAgain<T>(s: seq<T>, more: seq<T>, k: nat)
    ensures Take(Take(s, k) + more, k) == Take(s + more, k)
  {
  }

  lemma TakeFull<T>(s: seq<T>, longer: seq<T>, k: nat)
    requires s <= longer && |Take(s, k)| >= k
    ensures Take(s, k) == Take(longer, k)
  {
  }

  lemma {:induction false} ThroughEdgesPrefix(
      cfg: Cfg, target: nat, iters: nat, prefix: seq<nat>, ids: seq<nat>, j: nat, k: nat, depth: nat)
    requires depth > 0 && j <= k <= |ids|
    ensures ThroughEdges(cfg, target, iters, prefix, ids, j, depth)
         <= ThroughEdges(cfg, target, iters, prefix, ids, k, depth)
    decreases k
  {
    if j < k {
      ThroughEdgesPrefix(cfg, target, iters, prefix, ids, j, k - 1, depth);
    }
  }

  /** Stopping at the cap loses nothing. */
  lemma ThroughEdgesDone(
      cfg: Cfg, target: nat, iters: nat, prefix: seq<nat>, ids: seq<nat>, j: nat, depth: nat,
      start: seq<seq<nat>>, cap: nat)
    requires depth > 0 && j <= |ids|
    requires j == |ids| || |Take(start + ThroughEdges(cfg, target, iters, prefix, ids, j, depth), cap)| >= cap
    ensures Take(start + ThroughEdges(cfg, target, iters, prefix, ids, j, depth), cap)
         == Take(start + ThroughEdges(cfg, target, iters, prefix, ids, |ids|, depth), cap)
  {
    if j < |ids| {
      var some := ThroughEdges(cfg, target, iters, prefix, ids, j, depth);
      var all := ThroughEdges(cfg, target, iters, prefix, ids, |ids|, depth);
      ThroughEdgesPrefix(cfg, target, iters, prefix, ids, j, |ids|, depth);
      assert start + some <= start + all;
      TakeFull(start + some, start + all, cap);
    }
  }

  lemma ThroughEdgesNext(
      cfg: Cfg, target: nat, iters: nat, prefix: seq<nat>, ids: seq<nat>, j: nat, depth: nat,
      start: seq<seq<nat>>, more: seq<seq<nat>>, cap: nat)
    requires depth > 0 && j < |ids| && ids[j] < |cfg.edges|
    requires more == AllPaths(cfg, target, iters, prefix + [ids[j]], cfg.edges[ids[j]].target, depth - 1)
    ensures Take(Take(start + ThroughEdges(cfg, target, iters, prefix, ids, j, depth), cap) + more, cap)
         == Take(start + ThroughEdges(cfg, target, iters, prefix, ids, j + 1, depth), cap)
  {
    var some := ThroughEdges(cfg, target, iters, prefix, ids, j, depth);
    TakeAgain(start + some, more, cap);
    assert start + some + more == start + (some + more);
  }

  lemma LeftCountSnoc(cfg: Cfg, prefix: seq<nat>, e: nat)
    requires e < |cfg.edges|
    ensures forall n: nat ::
              LeftCount(cfg, prefix + [e], n) == LeftCount(cfg, prefix, n) + (if n == cfg.edges[e].source then 1 else 0)
  {
    assert (prefix + [e])[..|prefix|] == prefix;
  }

  // ---- The search ---------------------------------------------------------------------------

  class PathSearcher {
    const cfg: Cfg
    const target: nat
    const bounds: Bounds
    var current: seq<nat>
    var visitCount: map<nat, nat>
    var out: seq<seq<nat>>

    constructor (cfg: Cfg, target: nat, bounds: Bounds)
      ensures this.cfg == cfg && this.target == target && this.bounds == bounds
      ensures current == [] && visitCount == map[] && out == []
    {
      this.cfg, this.target, this.bounds := cfg, target, bounds;
      current, visitCount, out := [], map[], [];
    }

    function Count(n: nat): nat
      reads this`visitCount
    {
      if n in visitCount then visitCount[n] else 0
    }

    /** The visit counts are those of the current path, plus one while `busy` is being left. */
    ghost predicate Counted(busy: Option<nat>)
      reads this
    {
      forall n: nat :: Count(n) == LeftCount(cfg, current, n) + (if busy == Some(n) then 1 else 0)
    }

    /** The body of the edge loop: push the edge, search on from its target, pop it. */
    method FollowEdge(e: nat, depth: nat)
      requires WellFormed(cfg) && e < |cfg.edges| && depth > 0 && Counted(Some(cfg.edges[e].source))
      requires |out| <= bounds.maxPaths
      modifies this
      ensures current == old(current) && Counted(Some(cfg.edges[e].source))
      ensures out ==
              Take(old(out) + AllPaths(cfg, target, bounds.maxIters, current + [e], cfg.edges[e].target, depth - 1),
                          bounds.maxPaths)
      decreases depth, 0
    {
      LeftCountSnoc(cfg, current, e);
      current := current + [e];
      Dfs(cfg.edges[e].target, depth - 1);
      current := current[..|current| - 1];
    }

    /** The edge loop, which stops at the cap. */
    method FollowAll(ids: seq<nat>, node: nat, depth: nat)
      requires WellFormed(cfg) && depth > 0 && Counted(Some(node)) && |out| <= bounds.maxPaths
      requires forall i | 0 <= i < |ids| :: ids[i] < |cfg.edges| && cfg.edges[ids[i]].source == node
      modifies this
      ensures current == old(current) && Counted(Some(node))
      ensures out == Take(old(out) + ThroughEdges(cfg, target, bounds.maxIters, current, ids, |ids|, depth),
                          bounds.maxPaths)
      decreases depth, 1
    {
      var j := 0;
      while j < |ids| && |out| < bounds.maxPaths
        invariant 0 <= j <= |ids| && current == old(current) && Counted(Some(node))
        invariant out == Take(old(out) + ThroughEdges(cfg, target, bounds.maxIters, current, ids, j, depth),
                              bounds.maxPaths)
      {
        ghost var next := current + [ids[j]];
        ghost var more := AllPaths(cfg, target, bounds.maxIters, next, cfg.edges[ids[j]].target, depth - 1);
        ThroughEdgesNext(cfg, target, bounds.maxIters, current, ids, j, depth, old(out), more, bounds.maxPaths);
        FollowEdge(ids[j], depth);
        j := j + 1;
      }
      ThroughEdgesDone(cfg, target, bounds.maxIters, current, ids, j, depth, old(out), bounds.maxPaths);
    }

    /** `dfs`: appends the enumeration, cut at the cap, and restores path and counts exactly. */
    method Dfs(node: nat, depth: nat)
      requires WellFormed(cfg) && node < |cfg.nodes| && Counted(None) && |out| <= bounds.maxPaths
      modifies this
      ensures current == old(current) && Counted(None)
      ensures out == Take(old(out) + AllPaths(cfg, target, bounds.maxIters, current, node, depth), bounds.maxPaths)
      decreases depth, 2
    {
      if |out| >= bounds.maxPaths {
        TakeFull(out, out + AllPaths(cfg, target, bounds.maxIters, current, node, depth), bounds.maxPaths);
        return;
      }
      if node == target {
        out := out + [current];
        return;
      }
      if depth == 0 || Count(node) >= bounds.maxIters {
        assert out + [] == out;
        return;
      }
      visitCount := visitCount[node := Count(node) + 1];
      var ids := Outgoing(cfg, node);
      assert forall i | 0 <= i < |ids| :: ids[i] in ids;
      FollowAll(ids, node, depth);
      visitCount := visitCount[node := Count(node) - 1];
    }
  }

  /** `enumerate_paths`: the first `maxPaths` paths of the pure enumeration. */
  method EnumeratePaths(cfg: Cfg, start: nat, target: nat, bounds: Bounds) returns (paths: seq<seq<nat>>)
    requires WellFormed(cfg) && start < |cfg.nodes|
    ensures paths == Take(AllPaths(cfg, target, bounds.maxIters, [], start, bounds.maxDepth), bounds.maxPaths)
  {
    var search := new PathSearcher(cfg, target, bounds);
    search.Dfs(start, bounds.maxDepth);
    assert [] + AllPaths(cfg, target, bounds.maxIters, [], start, bounds.maxDepth)
        == AllPaths(cfg, target, bounds.maxIters, [], start, bounds.maxDepth);
    paths := search.out;
  }

  // ---- What the enumeration contains --------------------------------------------------------

  /** The continuation leads to the target, meets it only at the end and is short enough. */
  ghost predicate Continues(cfg: Cfg, target: nat, path: seq<nat>, n: nat, depth: nat) {
    IsPath(cfg, {}, path, n, target) && |path| <= depth
    && forall i | 0 <= i < |path| :: path[i] < |cfg.edges| && cfg.edges[path[i]].source != target
  }

  ghost predicate WithinIters(cfg: Cfg, iters: nat, path: seq<nat>) {
    forall n: nat :: LeftCount(cfg, path, n) <= iters
  }

  lemma {:induction false} LeftCountGrows(cfg: Cfg, p: seq<nat>, q: seq<nat>, n: nat)
    ensures LeftCount(cfg, p, n) <= LeftCount(cfg, p + q, n)
    decreases |q|
  {
    if q == [] {
      assert p + q == p;
    } else {
      assert (p + q)[..|p + q| - 1] == p + q[..|q| - 1];
      LeftCountGrows(cfg, p, q[..|q| - 1], n);
    }
  }

  /** Every enumerated path is a bounded one: it continues its prefix to the target, meets the
      target only at the end, and leaves no node too often. */
  lemma {:induction false} EnumeratedBounded(
      cfg: Cfg, target: nat, iters: nat, prefix: seq<nat>, node: nat, depth: nat, path: seq<nat>)
    requires WithinIters(cfg, iters, prefix)
    requires prefix + path in AllPaths(cfg, target, iters, prefix, node, depth)
    ensures Continues(cfg, target, path, node, depth) && WithinIters(cfg, iters, prefix + path)
    decreases depth
  {
    AllPathsExtend(cfg, target, iters, prefix, node, depth, prefix + path);
    if node == target {
      assert path == [] && prefix + path == prefix;
    } else {
      var e := FirstEdge(cfg, target, iters, prefix, node, depth, prefix + path);
      assert path[0] == (prefix + path)[|prefix|];
      assert prefix + path == prefix + [e] + path[1..];
      LeftCountStep(cfg, prefix, e, iters);
      EnumeratedBounded(cfg, target, iters, prefix + [e], cfg.edges[e].target, depth - 1, path[1..]);
      ContinuesStep(cfg, target, path, node, depth);
    }
  }

  /** The edge an enumerated path takes first after its prefix. */
  lemma FirstEdge(cfg: Cfg, target: nat, iters: nat, prefix: seq<nat>, node: nat, depth: nat, p: seq<nat>)
    returns (e: nat)
    requires node != target && p in AllPaths(cfg, target, iters, prefix, node, depth)
    ensures depth > 0 && LeftCount(cfg, prefix, node) < iters && e < |cfg.edges| && cfg.edges[e].source == node
    ensures prefix + [e] <= p && p[|prefix|] == e
    ensures p in AllPaths(cfg, target, iters, prefix + [e], cfg.edges[e].target, depth - 1)
  {
    SomewhereElse(cfg, target, iters, prefix, node, depth, p);
    e := ThroughOutgoing(cfg, target, iters, prefix, node, depth, p);
    NextEdge(cfg, target, iters, prefix, e, cfg.edges[e].target, depth - 1, p);
  }

  lemma SomewhereElse(cfg: Cfg, target: nat, iters: nat, prefix: seq<nat>, node: nat, depth: nat, p: seq<nat>)
    requires node != target && p in AllPaths(cfg, target, iters, prefix, node, depth)
    ensures depth > 0 && LeftCount(cfg, prefix, node) < iters
    ensures p in ThroughEdges(cfg, target, iters, prefix, Outgoing(cfg, node), |Outgoing(cfg, node)|, depth)
  {
  }

  lemma ThroughOutgoing(cfg: Cfg, target: nat, iters: nat, prefix: seq<nat>, node: nat, depth: nat, p: seq<nat>)
    returns (e: nat)
    requires depth > 0
    requires p in ThroughEdges(cfg, target, iters, prefix, Outgoing(cfg, node), |Outgoing(cfg, node)|, depth)
    ensures e < |cfg.edges| && cfg.edges[e].source == node
    ensures p in AllPaths(cfg, target, iters, prefix + [e], cfg.edges[e].target, depth - 1)
  {
    var ids := Outgoing(cfg, node);
    e := ThroughWhich(cfg, target, iters, prefix, ids, |ids|, depth, p);
    assert e in ids;
  }

  lemma ContinuesStep(cfg: Cfg, target: nat, path: seq<nat>, node: nat, depth: nat)
    requires path != [] && path[0] < |cfg.edges| && cfg.edges[path[0]].source == node && node != target && depth > 0
    ensures Continues(cfg, target, path, node, depth) <==>
            Continues(cfg, target, path[1..], cfg.edges[path[0]].target, depth - 1)
  {
    if Continues(cfg, target, path, node, depth) {
      forall i | 0 <= i < |path[1..]| ensures path[1..][i] < |cfg.edges| && cfg.edges[path[1..][i]].source != target {
        assert path[1..][i] == path[i + 1];
      }
    }
    if Continues(cfg, target, path[1..], cfg.edges[path[0]].target, depth - 1) {
      forall i | 0 <= i < |path| ensures path[i] < |cfg.edges| && cfg.edges[path[i]].source != target {
        assert i > 0 ==> path[i] == path[1..][i - 1];
      }
    }
  }

  /** And every bounded path is enumerated. */
  lemma {:induction false} BoundedEnumerated(
      cfg: Cfg, target: nat, iters: nat, prefix: seq<nat>, node: nat, depth: nat, path: seq<nat>)
    requires WithinIters(cfg, iters, prefix)
    requires Continues(cfg, target, path, node, depth) && WithinIters(cfg, iters, prefix + path)
    ensures prefix + path in AllPaths(cfg, target, iters, prefix, node, depth)
    decreases depth
  {
    if path == [] {
      assert prefix + path == prefix;
    } else {
      var e, rest := path[0], path[1..];
      assert prefix + path == prefix + [e] + rest && cfg.edges[e].source == node;
      LeftCountSnoc(cfg, prefix, e);
      forall n: nat ensures LeftCount(cfg, prefix + [e], n) <= iters {
        LeftCountGrows(cfg, prefix + [e], rest, n);
        assert LeftCount(cfg, prefix + path, n) <= iters;
      }
      LeftCountStep(cfg, prefix, e, iters);
      ContinuesStep(cfg, target, path, node, depth);
      BoundedEnumerated(cfg, target, iters, prefix + [e], cfg.edges[e].target, depth - 1, rest);
      var ids := Outgoing(cfg, node);
      assert ids[..|ids|] == ids;
      ThroughThis(cfg, target, iters, prefix, ids, |ids|, depth, prefix + path, e);
    }
  }

  /** Every enumerated path extends its prefix. */
  lemma {:induction false} AllPathsExtend(
      cfg: Cfg, target: nat, iters: nat, prefix: seq<nat>, node: nat, depth: nat, p: seq<nat>)
    requires p in AllPaths(cfg, target, iters, prefix, node, depth)
    ensures prefix <= p
    ensures node != target ==> |p| > |prefix|
    decreases depth
  {
    if node != target {
      SomewhereElse(cfg, target, iters, prefix, node, depth, p);
      var e := ThroughOutgoing(cfg, target, iters, prefix, node, depth, p);
      AllPathsExtend(cfg, target, iters, prefix + [e], cfg.edges[e].target, depth - 1, p);
      assert prefix <= prefix + [e];
    }
  }

  /** A path found through several edges was found through one of them, which it takes next. */
  lemma {:induction false} ThroughWhich(
      cfg: Cfg, target: nat, iters: nat, prefix: seq<nat>, ids: seq<nat>, k: nat, depth: nat, p: seq<nat>)
    returns (e: nat)
    requires depth > 0 && k <= |ids| && p in ThroughEdges(cfg, target, iters, prefix, ids, k, depth)
    ensures e in ids[..k] && e < |cfg.edges|
    ensures p in AllPaths(cfg, target, iters, prefix + [e], cfg.edges[e].target, depth - 1)
    decreases k
  {
    e := ids[k - 1];
    if p in ThroughEdges(cfg, target, iters, prefix, ids, k - 1, depth) {
      e := ThroughWhich(cfg, target, iters, prefix, ids, k - 1, depth, p);
    }
  }

  lemma {:induction false} ThroughThis(
      cfg: Cfg, target: nat, iters: nat, prefix: seq<nat>, ids: seq<nat>, k: nat, depth: nat, p: seq<nat>, e: nat)
    requires depth > 0 && k <= |ids| && e in ids[..k] && e < |cfg.edges|
    requires p in AllPaths(cfg, target, iters, prefix + [e], cfg.edges[e].target, depth - 1)
    ensures p in ThroughEdges(cfg, target, iters, prefix, ids, k, depth)
    decreases k
  {
    if e != ids[k - 1] {
      ThroughThis(cfg, target, iters, prefix, ids, k - 1, depth, p, e);
    }
  }

  lemma LeftCountStep(cfg: Cfg, prefix: seq<nat>, e: nat, iters: nat)
    requires WithinIters(cfg, iters, prefix) && e < |cfg.edges|
    ensures WithinIters(cfg, iters, prefix + [e]) <==> LeftCount(cfg, prefix, cfg.edges[e].source) < iters
  {
    LeftCountSnoc(cfg, prefix, e);
    if LeftCount(cfg, prefix, cfg.edges[e].source) < iters {
      forall n: nat ensures LeftCount(cfg, prefix + [e], n) <= iters {
        assert LeftCount(cfg, prefix, n) <= iters;
      }
    }
  }

  ghost predicate Distinct(paths: seq<seq<nat>>) {
    forall i, j :: 0 <= i < j < |paths| ==> paths[i] != paths[j]
  }

  /** No path is enumerated twice. */
  lemma {:induction false} AllPathsDistinct(cfg: Cfg, target: nat, iters: nat, prefix: seq<nat>, node: nat, depth: nat)
    ensures Distinct(AllPaths(cfg, target, iters, prefix, node, depth))
    decreases depth, 1, 0
  {
    if node != target && depth > 0 && LeftCount(cfg, prefix, node) < iters {
      ThroughEdgesDistinct(cfg, target, iters, prefix, Outgoing(cfg, node), |Outgoing(cfg, node)|, depth);
    }
  }

  lemma {:induction false} ThroughEdgesDistinct(
      cfg: Cfg, target: nat, iters: nat, prefix: seq<nat>, ids: seq<nat>, k: nat, depth: nat)
    requires depth > 0 && k <= |ids| && Increasing(ids)
    ensures Distinct(ThroughEdges(cfg, target, iters, prefix, ids, k, depth))
    decreases depth, 0, k
  {
    if k > 0 {
      var e := ids[k - 1];
      ThroughEdgesDistinct(cfg, target, iters, prefix, ids, k - 1, depth);
      if e < |cfg.edges| {
        AllPathsDistinct(cfg, target, iters, prefix + [e], cfg.edges[e].target, depth - 1);
        var before := ThroughEdges(cfg, target, iters, prefix, ids, k - 1, depth);
        forall p | p in before
          ensures p !in AllPaths(cfg, target, iters, prefix + [e], cfg.edges[e].target, depth - 1)
        {
          ThroughEdgesApart(cfg, target, iters, prefix, ids, k - 1, depth, p);
        }
        DistinctConcat(before, AllPaths(cfg, target, iters, prefix + [e], cfg.edges[e].target, depth - 1));
      }
    }
  }

  lemma NextEdge(cfg: Cfg, target: nat, iters: nat, prefix: seq<nat>, e: nat, node: nat, depth: nat, p: seq<nat>)
    requires p in AllPaths(cfg, target, iters, prefix + [e], node, depth)
    ensures prefix + [e] <= p && p[|prefix|] == e
  {
    AllPathsExtend(cfg, target, iters, prefix + [e], node, depth, p);
    assert (prefix + [e])[|prefix|] == e;
  }

  lemma ThroughEdgesApart(
      cfg: Cfg, target: nat, iters: nat, prefix: seq<nat>, ids: seq<nat>, k: nat, depth: nat, p: seq<nat>)
    requires depth > 0 && k < |ids| && Increasing(ids) && ids[k] < |cfg.edges|
    requires p in ThroughEdges(cfg, target, iters, prefix, ids, k, depth)
    ensures p !in AllPaths(cfg, target, iters, prefix + [ids[k]], cfg.edges[ids[k]].target, depth - 1)
  {
    var d := ThroughWhich(cfg, target, iters, prefix, ids, k, depth, p);
    NextEdge(cfg, target, iters, prefix, d, cfg.edges[d].target, depth - 1, p);
    if p in AllPaths(cfg, target, iters, prefix + [ids[k]], cfg.edges[ids[k]].target, depth - 1) {
      NextEdge(cfg, target, iters, prefix, ids[k], cfg.edges[ids[k]].target, depth - 1, p);
    }
  }

  lemma DistinctConcat(a: seq<seq<nat>>, b: seq<seq<nat>>)
    requires Distinct(a) && Distinct(b) && forall p | p in a :: p !in b
    ensures Distinct(a + b)
  {
    forall i, j | 0 <= i < j < |a + b| ensures (a + b)[i] != (a + b)[j] {
      if i < |a| <= j {
        assert a[i] in a && b[j - |a|] in b;
      }
    }
  }

  /** `enumerate_paths` returns real paths within the bounds, and all of them when the cap allows. */
  lemma EnumerationExact(cfg: Cfg, start: nat, target: nat, bounds: Bounds, paths: seq<seq<nat>>)
    requires paths == Take(AllPaths(cfg, target, bounds.maxIters, [], start, bounds.maxDepth), bounds.maxPaths)
    ensures forall p | p in paths ::
            Continues(cfg, target, p, start, bounds.maxDepth) && WithinIters(cfg, bounds.maxIters, p)
    ensures Distinct(paths)
    ensures |paths| <= bounds.maxPaths
    ensures |AllPaths(cfg, target, bounds.maxIters, [], start, bounds.maxDepth)| <= bounds.maxPaths
            || |paths| < bounds.maxPaths ==>
              forall p | Continues(cfg, target, p, start, bounds.maxDepth) && WithinIters(cfg, bounds.maxIters, p) ::
                p in paths
  {
    var all := AllPaths(cfg, target, bounds.maxIters, [], start, bounds.maxDepth);
    AllPathsDistinct(cfg, target, bounds.maxIters, [], start, bounds.maxDepth);
    forall p: seq<nat>
      ensures p in all <==> Continues(cfg, target, p, start, bounds.maxDepth) && WithinIters(cfg, bounds.maxIters, p)
    {
      assert [] + p == p;
      if p in all {
        EnumeratedBounded(cfg, target, bounds.maxIters, [], start, bounds.maxDepth, p);
      } else if Continues(cfg, target, p, start, bounds.maxDepth) && WithinIters(cfg, bounds.maxIters, p) {
        BoundedEnumerated(cfg, target, bounds.maxIters, [], start, bounds.maxDepth, p);
      }
    }
  }
}
