/** Kahn's algorithm as src/cfg/abstract_cfg.rs runs it: a stack of ready nodes, in-degrees over
    the edges that are not excluded. */
module Ordering {
  import opened Formulas
  import opened Graphs

  ghost predicate IsPermutation(order: seq<nat>, k: nat) {
    |order| == k
    && (forall i, j :: 0 <= i < j < |order| ==> order[i] != order[j])
    && (forall n: nat :: n < k <==> n in order)
  }

  /** Every kept edge goes forward. */
  ghost predicate Forward(cfg: Cfg, excluded: set<nat>, order: seq<nat>) {
    forall i, e: nat :: 0 <= i < |order| && e < |cfg.edges| && e !in excluded && cfg.edges[e].target == order[i]
                        ==> cfg.edges[e].source in order[..i]
  }

  ghost predicate IsTopological(cfg: Cfg, excluded: set<nat>, order: seq<nat>) {
    IsPermutation(order, |cfg.nodes|) && Forward(cfg, excluded, order)
  }

  ghost predicate HasOrder(cfg: Cfg, excluded: set<nat>) {
    exists order :: IsTopological(cfg, excluded, order)
  }

  /** The edges among `remaining` that enter `n`. */
  ghost function Entering(cfg: Cfg, remaining: set<nat>, n: nat): set<nat>
    requires forall e :: e in remaining ==> e < |cfg.edges|
  {
    set e | e in remaining && cfg.edges[e].target == n
  }

  ghost predicate Counted(cfg: Cfg, remaining: set<nat>, indegree: seq<nat>) {
    |indegree| == |cfg.nodes|
    && (forall e :: e in remaining ==> e < |cfg.edges|)
    && forall n: nat :: n < |indegree| ==> indegree[n] == |Entering(cfg, remaining, n)|
  }

  lemma EnteringUp(cfg: Cfg, remaining: set<nat>, e: nat, m: nat)
    requires WellFormed(cfg) && e < |cfg.edges| && e !in remaining && forall d :: d in remaining ==> d < |cfg.edges|
    ensures |Entering(cfg, remaining + {e}, m)|
            == |Entering(cfg, remaining, m)| + (if m == cfg.edges[e].target then 1 else 0)
  {
    assert Entering(cfg, remaining + {e}, m)
           == Entering(cfg, remaining, m) + (if m == cfg.edges[e].target then {e} else {});
    assert e !in Entering(cfg, remaining, m);
  }

  lemma CountUp(cfg: Cfg, remaining: set<nat>, indegree: seq<nat>, e: nat)
    requires WellFormed(cfg) && Counted(cfg, remaining, indegree) && e < |cfg.edges| && e !in remaining
    ensures var n := cfg.edges[e].target;
            Counted(cfg, remaining + {e}, indegree[n := indegree[n] + 1])
  {
    var n := cfg.edges[e].target;
    forall m: nat | m < |indegree|
      ensures |Entering(cfg, remaining + {e}, m)| == |Entering(cfg, remaining, m)| + (if m == n then 1 else 0)
    {
      EnteringUp(cfg, remaining, e, m);
    }
  }

  lemma CountDown(cfg: Cfg, remaining: set<nat>, indegree: seq<nat>, e: nat)
    requires WellFormed(cfg) && Counted(cfg, remaining, indegree) && e in remaining
    ensures var n := cfg.edges[e].target;
            indegree[n] > 0 && Counted(cfg, remaining - {e}, indegree[n := indegree[n] - 1])
  {
    var n := cfg.edges[e].target;
    assert e in Entering(cfg, remaining, n);
    forall m: nat | m < |indegree|
      ensures Entering(cfg, remaining - {e}, m) == Entering(cfg, remaining, m) - (if m == n then {e} else {})
    {
    }
  }

  /** Every node's in-degree is the number of kept edges that enter it. */
  method CountIncoming(cfg: Cfg, excluded: set<nat>) returns (indegree: seq<nat>)
    requires WellFormed(cfg)
    ensures Counted(cfg, Below(|cfg.edges|) - excluded, indegree)
  {
    indegree := seq(|cfg.nodes|, i => 0);
    ghost var counted: set<nat> := {};
    for e := 0 to |cfg.edges|
      invariant Counted(cfg, counted, indegree)
      invariant forall d: nat :: d in counted <==> d < e && d !in excluded
    {
      if e !in excluded {
        CountUp(cfg, counted, indegree, e);
        var n := cfg.edges[e].target;
        indegree := indegree[n := indegree[n] + 1];
        counted := counted + {e};
      }
    }
    assert counted == Below(|cfg.edges|) - excluded;
  }

  /** What holds between two steps: `indegree` counts the remaining edges, the queue holds the
      unordered nodes that no remaining edge enters, and the order so far is forward. */
  ghost predicate Progress(
      cfg: Cfg, excluded: set<nat>, remaining: set<nat>, indegree: seq<nat>, order: seq<nat>, queue: seq<nat>)
  {
    && Counted(cfg, remaining, indegree)
    && (forall n: nat :: n in queue ==> n < |cfg.nodes| && n !in order)
    && (forall n: nat :: n in order ==> n < |cfg.nodes|)
    && (forall i, j :: 0 <= i < j < |order| ==> order[i] != order[j])
    && (forall i, j :: 0 <= i < j < |queue| ==> queue[i] != queue[j])
    && (forall n: nat :: n < |cfg.nodes| ==> (indegree[n] == 0 <==> n in queue || n in order))
    && Forward(cfg, excluded, order)
  }

  /** Remaining edges are the kept edges whose source is not ordered, apart from those of `node`
      that the inner loop still has to visit. */
  ghost predicate Unvisited(
      cfg: Cfg, excluded: set<nat>, remaining: set<nat>, order: seq<nat>, node: nat, from: nat)
  {
    forall e: nat :: e in remaining <==>
      e < |cfg.edges| && e !in excluded
      && (cfg.edges[e].source !in order || (cfg.edges[e].source == node && e >= from))
  }

  method Release(
      cfg: Cfg, excluded: set<nat>, node: nat, indegree0: seq<nat>, order: seq<nat>, queue0: seq<nat>,
      ghost remaining0: set<nat>)
    returns (indegree: seq<nat>, queue: seq<nat>, ghost remaining: set<nat>)
    requires WellFormed(cfg) && node in order
    requires Progress(cfg, excluded, remaining0, indegree0, order, queue0)
    requires Unvisited(cfg, excluded, remaining0, order, node, 0)
    ensures Progress(cfg, excluded, remaining, indegree, order, queue)
    ensures forall e: nat :: e in remaining <==>
              e < |cfg.edges| && e !in excluded && cfg.edges[e].source !in order
  {
    indegree, queue, remaining := indegree0, queue0, remaining0;
    for e := 0 to |cfg.edges|
      invariant Progress(cfg, excluded, remaining, indegree, order, queue)
      invariant Unvisited(cfg, excluded, remaining, order, node, e)
    {
      if cfg.edges[e].source == node && e !in excluded {
        CountDown(cfg, remaining, indegree, e);
        var target := cfg.edges[e].target;
        assert indegree[target] > 0;
        indegree := indegree[target := indegree[target] - 1];
        remaining := remaining - {e};
        if indegree[target] == 0 {
          queue := queue + [target];
        }
      }
    }
  }

  /** `topological_order_excluding`: a permutation of the nodes in which every kept edge goes
      forward, and no order exactly when a cycle of kept edges remains. */
  method TopologicalOrder(cfg: Cfg, excluded: set<nat>) returns (order: Option<seq<nat>>)
    requires WellFormed(cfg)
    ensures order.Some? ==> IsTopological(cfg, excluded, order.value)
    ensures order.None? <==> Cyclic(cfg, excluded)
  {
    var indegree := CountIncoming(cfg, excluded);
    ghost var remaining := Below(|cfg.edges|) - excluded;
    var queue: seq<nat> := [];
    for n := 0 to |cfg.nodes|
      invariant forall m: nat :: m in queue <==> m < n && indegree[m] == 0
      invariant forall i, j :: 0 <= i < j < |queue| ==> queue[i] != queue[j]
    {
      if indegree[n] == 0 {
        queue := queue + [n];
      }
    }
    var out: seq<nat> := [];
    while queue != []
      invariant Progress(cfg, excluded, remaining, indegree, out, queue)
      invariant forall e: nat :: e in remaining <==>
                  e < |cfg.edges| && e !in excluded && cfg.edges[e].source !in out
      decreases Below(|cfg.nodes|) - Ids(out)
    {
      var node := queue[|queue| - 1];
      ghost var before := out;
      Pop(cfg, excluded, remaining, indegree, out, queue);
      queue := queue[..|queue| - 1];
      out := out + [node];
      assert Ids(out) == Ids(before) + {node};
      indegree, queue, remaining := Release(cfg, excluded, node, indegree, out, queue, remaining);
    }
    if |out| == |cfg.nodes| {
      FullLength(out, |cfg.nodes|);
      ForwardAcyclic(cfg, excluded, out);
      order := Some(out);
    } else {
      Stuck(cfg, excluded, remaining, indegree, out);
      order := None;
    }
  }

  lemma NoneEntering(cfg: Cfg, remaining: set<nat>, indegree: seq<nat>, n: nat)
    requires Counted(cfg, remaining, indegree) && n < |indegree| && indegree[n] == 0
    ensures forall e :: e in remaining ==> cfg.edges[e].target != n
  {
    assert Entering(cfg, remaining, n) == {};
    forall e | e in remaining ensures cfg.edges[e].target != n {
      assert e !in Entering(cfg, remaining, n);
    }
  }

  lemma Pop(cfg: Cfg, excluded: set<nat>, remaining: set<nat>, indegree: seq<nat>, order: seq<nat>, queue: seq<nat>)
    requires Progress(cfg, excluded, remaining, indegree, order, queue) && queue != []
    requires forall e: nat :: e in remaining <==>
               e < |cfg.edges| && e !in excluded && cfg.edges[e].source !in order
    ensures var node := queue[|queue| - 1];
            node !in order && node < |cfg.nodes|
            && Progress(cfg, excluded, remaining, indegree, order + [node], queue[..|queue| - 1])
  {
    var node := queue[|queue| - 1];
    assert node in queue;
    NoneEntering(cfg, remaining, indegree, node);
    var longer, front := order + [node], queue[..|queue| - 1];
    assert queue == front + [node];
    assert forall n: nat :: n in queue <==> n in front || n == node;
    assert forall n: nat :: n in longer <==> n in order || n == node;
    assert node !in front;
    forall i, e: nat | 0 <= i < |longer| && e < |cfg.edges| && e !in excluded && cfg.edges[e].target == longer[i]
      ensures cfg.edges[e].source in longer[..i]
    {
      assert longer[..i] == order[..i];
      assert i == |order| ==> e !in remaining;
    }
  }

  lemma EnteredByRemaining(
      cfg: Cfg, excluded: set<nat>, remaining: set<nat>, indegree: seq<nat>, order: seq<nat>, n: nat)
    requires WellFormed(cfg) && Counted(cfg, remaining, indegree)
    requires forall e: nat :: e in remaining <==>
               e < |cfg.edges| && e !in excluded && cfg.edges[e].source !in order
    requires n < |cfg.nodes| && indegree[n] > 0
    ensures EnteredFrom(cfg, excluded, Below(|cfg.nodes|) - Ids(order), n)
  {
    var e :| e in Entering(cfg, remaining, n);
    assert cfg.edges[e].source in Below(|cfg.nodes|) - Ids(order);
  }

  /** When the queue runs dry too early, the unordered nodes all have a remaining edge among
      themselves. */
  lemma Stuck(cfg: Cfg, excluded: set<nat>, remaining: set<nat>, indegree: seq<nat>, order: seq<nat>)
    requires WellFormed(cfg) && Counted(cfg, remaining, indegree)
    requires forall n: nat :: n < |cfg.nodes| && n !in order ==> indegree[n] > 0
    requires forall e: nat :: e in remaining <==>
               e < |cfg.edges| && e !in excluded && cfg.edges[e].source !in order
    requires |order| != |cfg.nodes| && forall n: nat :: n in order ==> n < |cfg.nodes|
    requires forall i, j :: 0 <= i < j < |order| ==> order[i] != order[j]
    ensures Cyclic(cfg, excluded)
  {
    var stuck := MissingNode(order, |cfg.nodes|);
    var unordered := Below(|cfg.nodes|) - Ids(order);
    forall n | n in unordered ensures EnteredFrom(cfg, excluded, unordered, n) {
      EnteredByRemaining(cfg, excluded, remaining, indegree, order, n);
    }
    assert IsPath(cfg, excluded, [], stuck, stuck);
    FindCycle(cfg, excluded, unordered, {stuck}, stuck);
  }

  lemma {:induction false} BelowSize(k: nat)
    ensures |Below(k)| == k
  {
    if k > 0 {
      BelowSize(k - 1);
    }
  }

  lemma {:induction false} ElementCount(order: seq<nat>)
    requires forall i, j :: 0 <= i < j < |order| ==> order[i] != order[j]
    ensures |Ids(order)| == |order|
  {
    if order != [] {
      var front, last := order[..|order| - 1], order[|order| - 1];
      ElementCount(front);
      assert order == front + [last] && last !in front;
      assert Ids(order) == Ids(front) + {last};
    }
  }

  lemma FullLength(order: seq<nat>, k: nat)
    requires |order| == k && (forall n: nat :: n in order ==> n < k)
    requires forall i, j :: 0 <= i < j < |order| ==> order[i] != order[j]
    ensures IsPermutation(order, k)
  {
    ElementCount(order);
    BelowSize(k);
    SameSize(Ids(order), Below(k));
    forall n: nat | n < k ensures n in order {
      assert n in Below(k) && n in Ids(order);
    }
  }

  lemma MissingNode(order: seq<nat>, k: nat) returns (n: nat)
    requires |order| != k && (forall n: nat :: n in order ==> n < k)
    requires forall i, j :: 0 <= i < j < |order| ==> order[i] != order[j]
    ensures n < k && n !in order
  {
    ElementCount(order);
    BelowSize(k);
    var all, got := Below(k), Ids(order);
    assert got != all;
    n :| n in all && n !in got;
  }

  lemma SameSize(a: set<nat>, b: set<nat>)
    requires a <= b && |a| == |b|
    ensures forall n :: n in b ==> n in a
  {
    assert b == a + (b - a);
    assert |b| == |a| + |b - a|;
  }

  lemma {:induction false} ForwardPath(
      cfg: Cfg, excluded: set<nat>, order: seq<nat>, path: seq<nat>, n: nat, m: nat, j: nat)
    requires Forward(cfg, excluded, order) && IsPath(cfg, excluded, path, n, m)
    requires j < |order| && order[j] == m
    ensures path == [] ==> n == m
    ensures path != [] ==> n in order[..j]
    decreases |path|
  {
    if path != [] {
      var k := PathSplit(cfg, excluded, path, |path| - 1, n, m);
      var last := path[|path| - 1];
      assert path[|path| - 1..] == [last];
      assert cfg.edges[last].target == m;
      var i :| 0 <= i < j && order[i] == k;
      ForwardPath(cfg, excluded, order, path[..|path| - 1], n, k, i);
      assert order[..i] <= order[..j];
    }
  }

  /** A topological order leaves no cycle of kept edges. */
  lemma ForwardAcyclic(cfg: Cfg, excluded: set<nat>, order: seq<nat>)
    requires WellFormed(cfg) && IsTopological(cfg, excluded, order)
    ensures !Cyclic(cfg, excluded)
  {
    forall n, path | path != [] && IsPath(cfg, excluded, path, n, n) ensures false {
      assert n in order;
      var j :| 0 <= j < |order| && order[j] == n;
      ForwardPath(cfg, excluded, order, path, n, n, j);
    }
  }

  /** If every node of a set has a kept edge from within the set, walking backwards meets a node
      twice. `seen` are nodes that `head` reaches. */
  ghost predicate EnteredFrom(cfg: Cfg, excluded: set<nat>, nodes: set<nat>, n: nat) {
    exists e: nat :: e < |cfg.edges| && e !in excluded && cfg.edges[e].target == n
                     && cfg.edges[e].source in nodes
  }

  lemma {:induction false} FindCycle(cfg: Cfg, excluded: set<nat>, nodes: set<nat>, seen: set<nat>, head: nat)
    requires head in seen && seen <= nodes
    requires forall n {:trigger EnteredFrom(cfg, excluded, nodes, n)} ::
               n in nodes ==> EnteredFrom(cfg, excluded, nodes, n)
    requires forall n :: n in seen ==> Connected(cfg, excluded, head, n)
    ensures Cyclic(cfg, excluded)
    decreases nodes - seen
  {
    assert EnteredFrom(cfg, excluded, nodes, head);
    var e: nat :| e < |cfg.edges| && e !in excluded && cfg.edges[e].target == head
                  && cfg.edges[e].source in nodes;
    var prior := cfg.edges[e].source;
    if prior in seen {
      var p := Prepend(cfg, excluded, e, prior);
    } else {
      assert IsPath(cfg, excluded, [], prior, prior);
      forall n | n in seen ensures Connected(cfg, excluded, prior, n) {
        var p := Prepend(cfg, excluded, e, n);
      }
      FindCycle(cfg, excluded, nodes, seen + {prior}, prior);
    }
  }

  lemma Prepend(cfg: Cfg, excluded: set<nat>, e: nat, n: nat) returns (path: seq<nat>)
    requires e < |cfg.edges| && e !in excluded && Connected(cfg, excluded, cfg.edges[e].target, n)
    ensures path != [] && IsPath(cfg, excluded, path, cfg.edges[e].source, n)
  {
    var p :| IsPath(cfg, excluded, p, cfg.edges[e].target, n);
    EdgePath(cfg, excluded, e);
    PathConcat(cfg, excluded, [e], p, cfg.edges[e].source, cfg.edges[e].target, n);
    path := [e] + p;
  }

  /** A cycle of kept edges among nodes that the entry does not reach. */
  ghost predicate UnreachedCycle(cfg: Cfg, excluded: set<nat>) {
    exists n, path :: path != [] && IsPath(cfg, excluded, path, n, n) && !Reachable(cfg, n)
  }

  lemma OnlyUnreachedCycles(cfg: Cfg, excluded: set<nat>)
    requires CutsCycles(cfg, excluded)
    ensures Cyclic(cfg, excluded) <==> UnreachedCycle(cfg, excluded)
  {
    if n, path :| path != [] && IsPath(cfg, excluded, path, n, n) {
      assert !Reachable(cfg, n);
    }
  }

  /** `detect_back_edges` then Kahn, as the loop checks run them: with the back edges excluded there
      is an order, unless a cycle remains among nodes that the entry does not reach. */
  method SkeletonOrder(cfg: Cfg) returns (back: seq<nat>, order: Option<seq<nat>>)
    requires WellFormed(cfg)
    ensures AllClimb(cfg, back) && CutsCycles(cfg, Ids(back))
    ensures order.Some? ==> IsTopological(cfg, Ids(back), order.value)
    ensures order.None? <==> UnreachedCycle(cfg, Ids(back))
  {
    back := DetectBackEdges(cfg);
    order := TopologicalOrder(cfg, Ids(back));
    OnlyUnreachedCycles(cfg, Ids(back));
  }

  /** Back edges are found exactly when a cycle is reachable from the entry. */
  lemma BackEdgesIffCycle(cfg: Cfg, back: seq<nat>)
    requires ClosesCycles(cfg, back) && CutsCycles(cfg, Ids(back))
    ensures back == [] <==> CutsCycles(cfg, {})
  {
    if back != [] {
      var b := back[0];
      assert b in back;
      var n := cfg.edges[b].source;
      var p :| IsPath(cfg, {}, p, cfg.edges[b].target, n);
      EdgePath(cfg, {}, b);
      PathConcat(cfg, {}, [b], p, n, cfg.edges[b].target, n);
      assert [b] + p != [];
    } else {
      assert Ids(back) == {};
    }
  }
}
