/** The control-flow graph of src/cfg/abstract_cfg.rs with its two graph algorithms: depth-first
    back-edge detection and Kahn's ordering with excluded edges.

    Node and edge ids are allocated in sequence, so they are indices here. */
module Graphs {
  import opened Formulas
  import opened Transfer

  datatype Edge = Edge(source: nat, target: nat, guard: Formula, effects: seq<Effect>)

  datatype Cfg = Cfg(nodes: seq<seq<Effect>>, edges: seq<Edge>, entry: nat)

  predicate WellFormed(cfg: Cfg) {
    cfg.entry < |cfg.nodes|
    && forall e :: 0 <= e < |cfg.edges| ==>
                     cfg.edges[e].source < |cfg.nodes| && cfg.edges[e].target < |cfg.nodes|
  }

  // ---- Edge lists ---------------------------------------------------------------------------

  ghost predicate Increasing(ids: seq<nat>) {
    forall i, j :: 0 <= i < j < |ids| ==> ids[i] < ids[j]
  }

  /** The ids below `k` of the edges leaving `n`, in id order. */
  function OutgoingBelow(cfg: Cfg, n: nat, k: nat): (ids: seq<nat>)
    requires k <= |cfg.edges|
    ensures Increasing(ids)
    ensures forall e: nat :: e in ids <==> e < k && cfg.edges[e].source == n
  {
    if k == 0 then []
    else
      var ids := OutgoingBelow(cfg, n, k - 1);
      assert forall i | 0 <= i < |ids| :: ids[i] in ids;
      ids + (if cfg.edges[k - 1].source == n then [k - 1] else [])
  }

  function IncomingBelow(cfg: Cfg, n: nat, k: nat): (ids: seq<nat>)
    requires k <= |cfg.edges|
    ensures Increasing(ids)
    ensures forall e: nat :: e in ids <==> e < k && cfg.edges[e].target == n
  {
    if k == 0 then []
    else
      var ids := IncomingBelow(cfg, n, k - 1);
      assert forall i | 0 <= i < |ids| :: ids[i] in ids;
      ids + (if cfg.edges[k - 1].target == n then [k - 1] else [])
  }

  predicate EdgeIds(cfg: Cfg, ids: seq<nat>) {
    forall i | 0 <= i < |ids| :: ids[i] < |cfg.edges|
  }

  function Outgoing(cfg: Cfg, n: nat): seq<nat> {
    OutgoingBelow(cfg, n, |cfg.edges|)
  }

  function Incoming(cfg: Cfg, n: nat): (ids: seq<nat>)
    ensures EdgeIds(cfg, ids)
  {
    var ids := IncomingBelow(cfg, n, |cfg.edges|);
    assert forall i | 0 <= i < |ids| :: ids[i] in ids;
    ids
  }

  // ---- Paths --------------------------------------------------------------------------------

  /** `path` leads from `n` to `m` over edges that are not excluded. */
  ghost predicate IsPath(cfg: Cfg, excluded: set<nat>, path: seq<nat>, n: nat, m: nat)
    decreases |path|
  {
    if path == [] then n == m
    else
      path[0] < |cfg.edges| && path[0] !in excluded && cfg.edges[path[0]].source == n
      && IsPath(cfg, excluded, path[1..], cfg.edges[path[0]].target, m)
  }

  ghost predicate Connected(cfg: Cfg, excluded: set<nat>, n: nat, m: nat) {
    exists path :: IsPath(cfg, excluded, path, n, m)
  }

  ghost predicate Reachable(cfg: Cfg, n: nat) {
    Connected(cfg, {}, cfg.entry, n)
  }

  ghost predicate Cyclic(cfg: Cfg, excluded: set<nat>) {
    exists n, path :: path != [] && IsPath(cfg, excluded, path, n, n)
  }

  lemma {:induction false} PathConcat(cfg: Cfg, excluded: set<nat>, p: seq<nat>, q: seq<nat>, n: nat, m: nat, k: nat)
    requires IsPath(cfg, excluded, p, n, m) && IsPath(cfg, excluded, q, m, k)
    ensures IsPath(cfg, excluded, p + q, n, k)
    decreases |p|
  {
    if p == [] {
      assert p + q == q;
    } else {
      PathConcat(cfg, excluded, p[1..], q, cfg.edges[p[0]].target, m, k);
      assert (p + q)[1..] == p[1..] + q;
    }
  }

  lemma {:induction false} PathSplit(
      cfg: Cfg, excluded: set<nat>, path: seq<nat>, i: nat, n: nat, k: nat)
    returns (m: nat)
    requires IsPath(cfg, excluded, path, n, k) && i <= |path|
    ensures IsPath(cfg, excluded, path[..i], n, m) && IsPath(cfg, excluded, path[i..], m, k)
    ensures i < |path| ==> path[i] < |cfg.edges| && path[i] !in excluded && cfg.edges[path[i]].source == m
    ensures i > 0 ==> path[i - 1] < |cfg.edges| && cfg.edges[path[i - 1]].target == m
    decreases |path|
  {
    if i == 0 {
      m := n;
    } else {
      m := PathSplit(cfg, excluded, path[1..], i - 1, cfg.edges[path[0]].target, k);
      assert path[..i][1..] == path[1..][..i - 1];
      assert path[i..] == path[1..][i - 1..];
      assert i < |path| ==> path[i] == path[1..][i - 1];
      assert i > 1 ==> path[i - 1] == path[1..][i - 2];
    }
  }

  lemma {:induction false} PathWithin(cfg: Cfg, excluded: set<nat>, more: set<nat>, path: seq<nat>, n: nat, m: nat)
    requires IsPath(cfg, excluded, path, n, m) && forall e :: e in path ==> e !in more
    ensures IsPath(cfg, excluded + more, path, n, m)
    decreases |path|
  {
    if path != [] {
      assert path[0] in path && forall e :: e in path[1..] ==> e in path;
      PathWithin(cfg, excluded, more, path[1..], cfg.edges[path[0]].target, m);
    }
  }

  lemma {:induction false} PathRelax(cfg: Cfg, excluded: set<nat>, fewer: set<nat>, path: seq<nat>, n: nat, m: nat)
    requires IsPath(cfg, excluded, path, n, m) && fewer <= excluded
    ensures IsPath(cfg, fewer, path, n, m)
    decreases |path|
  {
    if path != [] {
      PathRelax(cfg, excluded, fewer, path[1..], cfg.edges[path[0]].target, m);
    }
  }

  lemma {:induction false} PathEnds(cfg: Cfg, excluded: set<nat>, path: seq<nat>, n: nat, m: nat)
    requires WellFormed(cfg) && IsPath(cfg, excluded, path, n, m) && n < |cfg.nodes|
    ensures m < |cfg.nodes|
    decreases |path|
  {
    if path != [] {
      PathEnds(cfg, excluded, path[1..], cfg.edges[path[0]].target, m);
    }
  }

  lemma EdgePath(cfg: Cfg, excluded: set<nat>, e: nat)
    requires e < |cfg.edges| && e !in excluded
    ensures IsPath(cfg, excluded, [e], cfg.edges[e].source, cfg.edges[e].target)
  {
    assert [e][1..] == [];
  }

  function Ids(ids: seq<nat>): set<nat> {
    set e | e in ids
  }

  // ---- Back edges ---------------------------------------------------------------------------

  function Below(k: nat): (r: set<nat>)
    ensures forall n: nat :: n in r <==> n < k
  {
    if k == 0 then {} else Below(k - 1) + {k - 1}
  }

  ghost function AllNodes(cfg: Cfg): set<nat> {
    Below(|cfg.nodes|)
  }

  /** Every edge leaving a finished node is a back edge or goes to an earlier finished node. */
  ghost predicate FinishOrder(cfg: Cfg, finished: seq<nat>, back: seq<nat>) {
    forall i, e :: 0 <= i < |finished| && 0 <= e < |cfg.edges| && cfg.edges[e].source == finished[i]
                   ==> e in back || cfg.edges[e].target in finished[..i]
  }

  ghost predicate HasEdge(cfg: Cfg, n: nat, m: nat) {
    exists e: nat :: e < |cfg.edges| && cfg.edges[e].source == n && cfg.edges[e].target == m
  }

  /** A simple path from the entry, as the recursion stack of the search holds one. */
  ghost predicate IsSpine(cfg: Cfg, spine: seq<nat>) {
    (forall i, j :: 0 <= i < j < |spine| ==> spine[i] != spine[j])
    && (spine != [] ==> spine[0] == cfg.entry)
    && forall i | 0 < i < |spine| :: HasEdge(cfg, spine[i - 1], spine[i])
  }

  /** The edge leads from the end of a simple path back to a node of that path. */
  ghost predicate ClimbsSpine(cfg: Cfg, b: nat) {
    b < |cfg.edges|
    && exists spine :: spine != [] && IsSpine(cfg, spine)
                       && cfg.edges[b].source == spine[|spine| - 1] && cfg.edges[b].target in spine
  }

  ghost predicate AllClimb(cfg: Cfg, back: seq<nat>) {
    forall b | b in back :: ClimbsSpine(cfg, b)
  }

  /** `back` holds edges that close a cycle through entry-reachable nodes. */
  ghost predicate ClosesCycles(cfg: Cfg, back: seq<nat>) {
    forall b :: b in back ==>
                  b < |cfg.edges| && Reachable(cfg, cfg.edges[b].source)
                  && Connected(cfg, {}, cfg.edges[b].target, cfg.edges[b].source)
  }

  /** The state of `detect_back_edges_from`. The ghost fields record the order in which nodes
      finish and the order of the recursion stack. */
  class DepthFirstSearch {
    var visited: set<nat>
    var stack: set<nat>
    var backEdges: seq<nat>
    ghost var finished: seq<nat>
    ghost var spine: seq<nat>

    constructor ()
      ensures visited == {} && stack == {} && backEdges == [] && finished == [] && spine == []
    {
      visited, stack, backEdges, finished, spine := {}, {}, [], [], [];
    }

    ghost predicate Valid(cfg: Cfg)
      reads this
    {
      && visited <= AllNodes(cfg)
      && stack == (set n | n in spine)
      && IsSpine(cfg, spine)
      && (forall n :: n in visited <==> n in stack || n in finished)
      && (forall n :: n in stack ==> n !in finished)
      && (forall i, j :: 0 <= i < j < |finished| ==> finished[i] != finished[j])
      && FinishOrder(cfg, finished, backEdges)
      && AllClimb(cfg, backEdges)
      && (forall i, j :: 0 <= i < j < |backEdges| ==> backEdges[i] != backEdges[j])
      && (forall b :: b in backEdges ==> cfg.edges[b].target in visited && cfg.edges[b].source in visited)
    }

    /** The node comes next: it is the entry, or an edge from the top of the stack enters it. */
    ghost predicate Next(cfg: Cfg, node: nat)
      reads this
    {
      node < |cfg.nodes| && node !in visited
      && if spine == [] then node == cfg.entry else HasEdge(cfg, spine[|spine| - 1], node)
    }

    method Enter(cfg: Cfg, node: nat)
      requires Valid(cfg) && Next(cfg, node)
      modifies this
      ensures Valid(cfg)
      ensures visited == old(visited) + {node} && stack == old(stack) + {node}
      ensures spine == old(spine) + [node] && finished == old(finished)
      ensures backEdges == old(backEdges)
    {
      visited := visited + {node};
      stack := stack + {node};
      spine := spine + [node];
    }

    method RecordBackEdge(cfg: Cfg, e: nat)
      requires Valid(cfg) && e < |cfg.edges| && spine != []
      requires cfg.edges[e].source == spine[|spine| - 1] && cfg.edges[e].target in stack && e !in backEdges
      modifies this`backEdges
      ensures Valid(cfg) && backEdges == old(backEdges) + [e]
    {
      backEdges := backEdges + [e];
    }

    method Leave(cfg: Cfg, node: nat)
      requires Valid(cfg) && spine != [] && spine[|spine| - 1] == node
      requires forall e: nat :: e < |cfg.edges| && cfg.edges[e].source == node
                                ==> e in backEdges || cfg.edges[e].target in finished
      modifies this
      ensures Valid(cfg)
      ensures spine == old(spine[..|spine| - 1]) && stack == old(stack) - {node}
      ensures finished == old(finished) + [node]
      ensures visited == old(visited) && backEdges == old(backEdges)
    {
      ghost var prior := finished;
      finished := finished + [node];
      assert forall i :: 0 <= i <= |prior| ==> finished[..i] == prior[..i];
      stack := stack - {node};
      spine := spine[..|spine| - 1];
      assert old(spine) == spine + [node];
    }

    /** The search has only gone on: nothing recorded is lost, and new back edges leave nodes that
        were not visited before, except those named. */
    ghost predicate Onward(cfg: Cfg, visited0: set<nat>, finished0: seq<nat>, back0: seq<nat>, named: seq<nat>)
      reads this
    {
      visited0 <= visited && finished0 <= finished && back0 <= backEdges
      && forall b | b in backEdges && b !in back0 && b !in named ::
           b < |cfg.edges| && cfg.edges[b].source !in visited0
    }

    /** One edge out of the top of the stack: a back edge, or a step to a node not visited yet. */
    method FollowEdge(cfg: Cfg, e: nat)
      requires WellFormed(cfg) && Valid(cfg) && e < |cfg.edges| && e !in backEdges
      requires spine != [] && cfg.edges[e].source == spine[|spine| - 1]
      modifies this
      ensures Valid(cfg) && stack == old(stack) && spine == old(spine)
      ensures Onward(cfg, old(visited), old(finished), old(backEdges), [e])
      ensures e in backEdges || cfg.edges[e].target in finished
      decreases AllNodes(cfg) - visited, 1
    {
      var target := cfg.edges[e].target;
      if target in stack {
        RecordBackEdge(cfg, e);
      } else if target !in visited {
        assert HasEdge(cfg, cfg.edges[e].source, target);
        Visit(cfg, target);
      }
    }

    /** All edges out of the top of the stack. */
    method FollowEdges(cfg: Cfg, node: nat, out: seq<nat>)
      requires WellFormed(cfg) && Valid(cfg) && spine != [] && spine[|spine| - 1] == node
      requires Increasing(out) && forall i | 0 <= i < |out| :: out[i] < |cfg.edges| && cfg.edges[out[i]].source == node
      requires forall b | b in backEdges :: cfg.edges[b].source != node
      modifies this
      ensures Valid(cfg) && stack == old(stack) && spine == old(spine)
      ensures Onward(cfg, old(visited), old(finished), old(backEdges), out)
      ensures forall i | 0 <= i < |out| :: out[i] in backEdges || cfg.edges[out[i]].target in finished
      decreases AllNodes(cfg) - visited, 2
    {
      for i := 0 to |out|
        invariant Valid(cfg) && stack == old(stack) && spine == old(spine)
        invariant Onward(cfg, old(visited), old(finished), old(backEdges), out)
        invariant forall b | b in backEdges && cfg.edges[b].source == node :: b in out[..i]
        invariant forall j | 0 <= j < i :: out[j] in backEdges || cfg.edges[out[j]].target in finished
      {
        assert out[i] !in out[..i] && node in visited;
        FollowEdge(cfg, out[i]);
        assert out[..i + 1] == out[..i] + [out[i]];
      }
    }

    method Visit(cfg: Cfg, node: nat)
      requires WellFormed(cfg) && Valid(cfg) && Next(cfg, node)
      modifies this
      ensures Valid(cfg)
      ensures stack == old(stack) && spine == old(spine) && node in finished
      ensures Onward(cfg, old(visited), old(finished), old(backEdges), [])
      decreases AllNodes(cfg) - visited, 0
    {
      Enter(cfg, node);
      var out := Outgoing(cfg, node);
      assert forall i | 0 <= i < |out| :: out[i] in out;
      FollowEdges(cfg, node, out);
      forall e: nat | e < |cfg.edges| && cfg.edges[e].source == node
        ensures e in backEdges || cfg.edges[e].target in finished
      {
        assert e in out;
      }
      Leave(cfg, node);
    }
  }

  /** The edges of the path join neighbours of the stretch from `i` to `j`. */
  ghost predicate WithinSpine(cfg: Cfg, spine: seq<nat>, i: nat, j: nat, path: seq<nat>)
    requires i <= j < |spine|
  {
    forall e | e in path ::
      e < |cfg.edges| && exists k | i < k <= j :: cfg.edges[e].source == spine[k - 1] && cfg.edges[e].target == spine[k]
  }

  lemma {:induction false} AlongSpine(cfg: Cfg, spine: seq<nat>, i: nat, j: nat) returns (path: seq<nat>)
    requires IsSpine(cfg, spine) && i <= j < |spine|
    ensures IsPath(cfg, {}, path, spine[i], spine[j]) && WithinSpine(cfg, spine, i, j, path)
    decreases j - i
  {
    if i == j {
      path := [];
    } else {
      var front := AlongSpine(cfg, spine, i, j - 1);
      assert HasEdge(cfg, spine[j - 1], spine[j]);
      var e: nat :| e < |cfg.edges| && cfg.edges[e].source == spine[j - 1] && cfg.edges[e].target == spine[j];
      EdgePath(cfg, {}, e);
      PathConcat(cfg, {}, front, [e], spine[i], spine[j - 1], spine[j]);
      path := front + [e];
    }
  }

  lemma ClimbingCloses(cfg: Cfg, back: seq<nat>)
    requires AllClimb(cfg, back)
    ensures ClosesCycles(cfg, back)
  {
    forall b | b in back
      ensures b < |cfg.edges| && Reachable(cfg, cfg.edges[b].source)
      ensures Connected(cfg, {}, cfg.edges[b].target, cfg.edges[b].source)
    {
      assert ClimbsSpine(cfg, b);
      var spine :| spine != [] && IsSpine(cfg, spine)
                   && cfg.edges[b].source == spine[|spine| - 1] && cfg.edges[b].target in spine;
      var i :| 0 <= i < |spine| && spine[i] == cfg.edges[b].target;
      var p := AlongSpine(cfg, spine, 0, |spine| - 1);
      var q := AlongSpine(cfg, spine, i, |spine| - 1);
    }
  }

  /** A path over kept edges only descends in the finish order, so it never comes back. */
  lemma {:induction false} KeptPathDescends(
      cfg: Cfg, finished: seq<nat>, back: seq<nat>, path: seq<nat>, i: nat, n: nat, m: nat)
    requires FinishOrder(cfg, finished, back) && i < |finished| && finished[i] == n
    requires IsPath(cfg, Ids(back), path, n, m)
    ensures path == [] ==> m == n
    ensures path != [] ==> m in finished[..i]
    decreases |path|
  {
    if path != [] {
      var k := cfg.edges[path[0]].target;
      assert k in finished[..i];
      var j :| 0 <= j < i && finished[j] == k;
      KeptPathDescends(cfg, finished, back, path[1..], j, k, m);
      assert finished[..j] <= finished[..i];
    }
  }

  lemma {:induction false} ReachableFinished(
      cfg: Cfg, finished: seq<nat>, back: seq<nat>, path: seq<nat>, n: nat, m: nat)
    requires FinishOrder(cfg, finished, back) && n in finished && IsPath(cfg, {}, path, n, m)
    requires forall b :: b in back ==> b < |cfg.edges| && cfg.edges[b].target in finished
    ensures m in finished
    decreases |path|
  {
    if path != [] {
      var i :| 0 <= i < |finished| && finished[i] == n;
      ReachableFinished(cfg, finished, back, path[1..], cfg.edges[path[0]].target, m);
    }
  }

  ghost predicate CutsCycles(cfg: Cfg, excluded: set<nat>) {
    forall n, path :: Reachable(cfg, n) && IsPath(cfg, excluded, path, n, n) ==> path == []
  }

  /** `detect_back_edges`: each edge it returns climbs back to a node of a simple path from the
      entry and so closes a cycle, none is returned twice, and without them no entry-reachable node
      lies on a cycle. */
  method DetectBackEdges(cfg: Cfg) returns (back: seq<nat>)
    requires WellFormed(cfg)
    ensures forall i, j :: 0 <= i < j < |back| ==> back[i] != back[j]
    ensures AllClimb(cfg, back) && ClosesCycles(cfg, back)
    ensures CutsCycles(cfg, Ids(back))
  {
    var search := new DepthFirstSearch();
    search.Visit(cfg, cfg.entry);
    back := search.backEdges;
    ClimbingCloses(cfg, back);
    ghost var finished := search.finished;
    forall n, path | Reachable(cfg, n) && IsPath(cfg, Ids(back), path, n, n)
      ensures path == []
    {
      var p :| IsPath(cfg, {}, p, cfg.entry, n);
      ReachableFinished(cfg, finished, back, p, cfg.entry, n);
      var i :| 0 <= i < |finished| && finished[i] == n && n !in finished[..i];
      KeptPathDescends(cfg, finished, back, path, i, n, n);
    }
  }
}
