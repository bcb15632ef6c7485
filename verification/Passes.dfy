/** Backward passes over the acyclic skeleton: `backward_states` of src/analysis/loops/mod.rs and
    the loops of the same shape in src/cfg/adapter.rs and src/analysis/backward/mod.rs. */
module Passes {
  import opened Formulas
  import opened Semantics
  import opened Substitution
  import opened Transfer
  import opened Graphs
  import opened Ordering
  import opened Runs

  /** Whether guards count and whether assumptions are liberal, as the loop checks vary them. */
  datatype Mode = Mode(useGuard: bool, liberal: bool)

  const PLAIN := Mode(true, false)

  function Pre(cfg: Cfg, e: nat, mode: Mode, states: seq<Formula>): Formula
    requires WellFormed(cfg) && e < |cfg.edges| && |states| == |cfg.nodes|
  {
    EdgePre(cfg, e, mode.useGuard, mode.liberal, states[cfg.edges[e].target])
  }

  datatype Seed = Seed(node: nat, f: Formula)

  /** One of the edges in `done` leaves `n` and its precondition holds. */
  ghost predicate SomeEdge(cfg: Cfg, mode: Mode, done: set<nat>, states: seq<Formula>, n: nat, s: State)
    requires WellFormed(cfg) && |states| == |cfg.nodes|
  {
    exists e :: e in done && e < |cfg.edges| && cfg.edges[e].source == n && Eval(Pre(cfg, e, mode, states), s)
  }

  ghost predicate StatesHidden(states: seq<Formula>, hidden: set<Name>) {
    forall n | 0 <= n < |states| :: Hidden(states[n]) <= hidden
  }

  /** Every node's formula is its seed or the precondition of one of the edges in `done`. */
  ghost predicate Equations(cfg: Cfg, mode: Mode, seed: Seed, done: set<nat>, states: seq<Formula>) {
    WellFormed(cfg) && |states| == |cfg.nodes|
    && forall n, s: State :: 0 <= n < |states| ==>
         (Eval(states[n], s) <==>
          (n == seed.node && Eval(seed.f, s)) || SomeEdge(cfg, mode, done, states, n, s))
  }

  /** The edges a pass does not cross: excluded ones and, when restricted, those leaving the set. */
  function Dropped(cfg: Cfg, excluded: set<nat>, within: Option<set<nat>>): set<nat> {
    excluded + set e | e in Below(|cfg.edges|) && e < |cfg.edges| && within.Some?
                       && !(cfg.edges[e].source in within.value && cfg.edges[e].target in within.value)
  }

  function KeptEdges(cfg: Cfg, dropped: set<nat>): set<nat> {
    Below(|cfg.edges|) - dropped
  }

  /** Joining the precondition of one more edge into its source. */
  lemma JoinEdge(cfg: Cfg, mode: Mode, seed: Seed, done: set<nat>, states: seq<Formula>, e: nat)
    requires Equations(cfg, mode, seed, done, states) && e < |cfg.edges|
    requires forall d :: d in done + {e} && d < |cfg.edges| ==> cfg.edges[d].target != cfg.edges[e].source
    ensures var n := cfg.edges[e].source;
            Equations(cfg, mode, seed, done + {e}, states[n := OrOf(states[n], Pre(cfg, e, mode, states))])
  {
    var n, pre := cfg.edges[e].source, Pre(cfg, e, mode, states);
    var next := states[n := OrOf(states[n], pre)];
    forall d | d in done + {e} && d < |cfg.edges| ensures Pre(cfg, d, mode, next) == Pre(cfg, d, mode, states) {
    }
    forall m, s: State | 0 <= m < |next|
      ensures Eval(next[m], s) <==>
              (m == seed.node && Eval(seed.f, s)) || SomeEdge(cfg, mode, done + {e}, next, m, s)
    {
      OrMeaning(states[n], pre, s);
      assert SomeEdge(cfg, mode, done + {e}, next, m, s) <==>
             SomeEdge(cfg, mode, done, states, m, s) || (m == n && Eval(pre, s));
    }
  }

  lemma JoinHiddenState(cfg: Cfg, mode: Mode, states: seq<Formula>, e: nat, hidden: set<Name>)
    requires WellFormed(cfg) && |states| == |cfg.nodes| && e < |cfg.edges|
    requires CfgVisible(cfg, hidden) && StatesHidden(states, hidden)
    ensures var n := cfg.edges[e].source;
            StatesHidden(states[n := OrOf(states[n], Pre(cfg, e, mode, states))], hidden)
  {
    var n := cfg.edges[e].source;
    EdgePreHidden(cfg, e, mode.useGuard, mode.liberal, states[cfg.edges[e].target], hidden);
    JoinHidden(false, [states[n], Pre(cfg, e, mode, states)], hidden);
  }

  method JoinIncoming(
      cfg: Cfg, mode: Mode, ghost seed: Seed, dropped: set<nat>, ghost order: seq<nat>, ghost i: nat,
      states0: seq<Formula>, node: nat, ghost done0: set<nat>, ghost hidden: set<Name>)
    returns (states: seq<Formula>, ghost done: set<nat>)
    requires Equations(cfg, mode, seed, done0, states0)
    requires Forward(cfg, dropped, order) && IsPermutation(order, |cfg.nodes|)
    requires i < |order| && order[i] == node
    requires forall e: nat :: e in done0 <==>
               e < |cfg.edges| && e !in dropped && cfg.edges[e].target in order[i + 1..]
    ensures Equations(cfg, mode, seed, done, states)
    ensures forall e: nat :: e in done <==>
              e < |cfg.edges| && e !in dropped && cfg.edges[e].target in order[i..]
    ensures CfgVisible(cfg, hidden) && StatesHidden(states0, hidden) ==> StatesHidden(states, hidden)
  {
    states, done := states0, done0;
    var incoming := Incoming(cfg, node);
    for j := 0 to |incoming|
      invariant Equations(cfg, mode, seed, done, states)
      invariant forall e: nat :: e in done <==>
                  e in done0 || (e in incoming[..j] && e !in dropped)
      invariant CfgVisible(cfg, hidden) && StatesHidden(states0, hidden) ==> StatesHidden(states, hidden)
    {
      var e := incoming[j];
      assert e in incoming;
      if e !in dropped {
        var source := cfg.edges[e].source;
        SourceEarlier(cfg, dropped, order, i, e);
        forall d | d in done + {e} && d < |cfg.edges| ensures cfg.edges[d].target != source {
          assert d in incoming[..j] ==> d in incoming;
          if d in done0 {
            assert cfg.edges[d].target in order[i + 1..];
          }
        }
        JoinEdge(cfg, mode, seed, done, states, e);
        if CfgVisible(cfg, hidden) && StatesHidden(states0, hidden) {
          JoinHiddenState(cfg, mode, states, e, hidden);
        }
        states := states[source := OrOf(states[source], Pre(cfg, e, mode, states))];
        done := done + {e};
      }
      assert incoming[..j + 1] == incoming[..j] + [e];
    }
    assert incoming[..|incoming|] == incoming;
    assert order[i..] == [node] + order[i + 1..];
  }

  lemma SourceEarlier(cfg: Cfg, dropped: set<nat>, order: seq<nat>, i: nat, e: nat)
    requires WellFormed(cfg) && Forward(cfg, dropped, order) && IsPermutation(order, |cfg.nodes|)
    requires i < |order| && e < |cfg.edges| && e !in dropped && cfg.edges[e].target == order[i]
    ensures cfg.edges[e].source !in order[i..] && cfg.edges[e].source !in order[i + 1..]
  {
    var n := cfg.edges[e].source;
    assert n in order[..i];
    var k :| 0 <= k < i && order[k] == n;
  }

  /** `backward_states`: nodes in reverse topological order, each incoming edge once. It fails
      exactly when the excluded edges leave a cycle; otherwise every node's formula is its seed
      or the precondition of a kept edge. */
  method BackwardStates(
      cfg: Cfg, seed: Seed, excluded: set<nat>, within: Option<set<nat>>, mode: Mode, ghost hidden: set<Name>)
    returns (states: Option<seq<Formula>>)
    requires WellFormed(cfg) && seed.node < |cfg.nodes|
    ensures states.None? <==> Cyclic(cfg, excluded)
    ensures states.Some? ==>
              Equations(cfg, mode, seed, KeptEdges(cfg, Dropped(cfg, excluded, within)), states.value)
              && HasOrder(cfg, Dropped(cfg, excluded, within))
    ensures states.Some? && CfgVisible(cfg, hidden) && Hidden(seed.f) <= hidden ==>
              StatesHidden(states.value, hidden)
  {
    var order := TopologicalOrder(cfg, excluded);
    if order.None? {
      return None;
    }
    var dropped := Dropped(cfg, excluded, within);
    assert IsTopological(cfg, dropped, order.value);
    var acc := seq(|cfg.nodes|, i => False);
    acc := acc[seed.node := OrOf(False, seed.f)];
    SeedEquations(cfg, mode, seed);
    JoinHidden(false, [False, seed.f], Hidden(seed.f));
    ghost var done: set<nat> := {};
    for i := |order.value| downto 0
      invariant Equations(cfg, mode, seed, done, acc)
      invariant forall e: nat :: e in done <==>
                  e < |cfg.edges| && e !in dropped && cfg.edges[e].target in order.value[i..]
      invariant CfgVisible(cfg, hidden) && Hidden(seed.f) <= hidden ==> StatesHidden(acc, hidden)
    {
      acc, done := JoinIncoming(cfg, mode, seed, dropped, order.value, i, acc, order.value[i], done, hidden);
    }
    assert order.value[0..] == order.value;
    assert done == KeptEdges(cfg, dropped);
    states := Some(acc);
  }

  lemma SeedEquations(cfg: Cfg, mode: Mode, seed: Seed)
    requires WellFormed(cfg) && seed.node < |cfg.nodes|
    ensures Equations(cfg, mode, seed, {}, seq(|cfg.nodes|, i => False)[seed.node := OrOf(False, seed.f)])
  {
    forall s: State ensures Eval(OrOf(False, seed.f), s) <==> Eval(seed.f, s) {
      OrMeaning(False, seed.f, s);
    }
  }

  // ---- What a pass computes -----------------------------------------------------------------

  /** Some run over edges that are not dropped leads from `n` into the seed. */
  ghost predicate LeadsTo(cfg: Cfg, dropped: set<nat>, seed: Seed, n: nat, s: State)
    requires WellFormed(cfg)
  {
    exists path, t: State ::
      IsPath(cfg, dropped, path, n, seed.node) && Follows(cfg, path, s, t) && Eval(seed.f, t)
  }

  /** Every run into the seed starts in the node's formula, also when guards are ignored. */
  lemma {:induction false} PassCovers(
      cfg: Cfg, useGuard: bool, seed: Seed, dropped: set<nat>, states: seq<Formula>, hidden: set<Name>,
      path: seq<nat>, n: nat, s: State, t: State)
    requires Equations(cfg, Mode(useGuard, false), seed, KeptEdges(cfg, dropped), states)
    requires CfgModelled(cfg) && CfgVisible(cfg, hidden) && StatesHidden(states, hidden)
    requires n < |cfg.nodes| && IsPath(cfg, dropped, path, n, seed.node)
    requires Follows(cfg, path, s, t) && Eval(seed.f, t)
    ensures Eval(states[n], s)
    decreases |path|
  {
    if path != [] {
      var e := path[0];
      var m := cfg.edges[e].target;
      var u :| Cross(cfg, e, s, u) && Follows(cfg, path[1..], u, t);
      PassCovers(cfg, useGuard, seed, dropped, states, hidden, path[1..], m, u, t);
      EdgePreOver(cfg, e, useGuard, states[m], s, u, hidden);
      assert SomeEdge(cfg, Mode(useGuard, false), KeptEdges(cfg, dropped), states, n, s);
    }
  }

  /** The edges that are not dropped run effects with one outcome. */
  ghost predicate KeptExact(cfg: Cfg, dropped: set<nat>)
    requires WellFormed(cfg)
  {
    forall e: nat | e < |cfg.edges| && e !in dropped :: EdgeExact(cfg, e)
  }

  lemma CrossedEdge(
      cfg: Cfg, seed: Seed, dropped: set<nat>, states: seq<Formula>, hidden: set<Name>, n: nat, s: State)
    returns (e: nat, u: State)
    requires Equations(cfg, PLAIN, seed, KeptEdges(cfg, dropped), states)
    requires KeptExact(cfg, dropped) && CfgVisible(cfg, hidden) && StatesHidden(states, hidden)
    requires n < |states| && Eval(states[n], s) && !(n == seed.node && Eval(seed.f, s))
    ensures e < |cfg.edges| && e !in dropped && cfg.edges[e].source == n
    ensures Cross(cfg, e, s, u) && Eval(states[cfg.edges[e].target], u)
  {
    assert SomeEdge(cfg, PLAIN, KeptEdges(cfg, dropped), states, n, s);
    var d :| d in KeptEdges(cfg, dropped) && d < |cfg.edges| && cfg.edges[d].source == n
             && Eval(Pre(cfg, d, PLAIN, states), s);
    e := d;
    EdgePreExact(cfg, e, states[cfg.edges[e].target], s, hidden);
    u :| Cross(cfg, e, s, u) && Eval(states[cfg.edges[e].target], u);
  }

  lemma LaterTarget(cfg: Cfg, dropped: set<nat>, order: seq<nat>, i: nat, e: nat) returns (j: nat)
    requires WellFormed(cfg) && IsTopological(cfg, dropped, order) && i < |order|
    requires e < |cfg.edges| && e !in dropped && cfg.edges[e].source == order[i]
    ensures i < j < |order| && order[j] == cfg.edges[e].target
  {
    assert cfg.edges[e].target in order;
    j :| 0 <= j < |order| && order[j] == cfg.edges[e].target;
    assert order[i] in order[..j];
  }

  /** A state in a node's formula has a run into the seed. */
  lemma {:induction false} PassWitnessed(
      cfg: Cfg, seed: Seed, dropped: set<nat>, states: seq<Formula>, hidden: set<Name>,
      order: seq<nat>, i: nat, n: nat, s: State)
    requires Equations(cfg, PLAIN, seed, KeptEdges(cfg, dropped), states)
    requires KeptExact(cfg, dropped) && CfgVisible(cfg, hidden) && StatesHidden(states, hidden)
    requires IsTopological(cfg, dropped, order) && i < |order| && order[i] == n
    requires n < |states| && Eval(states[n], s)
    ensures LeadsTo(cfg, dropped, seed, n, s)
    decreases |order| - i
  {
    if n == seed.node && Eval(seed.f, s) {
      assert IsPath(cfg, dropped, [], n, n) && Follows(cfg, [], s, s);
    } else {
      var e, u := CrossedEdge(cfg, seed, dropped, states, hidden, n, s);
      var m := cfg.edges[e].target;
      var j := LaterTarget(cfg, dropped, order, i, e);
      PassWitnessed(cfg, seed, dropped, states, hidden, order, j, m, u);
      var path, t :| IsPath(cfg, dropped, path, m, seed.node) && Follows(cfg, path, u, t) && Eval(seed.f, t);
      EdgeThenPath(cfg, dropped, e, path, seed.node, s, u, t);
    }
  }

  lemma EdgeThenPath(
      cfg: Cfg, dropped: set<nat>, e: nat, path: seq<nat>, m: nat, s: State, u: State, t: State)
    requires WellFormed(cfg) && e < |cfg.edges| && e !in dropped
    requires IsPath(cfg, dropped, path, cfg.edges[e].target, m)
    requires Cross(cfg, e, s, u) && Follows(cfg, path, u, t)
    ensures IsPath(cfg, dropped, [e] + path, cfg.edges[e].source, m) && Follows(cfg, [e] + path, s, t)
  {
    assert ([e] + path)[1..] == path;
  }

  /** A state in the formula of a node has a run into the seed, when the kept edges are exact. */
  lemma PassLeads(
      cfg: Cfg, seed: Seed, dropped: set<nat>, states: seq<Formula>, hidden: set<Name>, n: nat, s: State)
    requires Equations(cfg, PLAIN, seed, KeptEdges(cfg, dropped), states)
    requires KeptExact(cfg, dropped) && CfgVisible(cfg, hidden) && StatesHidden(states, hidden)
    requires HasOrder(cfg, dropped) && n < |cfg.nodes| && Eval(states[n], s)
    ensures LeadsTo(cfg, dropped, seed, n, s)
  {
    var order :| IsTopological(cfg, dropped, order);
    assert n in order;
    var i :| 0 <= i < |order| && order[i] == n;
    PassWitnessed(cfg, seed, dropped, states, hidden, order, i, n, s);
  }

  /** Backward passes are exact: a node's formula holds precisely where some run over the kept
      edges leads into the seed. */
  lemma PassExact(
      cfg: Cfg, seed: Seed, dropped: set<nat>, states: seq<Formula>, hidden: set<Name>, n: nat, s: State)
    requires Equations(cfg, PLAIN, seed, KeptEdges(cfg, dropped), states)
    requires CfgExact(cfg) && CfgVisible(cfg, hidden) && StatesHidden(states, hidden)
    requires HasOrder(cfg, dropped) && n < |cfg.nodes|
    ensures Eval(states[n], s) <==> LeadsTo(cfg, dropped, seed, n, s)
  {
    if Eval(states[n], s) {
      PassLeads(cfg, seed, dropped, states, hidden, n, s);
    }
    if LeadsTo(cfg, dropped, seed, n, s) {
      var path, t :| IsPath(cfg, dropped, path, n, seed.node) && Follows(cfg, path, s, t) && Eval(seed.f, t);
      ExactModelled(cfg);
      PassCovers(cfg, true, seed, dropped, states, hidden, path, n, s, t);
    }
  }
}
