/** Executions of a control-flow graph. A run follows a path of edges; crossing an edge runs the
    effects of its source node, checks the guard and runs the effects of the edge. States are
    those at the entry of a node. */
module Runs {
  import opened Formulas
  import opened Semantics
  import opened Substitution
  import opened Transfer
  import opened Graphs

  ghost predicate Cross(cfg: Cfg, e: nat, s: State, t: State)
    requires WellFormed(cfg) && e < |cfg.edges|
  {
    exists m: State ::
      Run(cfg.nodes[cfg.edges[e].source], s, m) && Eval(cfg.edges[e].guard, m) && Run(cfg.edges[e].effects, m, t)
  }

  ghost predicate Follows(cfg: Cfg, path: seq<nat>, s: State, t: State)
    requires WellFormed(cfg)
    decreases |path|
  {
    if path == [] then s == t
    else
      path[0] < |cfg.edges| && exists u: State :: Cross(cfg, path[0], s, u) && Follows(cfg, path[1..], u, t)
  }

  lemma CrossVia(cfg: Cfg, e: nat, s: State, m: State, t: State)
    requires WellFormed(cfg) && e < |cfg.edges|
    requires Run(cfg.nodes[cfg.edges[e].source], s, m) && Eval(cfg.edges[e].guard, m)
    requires Run(cfg.edges[e].effects, m, t)
    ensures Cross(cfg, e, s, t)
  {
  }

  lemma {:induction false} FollowsConcat(cfg: Cfg, p: seq<nat>, q: seq<nat>, s: State, u: State, t: State)
    requires WellFormed(cfg) && Follows(cfg, p, s, u) && Follows(cfg, q, u, t)
    ensures Follows(cfg, p + q, s, t)
    decreases |p|
  {
    if p == [] {
      assert p + q == q;
    } else {
      var v :| Cross(cfg, p[0], s, v) && Follows(cfg, p[1..], v, u);
      FollowsConcat(cfg, p[1..], q, v, u, t);
      assert (p + q)[1..] == p[1..] + q;
    }
  }

  lemma {:induction false} FollowsSplit(cfg: Cfg, path: seq<nat>, i: nat, s: State, t: State) returns (u: State)
    requires WellFormed(cfg) && Follows(cfg, path, s, t) && i <= |path|
    ensures Follows(cfg, path[..i], s, u) && Follows(cfg, path[i..], u, t)
    decreases |path|
  {
    if i == 0 {
      u := s;
    } else {
      var v :| Cross(cfg, path[0], s, v) && Follows(cfg, path[1..], v, t);
      u := FollowsSplit(cfg, path[1..], i - 1, v, t);
      assert path[..i][1..] == path[1..][..i - 1];
      assert path[i..] == path[1..][i - 1..];
    }
  }

  lemma FollowsLast(cfg: Cfg, path: seq<nat>, e: nat, s: State, t: State) returns (u: State)
    requires WellFormed(cfg) && Follows(cfg, path + [e], s, t)
    ensures Follows(cfg, path, s, u) && e < |cfg.edges| && Cross(cfg, e, u, t)
  {
    u := FollowsSplit(cfg, path + [e], |path|, s, t);
    assert (path + [e])[..|path|] == path && (path + [e])[|path|..] == [e];
  }

  /** An assertion site: the obligation is checked after the effects of its node. */
  datatype Site = Site(node: nat, obligation: Formula)

  ghost predicate WellSited(cfg: Cfg, site: Site) {
    WellFormed(cfg) && site.node < |cfg.nodes|
  }

  /** The node's effects run to completion and leave the obligation false. */
  ghost predicate ViolatedAt(cfg: Cfg, site: Site, s: State)
    requires WellSited(cfg, site)
  {
    exists t: State :: Run(cfg.nodes[site.node], s, t) && !Eval(site.obligation, t)
  }

  /** Some run from `n` over edges that are not excluded violates the obligation. */
  ghost predicate Violating(cfg: Cfg, excluded: set<nat>, site: Site, n: nat, s: State)
    requires WellSited(cfg, site)
  {
    exists path, t: State ::
      IsPath(cfg, excluded, path, n, site.node) && Follows(cfg, path, s, t) && ViolatedAt(cfg, site, t)
  }

  /** No execution from the entry violates the obligation. */
  ghost predicate SafeFrom(cfg: Cfg, excluded: set<nat>, site: Site)
    requires WellSited(cfg, site)
  {
    forall s: State :: !Violating(cfg, excluded, site, cfg.entry, s)
  }

  ghost predicate Safe(cfg: Cfg, site: Site)
    requires WellSited(cfg, site)
  {
    SafeFrom(cfg, {}, site)
  }

  /** Some run from the entry over edges that are not excluded arrives at `n` in `s`. */
  ghost predicate Arrives(cfg: Cfg, excluded: set<nat>, n: nat, s: State)
    requires WellFormed(cfg)
  {
    exists path, s0: State :: IsPath(cfg, excluded, path, cfg.entry, n) && Follows(cfg, path, s0, s)
  }

  lemma ArrivesNext(cfg: Cfg, excluded: set<nat>, e: nat, s: State, t: State)
    requires WellFormed(cfg) && e < |cfg.edges| && e !in excluded
    requires Arrives(cfg, excluded, cfg.edges[e].source, s) && Cross(cfg, e, s, t)
    ensures Arrives(cfg, excluded, cfg.edges[e].target, t)
  {
    var path, s0 :| IsPath(cfg, excluded, path, cfg.entry, cfg.edges[e].source) && Follows(cfg, path, s0, s);
    EdgePath(cfg, excluded, e);
    PathConcat(cfg, excluded, path, [e], cfg.entry, cfg.edges[e].source, cfg.edges[e].target);
    assert [e][1..] == [] && Follows(cfg, [e][1..], t, t);
    assert Follows(cfg, [e], s, t);
    FollowsConcat(cfg, path, [e], s0, s, t);
  }

  // ---- Side conditions on a graph -----------------------------------------------------------

  /** Crossing the edge runs effects with one outcome only. */
  predicate EdgeExact(cfg: Cfg, e: nat)
    requires WellFormed(cfg) && e < |cfg.edges|
  {
    Exact(cfg.nodes[cfg.edges[e].source]) && Exact(cfg.edges[e].effects)
  }

  ghost predicate CfgExact(cfg: Cfg) {
    (forall n | 0 <= n < |cfg.nodes| :: Exact(cfg.nodes[n]))
    && forall e | 0 <= e < |cfg.edges| :: Exact(cfg.edges[e].effects)
  }

  ghost predicate CfgModelled(cfg: Cfg) {
    (forall n | 0 <= n < |cfg.nodes| :: Modelled(cfg.nodes[n]))
    && forall e | 0 <= e < |cfg.edges| :: Modelled(cfg.edges[e].effects)
  }

  /** No Boolean that the graph assigns is in `hidden`, which covers the names its formulas read
      under `BoolToInt`. */
  ghost predicate CfgVisible(cfg: Cfg, hidden: set<Name>) {
    (forall n | 0 <= n < |cfg.nodes| :: Visible(cfg.nodes[n], hidden))
    && forall e | 0 <= e < |cfg.edges| ::
         Visible(cfg.edges[e].effects, hidden) && Hidden(cfg.edges[e].guard) <= hidden
  }

  // ---- Preconditions across an edge ---------------------------------------------------------

  /** The requirement at the source of `e` for `target` to hold at its target. The engine and the
      backward passes all compute it; the loop checks drop the guard or use the liberal variant. */
  function EdgePre(cfg: Cfg, e: nat, useGuard: bool, liberal: bool, target: Formula): Formula
    requires WellFormed(cfg) && e < |cfg.edges|
  {
    var edge := cfg.edges[e];
    WpWith(liberal, cfg.nodes[edge.source],
           AndOf(if useGuard then edge.guard else True, Wp(edge.effects, target)))
  }

  lemma EdgePreHidden(cfg: Cfg, e: nat, useGuard: bool, liberal: bool, target: Formula, hidden: set<Name>)
    requires WellFormed(cfg) && e < |cfg.edges| && CfgVisible(cfg, hidden) && Hidden(target) <= hidden
    ensures Hidden(EdgePre(cfg, e, useGuard, liberal, target)) <= hidden
    ensures Hidden(AndOf(if useGuard then cfg.edges[e].guard else True, Wp(cfg.edges[e].effects, target))) <= hidden
  {
    var edge := cfg.edges[e];
    WpHidden(false, edge.effects, target, hidden);
    var guard := if useGuard then edge.guard else True;
    JoinHidden(true, [guard, Wp(edge.effects, target)], hidden);
    WpHidden(liberal, cfg.nodes[edge.source], AndOf(guard, Wp(edge.effects, target)), hidden);
  }

  /** Every crossing into the target formula starts in the precondition, guard or no guard. */
  lemma EdgePreOver(
      cfg: Cfg, e: nat, useGuard: bool, target: Formula, s: State, t: State, hidden: set<Name>)
    requires WellFormed(cfg) && e < |cfg.edges| && CfgVisible(cfg, hidden) && Hidden(target) <= hidden
    requires Modelled(cfg.nodes[cfg.edges[e].source]) && Modelled(cfg.edges[e].effects)
    requires Cross(cfg, e, s, t) && Eval(target, t)
    ensures Eval(EdgePre(cfg, e, useGuard, false, target), s)
  {
    var edge := cfg.edges[e];
    var m :| Run(cfg.nodes[edge.source], s, m) && Eval(edge.guard, m) && Run(edge.effects, m, t);
    WpOver(edge.effects, target, m, t, hidden);
    var guard := if useGuard then edge.guard else True;
    AndMeaning(guard, Wp(edge.effects, target), m);
    EdgePreHidden(cfg, e, useGuard, false, target, hidden);
    WpOver(cfg.nodes[edge.source], AndOf(guard, Wp(edge.effects, target)), s, m, hidden);
  }

  lemma EdgePreExact(cfg: Cfg, e: nat, target: Formula, s: State, hidden: set<Name>)
    requires WellFormed(cfg) && e < |cfg.edges| && CfgVisible(cfg, hidden) && Hidden(target) <= hidden
    requires EdgeExact(cfg, e)
    ensures Eval(EdgePre(cfg, e, true, false, target), s)
       <==> exists t: State :: Cross(cfg, e, s, t) && Eval(target, t)
  {
    var edge := cfg.edges[e];
    var post := AndOf(edge.guard, Wp(edge.effects, target));
    EdgePreHidden(cfg, e, true, false, target, hidden);
    WpExact(cfg.nodes[edge.source], post, s, hidden);
    if Eval(EdgePre(cfg, e, true, false, target), s) {
      var m :| Run(cfg.nodes[edge.source], s, m) && Eval(post, m);
      AndMeaning(edge.guard, Wp(edge.effects, target), m);
      WpExact(edge.effects, target, m, hidden);
      var t :| Run(edge.effects, m, t) && Eval(target, t);
      assert Cross(cfg, e, s, t);
    }
    if t: State :| Cross(cfg, e, s, t) && Eval(target, t) {
      EdgePreOver(cfg, e, true, target, s, t, hidden);
    }
  }

  lemma ExactModelled(cfg: Cfg)
    requires CfgExact(cfg)
    ensures CfgModelled(cfg)
  {
  }

  /** Exact effects leave one outcome per edge. */
  lemma CrossUnique(cfg: Cfg, e: nat, s: State, t: State, u: State)
    requires WellFormed(cfg) && e < |cfg.edges| && EdgeExact(cfg, e)
    requires Cross(cfg, e, s, t) && Cross(cfg, e, s, u)
    ensures t == u
  {
    var edge := cfg.edges[e];
    var m :| Run(cfg.nodes[edge.source], s, m) && Eval(edge.guard, m) && Run(edge.effects, m, t);
    RunUnique(cfg.nodes[edge.source], s, m);
    RunUnique(edge.effects, m, t);
  }
}
