/** The bidirectional rule engine of src/analysis/backward/rules.rs with empty summary tables:
    forward MAY reach, backward NOT-MAY state, pruning and edge blocking. */
module Engine {
  import opened Formulas
  import opened Transfer
  import opened Graphs
  import opened Ordering
  import opened Runs
  import opened Oracles
  import opened Coverage

  class RuleEngine {
    const cfg: Cfg
    const oracle: Oracle
    var summaries: Summaries
    var blocked: set<nat>
    var queries: nat

    ghost predicate Ready()
      reads this`summaries
    {
      WellFormed(cfg) && |summaries| == |cfg.nodes|
    }

    /** `new` and `init`: only the entry is reachable and no violation is known. */
    constructor (cfg: Cfg, oracle: Oracle)
      requires WellFormed(cfg)
      ensures this.cfg == cfg && this.oracle == oracle && Ready() && blocked == {} && queries == 0
      ensures forall n :: 0 <= n < |summaries| ==>
                            summaries[n] == NodeSummary(if n == cfg.entry then True else False, False)
    {
      this.cfg, this.oracle := cfg, oracle;
      summaries := seq(|cfg.nodes|, n => NodeSummary(if n == cfg.entry then True else False, False));
      blocked, queries := {}, 0;
    }

    method BlockEdge(e: nat)
      modifies this`blocked
      ensures blocked == old(blocked) + {e}
    {
      blocked := blocked + {e};
    }

    method SetState(n: nat, f: Formula)
      requires Ready() && n < |summaries|
      modifies this`summaries
      ensures Ready() && summaries == old(summaries)[n := old(summaries)[n].(state := f)]
    {
      summaries := summaries[n := summaries[n].(state := f)];
    }

    /** The injection of a loop invariant into the reach of its header. */
    method InjectReach(n: nat, invariantFormula: Formula)
      requires Ready() && n < |summaries|
      modifies this`summaries
      ensures Ready()
      ensures summaries == old(summaries)[n := old(summaries)[n].(reach :=
                if old(summaries)[n].reach == False then invariantFormula
                else AndOf(old(summaries)[n].reach, invariantFormula))]
    {
      var reach := summaries[n].reach;
      reach := if reach == False then invariantFormula else AndOf(reach, invariantFormula);
      summaries := summaries[n := summaries[n].(reach := reach)];
    }

    method ForwardMayPost(e: nat)
      requires Ready() && e < |cfg.edges|
      modifies this`summaries
      ensures Ready()
      ensures summaries == if e in blocked then old(summaries) else Forwarded(cfg, old(summaries), e)
    {
      if e in blocked {
        return;
      }
      var edge := cfg.edges[e];
      var propagated := AndOf(summaries[edge.source].reach, edge.guard);
      summaries := summaries[edge.target := summaries[edge.target].JoinReach(propagated)];
    }

    method NotMayPre(e: nat)
      requires Ready() && e < |cfg.edges|
      modifies this`summaries
      ensures Ready()
      ensures summaries == if e in blocked then old(summaries) else Propagated(cfg, old(summaries), e)
    {
      if e in blocked {
        return;
      }
      var edge := cfg.edges[e];
      var edgePre := ComputeWp(false, edge.effects, summaries[edge.target].state);
      var pre := ComputeWp(false, cfg.nodes[edge.source], AndOf(edge.guard, edgePre));
      summaries := summaries[edge.source := summaries[edge.source].JoinState(pre)];
    }

    /** `notmay_pre`, then the feasibility query; on Infeasible the edge is blocked for good and
        the state of its source starts over, also when the edge was blocked before. */
    method NotMayPrePruned(e: nat) returns (ok: bool)
      requires Ready() && e < |cfg.edges|
      modifies this
      ensures Ready()
      ensures var joined := if e in old(blocked) then old(summaries) else Propagated(cfg, old(summaries), e);
              var n := cfg.edges[e].source;
              var answer := oracle(old(queries), joined[n].Combined());
              ok == answer.Answered?
              && (if answer == Answered(Infeasible)
                  then summaries == WithoutState(joined, n) && blocked == old(blocked) + {e}
                  else summaries == joined && blocked == old(blocked))
    {
      NotMayPre(e);
      var n := cfg.edges[e].source;
      var answer := oracle(queries, summaries[n].Combined());
      queries := queries + 1;
      if answer == Failed {
        return false;
      }
      if answer.feasibility == Infeasible {
        BlockEdge(e);
        summaries := summaries[n := summaries[n].(state := False)];
      }
      ok := true;
    }

    ghost predicate ClosedFrom(nodes: seq<nat>)
      requires Ready()
      reads this
    {
      ClosedUpTo(cfg, summaries, blocked, nodes, [])
    }

    method ForwardEdges(order: seq<nat>, i: nat, ghost excluded: set<nat>, ghost before: Summaries)
      requires Ready() && excluded <= blocked && IsTopological(cfg, excluded, order) && i < |order|
      requires ClosedFrom(order[..i]) && OnlyReached(cfg, blocked, before, summaries)
      modifies this`summaries
      ensures Ready() && ReachGrows(old(summaries), summaries) && ClosedFrom(order[..i + 1])
      ensures OnlyReached(cfg, blocked, before, summaries)
    {
      var node := order[i];
      var out := Outgoing(cfg, node);
      for j := 0 to |out|
        invariant Ready() && ReachGrows(old(summaries), summaries)
        invariant ClosedUpTo(cfg, summaries, blocked, order[..i], out[..j])
        invariant OnlyReached(cfg, blocked, before, summaries)
      {
        var e := out[j];
        assert e in out && forall d: nat | d in out[..j] :: d in out;
        assert out[..j + 1] == out[..j] + [e];
        if e !in blocked {
          ForwardCloses(cfg, summaries, blocked, excluded, order, i, out[..j], e);
          ForwardedOnly(cfg, blocked, before, summaries, e);
        }
        ForwardMayPost(e);
      }
      assert out[..|out|] == out;
      assert order[..i + 1] == order[..i] + [node];
    }

    /** One forward pass: states stay, reach grows, every edge that is not blocked is closed, and reach
        holds nowhere else than where guards lead. */
    method ForwardPass(order: seq<nat>, ghost excluded: set<nat>)
      requires Ready() && excluded <= blocked && IsTopological(cfg, excluded, order)
      modifies this`summaries
      ensures Ready() && ReachGrows(old(summaries), summaries)
      ensures forall e: nat | e < |cfg.edges| && e !in blocked :: EdgeClosed(cfg, summaries, e)
      ensures ReachExact(cfg, blocked, old(summaries), summaries)
    {
      ghost var before := summaries;
      StartReached(cfg, blocked, summaries);
      for i := 0 to |order|
        invariant Ready() && ReachGrows(old(summaries), summaries) && ClosedFrom(order[..i])
        invariant OnlyReached(cfg, blocked, before, summaries)
      {
        ForwardEdges(order, i, excluded, before);
      }
      forall e: nat | e < |cfg.edges| && e !in blocked ensures EdgeClosed(cfg, summaries, e) {
        assert order[..|order|] == order && cfg.edges[e].source in order;
      }
      ClosedExact(cfg, blocked, before, summaries);
    }

    /** The setting fits the engine and everything that backward rules keep holds. */
    ghost predicate Sound(g: Setting, hidden: set<Name>)
      reads this
    {
      Ready() && g.cfg == cfg && Truthful(oracle) && Invariant(g, hidden, summaries, blocked)
    }

    ghost predicate CoveredInto(g: Setting, nodes: seq<nat>)
      reads this
    {
      Ready() && g.cfg == cfg && WellSited(g.cfg, g.site)
      && forall e: nat | e < |cfg.edges| && e !in g.excluded && cfg.edges[e].target in nodes ::
           EdgeCovered(g, summaries, e)
    }

    ghost predicate Settled(g: Setting, hidden: set<Name>)
      reads this
    {
      Sound(g, hidden) && forall n: nat | n < |cfg.nodes| :: NodeCovered(g, summaries, n)
    }

    /** What the engine needs before its first round. */
    ghost predicate Primed(g: Setting, hidden: set<Name>)
      reads this
    {
      && Ready() && g.cfg == cfg && Truthful(oracle) && ValidSetting(g, hidden) && Sized(g, summaries)
      && StatesVisible(summaries, hidden) && Witnessed(g, summaries) && SiteCovered(g, summaries)
      && EntryReached(cfg, summaries) && GuardsStable(cfg, g.excluded) && blocked == g.excluded
    }

    /** The three backward calls on one edge (the middle one finds no summary to use). The ghost
        `sound` says that the invariant holds; without it only the bookkeeping is promised. */
    method BackwardRules(e: nat, ghost g: Setting, ghost hidden: set<Name>, ghost sound: bool) returns (ok: bool)
      requires Ready() && e < |cfg.edges|
      requires sound ==> Sound(g, hidden)
      requires sound && e !in g.excluded ==>
                 NodeCovered(g, summaries, cfg.edges[e].target) && cfg.edges[e].source != cfg.edges[e].target
      modifies this
      ensures Ready() && old(blocked) <= blocked <= old(blocked) + {e}
      ensures Decisive(oracle) ==> ok
      ensures sound ==> Sound(g, hidden)
      ensures sound ==>
              forall d: nat | d < |cfg.edges| && EdgeCovered(g, old(summaries), d) :: EdgeCovered(g, summaries, d)
      ensures sound && e !in g.excluded ==> EdgeCovered(g, summaries, e)
    {
      ghost var before := summaries;
      NotMayPre(e);
      if sound {
        if e !in blocked {
          PropagatedKeeps(g, hidden, before, blocked, e);
          PropagatedKeeps(g, hidden, summaries, blocked, e);
        } else if e !in g.excluded {
          BlockedCovered(g, hidden, before, blocked, e);
        }
      }
      ghost var joined := if e in blocked then summaries else Propagated(cfg, summaries, e);
      ghost var priorBlocked := blocked;
      ok := NotMayPrePruned(e);
      if sound && (blocked != priorBlocked || summaries != joined) {
        WithoutStateKeeps(g, hidden, joined, priorBlocked, e);
      }
    }

    ghost predicate CoveredAmong(g: Setting, edges: seq<nat>)
      reads this
    {
      Ready() && g.cfg == cfg && WellSited(g.cfg, g.site)
      && forall e: nat | e in edges && e < |cfg.edges| && e !in g.excluded :: EdgeCovered(g, summaries, e)
    }

    /** The backward calls on one of the edges that enter `order[i]`. */
    method BackwardEdge(
        e: nat, ghost order: seq<nat>, ghost i: nat, ghost done: seq<nat>, ghost g: Setting, ghost hidden: set<Name>,
        ghost sound: bool)
      returns (ok: bool)
      requires Ready() && i < |order| && e < |cfg.edges| && cfg.edges[e].target == order[i]
      requires sound ==> Sound(g, hidden) && IsTopological(cfg, g.excluded, order)
      requires sound ==> CoveredInto(g, order[i + 1..]) && CoveredAmong(g, done)
      modifies this
      ensures Ready() && old(blocked) <= blocked <= old(blocked) + {e}
      ensures Decisive(oracle) ==> ok
      ensures sound ==> Sound(g, hidden) && CoveredInto(g, order[i + 1..])
      ensures sound ==> CoveredAmong(g, done + [e])
    {
      if sound {
        LaterCovers(g, summaries, order, i);
        if e !in g.excluded {
          SourceBefore(cfg, g.excluded, order, i, e);
        }
      }
      ok := BackwardRules(e, g, hidden, sound);
    }

    method BackwardEdges(order: seq<nat>, i: nat, ghost g: Setting, ghost hidden: set<Name>, ghost sound: bool)
      returns (ok: bool)
      requires Ready() && i < |order|
      requires sound ==> Sound(g, hidden) && IsTopological(cfg, g.excluded, order) && CoveredInto(g, order[i + 1..])
      modifies this
      ensures Ready() && old(blocked) <= blocked <= Below(|cfg.edges|) + old(blocked)
      ensures Decisive(oracle) ==> ok
      ensures sound ==> Sound(g, hidden)
      ensures sound && ok ==> CoveredInto(g, order[i..])
    {
      var node := order[i];
      var incoming := Incoming(cfg, node);
      for j := 0 to |incoming|
        invariant Ready() && old(blocked) <= blocked <= Below(|cfg.edges|) + old(blocked)
        invariant sound ==> Sound(g, hidden) && CoveredInto(g, order[i + 1..]) && CoveredAmong(g, incoming[..j])
      {
        var e := incoming[j];
        assert e in incoming;
        ok := BackwardEdge(e, order, i, incoming[..j], g, hidden, sound);
        if !ok {
          return;
        }
        assert incoming[..j + 1] == incoming[..j] + [e];
      }
      assert incoming[..|incoming|] == incoming;
      assert order[i..] == [node] + order[i + 1..];
      ok := true;
    }

    /** One backward pass: afterwards every node's state covers the violations of its arrivals. */
    method BackwardPass(order: seq<nat>, ghost g: Setting, ghost hidden: set<Name>, ghost sound: bool)
      returns (ok: bool)
      requires Ready()
      requires sound ==> Sound(g, hidden) && IsTopological(cfg, g.excluded, order)
      modifies this
      ensures Ready() && old(blocked) <= blocked <= Below(|cfg.edges|) + old(blocked)
      ensures Decisive(oracle) ==> ok
      ensures sound && ok ==> Settled(g, hidden)
    {
      for i := |order| downto 0
        invariant Ready() && old(blocked) <= blocked <= Below(|cfg.edges|) + old(blocked)
        invariant sound ==> Sound(g, hidden) && CoveredInto(g, order[i..])
      {
        ok := BackwardEdges(order, i, g, hidden, sound);
        if !ok {
          return;
        }
      }
      assert order[0..] == order;
      if sound {
        forall n: nat | n < |cfg.nodes| ensures NodeCovered(g, summaries, n) {
          forall e: nat | e < |cfg.edges| && e !in g.excluded && cfg.edges[e].source == n
            ensures EdgeCovered(g, summaries, e)
          {
            assert cfg.edges[e].target in order;
          }
          NodeFromEdges(g, summaries, n);
        }
      }
      ok := true;
    }

    method Round(order: seq<nat>, ghost g: Setting, ghost hidden: set<Name>, ghost sound: bool)
      returns (ok: bool, stable: bool)
      requires sound ==> Primed(g, hidden) || Settled(g, hidden)
      requires Ready() && g.excluded <= blocked <= Below(|cfg.edges|) && IsTopological(cfg, g.excluded, order)
      modifies this
      ensures Ready() && g.excluded <= blocked <= Below(|cfg.edges|)
      ensures Decisive(oracle) ==> ok
      ensures sound && ok ==> Settled(g, hidden)
      ensures ok ==> if stable then blocked == old(blocked) else |blocked| > |old(blocked)|
    {
      ghost var before := summaries;
      var count := |blocked|;
      ForwardPass(order, g.excluded);
      if sound {
        if old(Primed(g, hidden)) {
          ClosedCovers(g, summaries);
        }
        GrownInvariant(g, hidden, before, summaries, blocked);
      }
      ok := BackwardPass(order, g, hidden, sound);
      SubsetCount(old(blocked), blocked);
      stable := count == |blocked|;
    }

    /** `run_to_fixpoint`: the outer loop always stops by stability, within its bound, because a
        round that is not stable has blocked another edge. */
    method RunToFixpoint(order: seq<nat>, ghost g: Setting, ghost hidden: set<Name>, ghost sound: bool)
      returns (ok: bool, rounds: nat, stable: bool)
      requires sound ==> Primed(g, hidden)
      requires Ready() && g.excluded <= blocked <= Below(|cfg.edges|) && IsTopological(cfg, g.excluded, order)
      modifies this
      ensures Ready() && rounds <= |cfg.edges| + 1
      ensures Decisive(oracle) ==> ok
      ensures ok ==> stable
      ensures sound && ok ==> Settled(g, hidden)
    {
      rounds, stable := 0, false;
      BelowSize(|cfg.edges|);
      SubsetCount(blocked, Below(|cfg.edges|));
      while rounds < |cfg.edges| + 2 && !stable
        invariant Ready() && g.excluded <= blocked <= Below(|cfg.edges|)
        invariant if rounds == 0 then (sound ==> Primed(g, hidden)) && !stable else sound ==> Settled(g, hidden)
        invariant rounds <= |blocked| + (if stable then 1 else 0) && |blocked| <= |cfg.edges|
        decreases |cfg.edges| + 2 - rounds
      {
        ok, stable := Round(order, g, hidden, sound);
        SubsetCount(blocked, Below(|cfg.edges|));
        if !ok {
          return;
        }
        rounds := rounds + 1;
      }
      ok := true;
    }

    /** `verified`: one query about the entry. */
    method IsVerified() returns (result: Option<bool>)
      requires Ready()
      modifies this`queries
      ensures var answer := oracle(old(queries), summaries[cfg.entry].Combined());
              result == if answer == Failed then None else Some(answer == Answered(Infeasible))
    {
      var answer := oracle(queries, summaries[cfg.entry].Combined());
      queries := queries + 1;
      result := if answer == Failed then None else Some(answer == Answered(Infeasible));
    }

    /** `bugfound`: nothing is reported unless the graph is acyclic. */
    method IsBugFound(acyclic: bool) returns (result: Option<bool>)
      requires Ready()
      modifies this`queries
      ensures var answer := oracle(old(queries), summaries[cfg.entry].Combined());
              result == if !acyclic then Some(false)
                        else if answer == Failed then None
                        else Some(answer == Answered(Feasible))
    {
      if !acyclic {
        return Some(false);
      }
      var answer := oracle(queries, summaries[cfg.entry].Combined());
      queries := queries + 1;
      result := if answer == Failed then None else Some(answer == Answered(Feasible));
    }
  }

  /** The edges that leave `nodes` or are among `edges`, unless blocked, are closed. */
  ghost predicate ClosedUpTo(cfg: Cfg, sums: Summaries, blocked: set<nat>, nodes: seq<nat>, edges: seq<nat>)
    requires WellFormed(cfg) && |sums| == |cfg.nodes|
  {
    forall e: nat | e < |cfg.edges| && e !in blocked && (cfg.edges[e].source in nodes || e in edges) ::
      EdgeClosed(cfg, sums, e)
  }

  /** Forwarding one edge in order closes it and keeps the edges before it closed. */
  lemma ForwardCloses(
      cfg: Cfg, sums: Summaries, blocked: set<nat>, excluded: set<nat>, order: seq<nat>, i: nat, done: seq<nat>, e: nat)
    requires WellFormed(cfg) && |sums| == |cfg.nodes| && IsTopological(cfg, excluded, order) && i < |order|
    requires e < |cfg.edges| && e !in excluded && cfg.edges[e].source == order[i]
    requires forall d: nat | d in done && d < |cfg.edges| :: cfg.edges[d].source == order[i]
    requires ClosedUpTo(cfg, sums, blocked, order[..i], done)
    ensures ReachGrows(sums, Forwarded(cfg, sums, e))
    ensures ClosedUpTo(cfg, Forwarded(cfg, sums, e), blocked, order[..i], done + [e])
  {
    ForwardedGrows(cfg, sums, e);
    TargetLater(cfg, excluded, order, i, e);
    forall d: nat | d < |cfg.edges| && d !in blocked && (cfg.edges[d].source in order[..i] || d in done)
      ensures EdgeClosed(cfg, Forwarded(cfg, sums, e), d)
    {
      ForwardedKeepsClosed(cfg, sums, e, d);
    }
  }

  lemma SubsetCount(a: set<nat>, b: set<nat>)
    requires a <= b
    ensures |a| <= |b| && (|a| == |b| ==> a == b)
  {
    assert b == a + (b - a);
    assert |b| == |a| + |b - a|;
  }

  lemma LaterCovers(g: Setting, sums: Summaries, order: seq<nat>, i: nat)
    requires WellSited(g.cfg, g.site) && Sized(g, sums) && IsTopological(g.cfg, g.excluded, order)
    requires i < |order| && SiteCovered(g, sums)
    requires forall e: nat | e < |g.cfg.edges| && e !in g.excluded && g.cfg.edges[e].target in order[i + 1..] ::
               EdgeCovered(g, sums, e)
    ensures order[i] < |g.cfg.nodes| && NodeCovered(g, sums, order[i])
  {
    assert order[i] in order;
    forall e: nat | e < |g.cfg.edges| && e !in g.excluded && g.cfg.edges[e].source == order[i]
      ensures EdgeCovered(g, sums, e)
    {
      TargetLater(g.cfg, g.excluded, order, i, e);
      var m := g.cfg.edges[e].target;
      assert m in order;
      var j :| 0 <= j < |order| && order[j] == m;
      assert i < j;
      assert order[j] == order[i + 1..][j - i - 1];
    }
    NodeFromEdges(g, sums, order[i]);
  }

  lemma SourceBefore(cfg: Cfg, excluded: set<nat>, order: seq<nat>, i: nat, e: nat)
    requires WellFormed(cfg) && IsTopological(cfg, excluded, order) && i < |order|
    requires e < |cfg.edges| && e !in excluded && cfg.edges[e].target == order[i]
    ensures cfg.edges[e].source != order[i]
  {
    var n := cfg.edges[e].source;
    assert n in order[..i];
  }

  lemma GrownInvariant(g: Setting, hidden: set<Name>, before: Summaries, after: Summaries, blocked: set<nat>)
    requires ValidSetting(g, hidden) && Sized(g, before) && ReachGrows(before, after)
    requires StatesVisible(before, hidden) && Witnessed(g, before) && SiteCovered(g, before)
    requires ReachCovers(g, before) || ReachCovers(g, after)
    requires BlockedDead(g, blocked) && g.excluded <= blocked
    ensures Invariant(g, hidden, after, blocked)
  {
  }

  lemma TargetLater(cfg: Cfg, excluded: set<nat>, order: seq<nat>, i: nat, e: nat)
    requires WellFormed(cfg) && IsTopological(cfg, excluded, order) && i < |order|
    requires e < |cfg.edges| && e !in excluded && cfg.edges[e].source == order[i]
    ensures cfg.edges[e].target !in order[..i] && cfg.edges[e].target != order[i]
  {
    var m := cfg.edges[e].target;
    assert m in order;
    var j :| 0 <= j < |order| && order[j] == m;
    assert order[i] in order[..j];
  }
}
