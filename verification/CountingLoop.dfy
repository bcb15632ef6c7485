/** A loop that meets the conditions of the cyclic analysis: `for (i = 0; i < 10; i++)` with an
    assertion behind it. */
module CountingLoop {
  import opened Formulas
  import opened Semantics
  import opened Substitution
  import opened Transfer
  import opened Graphs
  import opened Ordering
  import opened Runs
  import opened Oracles
  import opened Coverage
  import opened Reach
  import opened Loops
  import opened Acceptance
  import opened Checker

  const I := Var("i", IntSort)
  const BELOW_TEN := Cmp(Lt, TVar(I), Int(10))

  const COUNTER := Cfg(
    [[], [], [], []],
    [Edge(0, 1, True, [Assign(I, ValueTerm(Int(0)))]),
     Edge(1, 2, BELOW_TEN, []),
     Edge(2, 1, True, [Assign(I, ValueTerm(Bin(Add, TVar(I), Int(1))))]),
     Edge(1, 3, Not(BELOW_TEN), [])],
    0)

  const COUNTING := LoopInfo(1, 2, 2, {1, 2}, [3])

  lemma CounterLoop()
    ensures IsLoop(COUNTER, COUNTING)
  {
    assert IsPath(COUNTER, {}, [], 2, 2) && Avoiding(COUNTER, 1, [], 2, 2);
    forall path ensures !Avoiding(COUNTER, 1, path, 0, 2) && !Avoiding(COUNTER, 1, path, 3, 2) {
      if IsPath(COUNTER, {}, path, 0, 2) {
        assert path[0] in path && path[0] == 0;
      }
    }
  }

  lemma CounterSkeleton()
    ensures !Cyclic(COUNTER, {2}) && HasOrder(COUNTER, {2})
  {
    var order := [0, 1, 2, 3];
    assert order[..1] == [0] && 0 in order[..1] && order[..2] == [0, 1] && 1 in order[..2];
    assert order[..3] == [0, 1, 2] && 1 in order[..3];
    assert IsTopological(COUNTER, {2}, order);
    ForwardAcyclic(COUNTER, {2}, order);
  }

  lemma CounterEffects()
    ensures CfgModelled(COUNTER) && CfgVisible(COUNTER, {}) && BodyExact(COUNTER, {1, 2})
  {
    assert Hidden(BELOW_TEN) == {} && Hidden(Not(BELOW_TEN)) == {};
    assert HiddenT(Int(0)) == {} && HiddenT(Bin(Add, TVar(I), Int(1))) == {};
  }

  lemma CounterGuards()
    ensures GuardsStable(COUNTER, {2}) && ExclusiveGuards(COUNTER, {1, 2})
  {
    forall path, n: nat, m: nat | (n == 2 || n == 3) && IsPath(COUNTER, {2}, path, n, m) ensures n == m {
    }
    assert Writes([]) == {};
  }

  lemma CounterWritten()
    ensures WrittenOnce(COUNTER, {2}, 1)
  {
    forall path, n: nat, m: nat | (n == 2 || n == 3) && IsPath(COUNTER, {2}, path, n, m) ensures n == m {
    }
    forall e: nat | OnWay(COUNTER, {2}, 1, e)
      ensures EdgeFresh(COUNTER, e, MentionedBefore(COUNTER, {2}, COUNTER.edges[e].source))
    {
      assert e == 0;
      forall d: nat ensures !OnWay(COUNTER, {2}, 0, d) {
        NothingEntersZero(d);
      }
      var set0 := COUNTER.edges[0].effects;
      assert set0[1..] == [] && MentionedBefore(COUNTER, {2}, 0) == {} && MentionsAll([]) == {};
    }
  }

  lemma NothingEntersZero(d: nat)
    ensures !OnWay(COUNTER, {2}, 0, d)
  {
    if d < |COUNTER.edges| {
      forall path ensures !IsPath(COUNTER, {2}, path, COUNTER.edges[d].target, 0) {
        if IsPath(COUNTER, {2}, path, COUNTER.edges[d].target, 0) {
          var k := PathSplit(COUNTER, {2}, path, |path|, COUNTER.edges[d].target, 0);
        }
      }
    }
  }

  /** For every obligation behind the loop that hides nothing, and for candidates of that kind, the
      graph is in the scope of the cyclic analysis. */
  lemma CounterInScope(obligation: Formula, candidates: seq<Formula>)
    requires Hidden(obligation) == {} && forall f | f in candidates :: Hidden(f) == {}
    ensures LoopGraph(COUNTER, Site(3, obligation), COUNTING, candidates, {}) && Cyclic(COUNTER, {})
    ensures SingleLoopGraph(COUNTER, Site(3, obligation), candidates, {})
  {
    CounterLoop();
    CounterSkeleton();
    CounterEffects();
    CounterGuards();
    CounterWritten();
    forall reach, facts | ReachSolved(COUNTER, {2}, reach, facts)
      ensures NothingOverwritten(COUNTER, {2}, 1, reach, facts)
    {
      WrittenOnceKeeps(COUNTER, {2}, 1, reach, facts);
    }
    assert LoopGraph(COUNTER, Site(3, obligation), COUNTING, candidates, {});
    assert [1, 2][1..] == [2] && [2][1..] == [] && IsPath(COUNTER, {}, [2], 2, 1) && IsPath(COUNTER, {}, [1, 2], 1, 1);
  }

  // ---- The verdict ----------------------------------------------------------------------------

  const AT_MOST_TEN := Cmp(Le, TVar(I), Int(10))
  const IS_TEN := Cmp(Eq, TVar(I), Int(10))
  const SITE := Site(3, IS_TEN)

  lemma Comparisons(s: State)
    ensures Eval(BELOW_TEN, s) <==> s.ints(I) < 10
    ensures Eval(AT_MOST_TEN, s) <==> s.ints(I) <= 10
    ensures Eval(IS_TEN, s) <==> s.ints(I) == 10
  {
    assert EvalT(TVar(I), s) == s.ints(I) && EvalT(Int(10), s) == 10;
  }

  /** What crossing each edge does. */
  lemma Crossing(e: nat, s: State, t: State)
    requires e < 4
    ensures Cross(COUNTER, e, s, t) <==>
            match e
            case 0 => t == s.SetInt(I, 0)
            case 1 => t == s && s.ints(I) < 10
            case 2 => t == s.SetInt(I, s.ints(I) + 1)
            case _ => t == s && s.ints(I) >= 10
  {
    Comparisons(s);
    var effects := COUNTER.edges[e].effects;
    assert COUNTER.nodes[COUNTER.edges[e].source] == [] && Run([], s, s);
    assert EvalT(Int(0), s) == 0 && EvalT(TVar(I), s) == s.ints(I) && EvalT(Int(1), s) == 1;
    assert EvalT(Bin(Add, TVar(I), Int(1)), s) == s.ints(I) + 1;
    if e == 0 || e == 2 {
      assert effects[1..] == [] && forall u: State :: Run([], u, t) <==> u == t;
      assert Run(effects, s, t) <==> Step(effects[0], s, t);
    }
    assert Cross(COUNTER, e, s, t) <==> Eval(COUNTER.edges[e].guard, s) && Run(effects, s, t);
  }

  lemma CounterIncoming()
    ensures Incoming(COUNTER, 1) == [0, 2]
  {
    assert IncomingBelow(COUNTER, 1, 0) == [] && IncomingBelow(COUNTER, 1, 1) == [0];
    assert IncomingBelow(COUNTER, 1, 2) == [0] && IncomingBelow(COUNTER, 1, 3) == [0, 2];
  }

  /** What a kept edge and an excluded one contribute to the node they enter. */
  lemma FirstOnly(cfg: Cfg, excluded: set<nat>, reach: seq<Formula>, facts: seq<StoreFacts>, d: nat, e: nat)
    requires WellFormed(cfg) && |reach| == |facts| == |cfg.nodes| && d < |cfg.edges| && e < |cfg.edges|
    requires Live(cfg, excluded, reach, d) && e in excluded
    ensures var through := SpEdge(cfg, d, reach[cfg.edges[d].source], facts[cfg.edges[d].source]);
            Gathered(cfg, excluded, reach, facts, False, [d, e]) == (OrOf(False, through.0), Some(through.1))
  {
    assert [d, e][..1] == [d] && [d][..0] == [];
    assert Gathered(cfg, excluded, reach, facts, False, []) == (False, None);
  }

  /** The forward pass claims first entries with `i == 0` and no others: here it is as strong as it
      can be. */
  lemma CounterEntry(reach: seq<Formula>, facts: seq<StoreFacts>, s: State)
    requires ReachSolved(COUNTER, {2}, reach, facts)
    ensures Claims(reach, facts, 1, s) <==> s.ints(I) == 0
  {
    var through := SpEdge(COUNTER, 0, True, map[]);
    CounterIncoming();
    EntrySolved(COUNTER, {2}, reach, facts);
    assert NodeSolved(COUNTER, {2}, reach, facts, 1);
    FirstOnly(COUNTER, {2}, reach, facts, 0, 2);
    OrMeaning(False, through.0, s);
    SetZero(s);
  }

  lemma SetZero(s: State)
    ensures var through := SpEdge(COUNTER, 0, True, map[]);
            (Eval(through.0, s) <==> s.ints(I) == 0) && through.1 == map[]
  {
    var start := AndOf(True, True);
    var effects := COUNTER.edges[0].effects;
    assert COUNTER.nodes[0] == [] && effects[1..] == [];
    assert Sp([], True, map[]) == (True, map[]) && SpEdge(COUNTER, 0, True, map[]) == Sp(effects, start, map[]);
    assert SpOne(effects[0], start, map[]) == (AndOf(start, Cmp(Eq, TVar(I), Int(0))), map[]);
    assert Sp(effects, start, map[]) == SpOne(effects[0], start, map[]);
    AndMeaning(True, True, s);
    AndMeaning(start, Cmp(Eq, TVar(I), Int(0)), s);
    assert EvalT(TVar(I), s) == s.ints(I) && EvalT(Int(0), s) == 0;
  }

  method CounterReach() returns (f: Formula)
    ensures forall s: State :: Eval(f, s) <==> s.ints(I) == 0
  {
    CounterSkeleton();
    ghost var reach, facts;
    f, reach, facts := ForwardReachAtHeader(COUNTER, {2}, 1);
    forall s: State ensures Eval(f, s) <==> s.ints(I) == 0 {
      CounterEntry(reach, facts, s);
    }
  }

  lemma CounterInitiated()
    requires IsLoop(COUNTER, COUNTING) && HasOrder(COUNTER, {2})
    ensures Initiated(COUNTER, COUNTING, AT_MOST_TEN)
  {
    var reach, facts := SolutionExists(COUNTER, {2});
    forall s: State ensures Claims(reach, facts, 1, s) <==> s.ints(I) == 0 {
      CounterEntry(reach, facts, s);
    }
    forall s: State | Claims(reach, facts, 1, s) ensures Eval(AT_MOST_TEN, s) {
      Comparisons(s);
    }
    var zero := State(v => 0, v => false, (r, k) => 0, (a, b) => 0, (a, b) => 0);
    assert zero.ints(I) == 0 && Claims(reach, facts, 1, zero);
    assert ClaimsMeet(reach, facts, 1, AT_MOST_TEN);
  }

  lemma KeptPaths(path: seq<nat>, n: nat, m: nat)
    requires IsPath(COUNTER, {2}, path, n, m)
    ensures n == 2 || n == 3 ==> path == []
    ensures n == 1 ==> if m == 1 then path == [] else if m == 2 then path == [1] else path == [3]
    ensures n == 0 && path != [] ==> path[0] == 0 && IsPath(COUNTER, {2}, path[1..], 1, m)
  {
    if path != [] && n == 1 {
      assert path[1..] == [];
      assert path == [path[0]];
    }
  }

  lemma CounterReturning()
    requires IsLoop(COUNTER, COUNTING)
    ensures Returning(COUNTER, COUNTING, AT_MOST_TEN)
  {
    forall path, s: State, u: State |
      Eval(AT_MOST_TEN, s) && IsPath(COUNTER, {2}, path, 1, 2) && Follows(COUNTER, path, s, u)
      ensures exists t: State :: Cross(COUNTER, 2, u, t) && Eval(AT_MOST_TEN, t)
    {
      KeptPaths(path, 1, 2);
      var v: State :| Cross(COUNTER, 1, s, v) && Follows(COUNTER, path[1..], v, u);
      assert path[1..] == [];
      Crossing(1, s, u);
      var t := u.SetInt(I, u.ints(I) + 1);
      Crossing(2, u, t);
      Comparisons(t);
    }
  }

  lemma CounterExit()
    requires IsLoop(COUNTER, COUNTING)
    ensures LooselyClosed(COUNTER, COUNTING, AT_MOST_TEN, 3, Doomed(COUNTER, {2}, SITE, 3))
  {
    forall path, s: State, u: State, t: State |
      Eval(AT_MOST_TEN, s) && LooseRun(COUNTER, COUNTING, 3, path, s, u, t)
      ensures !Violating(COUNTER, {2}, SITE, 3, t)
    {
      KeptPaths(path, 1, 1);
      assert path == [] && u == s;
      Crossing(3, s, t);
      Comparisons(s);
      forall rest, v: State | IsPath(COUNTER, {2}, rest, 3, 3) && Follows(COUNTER, rest, t, v)
        ensures !ViolatedAt(COUNTER, SITE, v)
      {
        KeptPaths(rest, 3, 3);
      }
    }
  }

  lemma CounterSkeletonSafe()
    ensures SafeFrom(COUNTER, {2}, SITE)
  {
    forall path, s: State, t: State | IsPath(COUNTER, {2}, path, 0, 3) ensures !Follows(COUNTER, path, s, t) {
      if Follows(COUNTER, path, s, t) {
        KeptPaths(path, 0, 3);
        KeptPaths(path[1..], 1, 3);
        var u: State :| Cross(COUNTER, 0, s, u) && Follows(COUNTER, path[1..], u, t);
        Crossing(0, s, u);
        assert path[1..] == [3];
        var v: State :| Cross(COUNTER, 3, u, v);
        Crossing(3, u, v);
        assert false;
      }
    }
  }

  /** The graph is in the scope of the cyclic analysis, which has to verify the site. */
  ghost predicate ToVerify(cfg: Cfg, site: Site, info: LoopInfo, candidates: seq<Formula>) {
    LoopGraph(cfg, site, info, candidates, {}) && Cyclic(cfg, {}) && CfgExact(cfg)
    && LoopVerdict(cfg, site, info, candidates) == Verified
  }

  lemma OneCandidate(cfg: Cfg, site: Site, info: LoopInfo, candidate: Formula)
    requires LoopGraph(cfg, site, info, [candidate], {}) && Cyclic(cfg, {}) && CfgExact(cfg)
    requires Meets(cfg, site, info, candidate) && SafeFrom(cfg, {info.backEdge}, site)
    ensures ToVerify(cfg, site, info, [candidate])
  {
    assert candidate in [candidate];
  }

  lemma CounterMeets()
    ensures WellSited(COUNTER, SITE) && IsLoop(COUNTER, COUNTING) && Meets(COUNTER, SITE, COUNTING, AT_MOST_TEN)
  {
    CounterLoop();
    CounterSkeleton();
    CounterInitiated();
    CounterReturning();
    CounterExit();
    assert Normalised(COUNTER, COUNTING, AT_MOST_TEN) == AT_MOST_TEN;
  }

  lemma CounterExact()
    ensures CfgExact(COUNTER)
  {
  }

  lemma CounterScope()
    ensures LoopGraph(COUNTER, SITE, COUNTING, [AT_MOST_TEN], {}) && Cyclic(COUNTER, {})
  {
    assert Hidden(IS_TEN) == {} && Hidden(AT_MOST_TEN) == {};
    CounterInScope(IS_TEN, [AT_MOST_TEN]);
  }

  lemma CounterVerified()
    ensures ToVerify(COUNTER, SITE, COUNTING, [AT_MOST_TEN])
  {
    CounterExact();
    CounterScope();
    CounterMeets();
    CounterSkeletonSafe();
    OneCandidate(COUNTER, SITE, COUNTING, AT_MOST_TEN);
  }

  method AnalyzeVerified(
      cfg: Cfg, site: Site, oracle: Oracle, candidates: seq<Formula>, ghost info: LoopInfo)
    returns (verdict: Verdict)
    requires Deciding(oracle) && ToVerify(cfg, site, info, candidates)
    ensures verdict == Verified
  {
    verdict := Analyze(cfg, site, oracle, candidates, {});
  }

  /** With an oracle that decides, the analysis accepts `i <= 10` and verifies `i == 10` behind the
      loop. */
  method AnalyzeCounter(oracle: Oracle) returns (verdict: Verdict)
    requires Deciding(oracle)
    ensures verdict == Verified
  {
    CounterVerified();
    verdict := AnalyzeVerified(COUNTER, SITE, oracle, [AT_MOST_TEN], COUNTING);
  }
}
