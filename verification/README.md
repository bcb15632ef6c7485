# A verified model of a may/must assertion checker

The repository is a bidirectional assertion checker: a backward NOT-MAY engine proves that no
execution violates an obligation, a forward MUST search looks for one that does, and both work on
control-flow graphs whose transfer effects are described by formulas over scalars and memory
regions. This project models that verifier in Dafny and proves that its answers are right.

The files follow the program's components.

- **Logic.** `Formulas` (terms, memories, formulas, smart constructors), `Semantics` (states and
  evaluation), `Substitution`, `Transfer` (effects, their steps, `wp`, `wp_inductive`, havoc),
  `AlphaRenaming` and `RenamedRuns` (what renaming does to runs).
- **Graphs.** `Graphs` (depth-first back edges), `Ordering` (Kahn's ordering), `Runs` (executions).
- **Backward engine.** `Passes`, `Oracles`, `Coverage` and `Engine` (the rule engine), `Reach` and
  `Strongest` (first-entry facts and how much they say), `Loops` and `Acceptance` (natural loops,
  the three-part invariant check and what it accepts), `LoopRule` (any number of iterations),
  `Checker` (the whole analysis) and `CountingLoop` (a loop that it verifies).
- **Forward search.** `PathSearch` (path enumeration), `Versions`, `SymbolicWalk`,
  `PathConditions`, `PathRuns`, `Dart` and `SsaPaths`.
- **Pointers.** `Andersen` (the points-to fixpoint).
- **Procedures.** `Summaries` (subsumption and merging), `Projection`, `ReturnSummaries`,
  `CallSites`, with `KeyOrders` for maps iterated by key.

A state gives every variable an integer and a Boolean and every region an integer array. Assumptions
and obligations block when false. The executions of `Strict(cfg)` are those on which every type
bound holds as well. `hidden` parameters are sets covering the names that occur under `BoolToInt`;
they carry the side condition under which Boolean substitution is right. Ghost flags such as `sound`
make guarantees conditional, so that the methods themselves demand no more than the code does. The
SMT solver is an arbitrary function of the queries asked so far and the formula; it may answer
Unknown or fail at any time, and theorems say when it has to be truthful or decisive. A truthful
oracle's Infeasible rules out models under every division; the real solver rules out those with
Euclidean division only, so on formulas with division the theorems ask more than it gives.

Where a property fails, a lemma names an input on which it does, and the positive theorem carries a
condition on the inputs. Where the failing family has an exact condition, it is stated too:

- Boolean substitution does not enter `BoolToInt` (`HiddenTargetMissed`).
- `wp` skips calls that havoc memory (`WpSkipsHavocCall`).
- The forward rule conjoins guards that a later assignment falsifies, and the engine then answers
  Verified although a run violates the obligation (`ReassignedGuardMissed`).
- Constant folding truncates while the solver divides Euclideanly (`EuclideanFoldingWrong`); folding
  is right exactly under truncating division (`FoldingExact`).
- Store facts with unresolved loads go stale (`StaleFact`); on graphs that write nothing mentioned
  before they do not (`FirstEntry`), and where joins drop none and stores have constant offsets they
  describe first entries exactly (`FirstEntryExact`).
- The inductiveness query is an OR over branches, and it drops what a havoc forgets
  (`OverlappingBranches`, `HavocInBody`).
- A loop whose header is its own latch has every node reaching the header as its body
  (`SelfLoopSwallows`); `BodyIsNatural` says exactly when the body is the natural loop.
- A variable that is read before the definition that keeps its name loses executions
  (`ReadThenKept`).
- A field constraint that feeds itself keeps the points-to solver running (`FieldCycleUnsolvable`);
  `SolvableExactly` says exactly when it ends, and `LayeredSolvable` gives a check on the constraints.
- A local below a `store` survives projection unseen (`HiddenLocalSurvives`).
- A projected NotMay summary can promise more than the query it came from (`ProjectedNotMayFails`);
  `ProjectedNotMayExact` says exactly when it is valid.
- Havocs are copied verbatim by renaming (`HavocNotRenamed`), which is right exactly when the region
  keeps its name (`HavocCommutesExactly`), and a bound region below a `store` is not shifted
  (`ShiftLostUnderStore`).
- A merge loses all entries of a procedure exactly when the search for a covering entry comes through
  without a hit and a replacement query fails (`MergeSummary`, with the one-entry table of
  `MergeLosesEntry`).

Four comments in the source differ from its code, and the model follows the code. The description of
the initiation check speaks of propagating the violation backward, while the code propagates reach
forward and asks for an implication (src/analysis/loops/mod.rs:257, src/analysis/loops/mod.rs:300).
The comment on integer substitution in the projection speaks of matching by name, while the code
compares name and sort (src/analysis/interproc/query.rs:675, src/cfg/abstract_cfg.rs:1131). The
comment on the points-to solver bounds its locations by the module, while field locations are
generated without bound (src/pointer_analysis/andersen.rs:440,
src/pointer_analysis/andersen.rs:549). The note on creating NotMay summaries calls the projected
summary sound by construction, which holds only under the condition above
(src/analysis/interproc/query.rs:726).

## Model

| member | source | states |
|---|---|---|
| `Formulas.Simplify` | src/formula/mod.rs:634-703 | the simplifying loops compute exactly the simplified formula: flattened, without neutral or duplicate operands, collapsed when an operand absorbs |
| `Formulas.FlattenMembers` | src/formula/mod.rs:634-703 | flattening gives up exactly when an absorbing operand is present; otherwise it keeps exactly the parts of the operands, each once |
| `Semantics.SimplifyMeaning` | src/formula/mod.rs:634-703 | simplification preserves the value of every formula in every state |
| `Semantics.IffMeaning` | src/formula/mod.rs:538-543 | the equivalence constructor means equivalence through its two simplified implications |
| `Formulas.JoinNormal` | src/formula/mod.rs:510-532 | conjunctions and disjunctions built by the smart constructors are in normal form when their operands are: no constant operand, no directly nested connective, no duplicate, at least two operands |
| `Formulas.ConstructorsNormal` | src/formula/mod.rs:510-543 | every binary smart constructor keeps normal form |
| `Semantics.Congruence` | src/formula/mod.rs:471-500 | a formula's value depends only on the variables and regions it mentions, also below terms, stores and memory equalities |
| `Substitution.Substituted` | src/cfg/abstract_cfg.rs:1082-1264 | evaluating the result of an integer, Boolean or region substitution is evaluating the original in the updated state, provided a Boolean target does not occur under BoolToInt |
| `Substitution.SubstitutedM` | src/cfg/abstract_cfg.rs:1166-1175 | the same for every cell a memory expression denotes, through nested stores and selects |
| `Substitution.HiddenTargetMissed` | src/cfg/abstract_cfg.rs:1204-1209 | the proviso is needed: a Boolean under BoolToInt is not substituted and the result is wrong |
| `Substitution.AppliedNormal` | src/cfg/abstract_cfg.rs:1082-1264 | all three substitution families return formulas in normal form |
| `Transfer.ComputeWp` | src/cfg/abstract_cfg.rs:321-342 | the fold over the effects, last effect first, for both transformers; the rows below say what it requires |
| `Transfer.WpExact` | src/cfg/abstract_cfg.rs:972-1014 | a state satisfies wp exactly when the effects run to completion from it and end in the postcondition |
| `Transfer.WpInductiveLiberal` | src/cfg/abstract_cfg.rs:1016-1029 | wp_inductive holds exactly where the run stops at a false assumption or completes into the postcondition |
| `Transfer.WpOver` | src/cfg/abstract_cfg.rs:972-1014 | with havocs, wp still covers every run into the postcondition |
| `Transfer.HavocRegionOver` | src/cfg/abstract_cfg.rs:958-970 | forgetting a region over-approximates its existential quantification |
| `Transfer.HavocRegionRemoves` | src/cfg/abstract_cfg.rs:958-970 | and leaves no mention of the region |
| `Transfer.HavocRegionExact` | src/cfg/abstract_cfg.rs:954-970 | forgetting a region keeps exactly the conjuncts that do not mention it, leaves an unaffected formula as it is, and gives up any other formula |
| `Transfer.HavocAllExact` | src/cfg/abstract_cfg.rs:954-970 | forgetting several regions keeps exactly the conjuncts that mention none of them |
| `Transfer.WpHavocExact` | src/cfg/abstract_cfg.rs:972-1014 | before a havoc both transformers require exactly those conjuncts of what they require after it that mention no havoced region |
| `Transfer.HavocKeepsConjunct` | src/cfg/abstract_cfg.rs:954-970 | a conjunct about a variable survives the havoc of a region that the other conjunct reads |
| `Transfer.WpNormal` | src/cfg/abstract_cfg.rs:972-1029 | both transformers return formulas in normal form, so conjuncts are never nested |
| `Transfer.WpSkipsHavocCall` | src/cfg/abstract_cfg.rs:974-987 | wp does not cover the runs of a call that havocs memory: it is skipped |
| `Graphs.DepthFirstSearch.Visit` | src/cfg/abstract_cfg.rs:858-878 | the recursive search keeps its stack a simple path from the entry, restores it, and finishes every node after the targets of its kept edges |
| `Graphs.DetectBackEdges` | src/cfg/abstract_cfg.rs:850-878 | every edge returned leads from the end of a simple path from the entry back to a node of that path, so it closes a cycle, none is returned twice, and without them no entry-reachable node lies on a cycle |
| `Ordering.CountIncoming` | src/cfg/abstract_cfg.rs:791-815 | the in-degrees count exactly the kept edges into each node |
| `Ordering.CountDown` | src/cfg/abstract_cfg.rs:816-848 | an in-degree that is decremented is positive, and the counts stay right |
| `Ordering.TopologicalOrder` | src/cfg/abstract_cfg.rs:791-848 | the ordering is a permutation of the nodes with every kept edge forward, and it fails exactly when the kept edges have a cycle |
| `Ordering.SkeletonOrder` | src/analysis/loops/mod.rs:636-639 | detecting back edges and ordering without them gives an order with every kept edge forward, unless a cycle remains among nodes that the entry does not reach |
| `Ordering.BackEdgesIffCycle` | src/cfg/abstract_cfg.rs:850-878 | back edges are found exactly when a cycle is reachable from the entry |
| `Runs.EdgePreExact` | src/analysis/loops/mod.rs:723-799 | the requirement at the source of an edge is exactly the existence of a crossing into the target formula |
| `Passes.BackwardStates` | src/analysis/loops/mod.rs:723-788 | one pass in reverse topological order makes every formula its seed or the precondition of one of its kept edges, and it fails exactly when the excluded edges leave a cycle |
| `Passes.PassCovers` | src/analysis/loops/mod.rs:723-788 | every run into the seed starts in the formula of its node, also when guards are ignored |
| `Passes.PassExact` | src/analysis/loops/mod.rs:723-788 | on exact effects a formula holds precisely where some run over kept edges leads into the seed |
| `Oracles.RefutationMeaning` | src/smt/oracle.rs:185-198 | an infeasible refutation query is an entailment, a feasible one its failure |
| `Coverage.CombinedMeaning` | src/analysis/backward/node_summary.rs:83-121 | reach and state joined and combined mean conjunction and disjunction of their parts |
| `Coverage.GuardsStillHold` | src/analysis/backward/rules.rs:196-205 | a guard carried forward still holds along a run when no variable of it is reassigned after it |
| `Coverage.ReassignedGuardMissed` | src/analysis/backward/rules.rs:187-281 | without that discipline the engine is wrong: a graph on which every pruning query of the first round is infeasible and the entry formula becomes False while a run from the entry violates the obligation |
| `Coverage.ClosedCovers` | src/analysis/backward/rules.rs:187-213 | reach formulas closed under the forward rule cover every arrival from the entry |
| `Coverage.PropagatedKeeps` | src/analysis/backward/rules.rs:215-250 | the backward rule keeps the engine invariant: arriving violations are covered, and on exact effects states are witnessed by violating runs |
| `Coverage.WithoutStateKeeps` | src/analysis/backward/rules.rs:252-281 | so does pruning, although it resets the state and blocks the edge: the combined formula was infeasible |
| `Engine.RuleEngine.NotMayPrePruned` | src/analysis/backward/rules.rs:252-281 | the pruning step: the joined summaries, and on an infeasible answer the state reset and the edge blocked for good |
| `Engine.RuleEngine.ForwardPass` | src/analysis/backward/rules.rs:415-447 | after a forward pass every unblocked edge is closed, and a reach formula holds in exactly those states in which unblocked edges with true guards lead from a reach formula before the pass |
| `Engine.RuleEngine.BackwardPass` | src/analysis/backward/rules.rs:415-447 | after a backward pass every node's state covers the violations of its arrivals, and blocked edges only grow |
| `Engine.RuleEngine.RunToFixpoint` | src/analysis/backward/rules.rs:415-447 | the outer loop stops by stability within its bound, and the engine has then settled |
| `Coverage.EntryVerdict` | src/analysis/backward/rules.rs:449-530 | at a settled entry the combined formula covers every violating run, and on exact effects holds only where one starts |
| `Checker.PreliminaryStates` | src/analysis/backward/mod.rs:323-356 | the preliminary pass covers the violations over kept edges at every node, and on exact effects describes them exactly |
| `Checker.ConjunctLoopInvariants` | src/analysis/backward/mod.rs:358-372 | the invariants of one header are conjoined in order |
| `Checker.InjectInvariants` | src/analysis/backward/mod.rs:220-227 | the reach of a header becomes its invariant, conjoined with what was known unless that was False; nothing else changes |
| `Checker.RunBackward` | src/analysis/backward/mod.rs:200-274 | whatever invariants are injected away from the entry, Verified means that no kept run violates the obligation, BugFound that one does, and a decisive oracle on exact effects gives Verified exactly when no kept run does, else BugFound or, on graphs with loops, no verdict |
| `Reach.FoldingExact` | src/formula/mod.rs:366-389 | constant folding agrees with evaluation exactly when division and remainder round toward zero |
| `Reach.EuclideanFoldingWrong` | src/formula/mod.rs:366-389 | under Euclidean division it does not: -7 / 2 |
| `Reach.ResolvedValue` | src/analysis/loops/mod.rs:502-543 | resolving loads by store facts that hold changes no value |
| `Reach.SpSound` | src/analysis/loops/mod.rs:545-629 | along effects that overwrite nothing mentioned before, reach formula and store facts stay true |
| `Reach.StaleFact` | src/analysis/loops/mod.rs:545-629 | a fact with an unresolved load goes stale when the loaded region is stored to: a concrete run |
| `Reach.ForwardReachAtHeader` | src/analysis/loops/mod.rs:631-706 | formulas and facts are the solution of the equations of the pass, the result is the reach formula of the header with its facts, and on graphs that are written once every first entry satisfies it |
| `Reach.SolutionUnique` | src/analysis/loops/mod.rs:655-695 | the equations of the pass have one solution, so the order of the nodes does not matter |
| `Reach.SolvedNames` | src/analysis/loops/mod.rs:655-695 | formula and facts of a node mention only names that the edges on the way to it mention |
| `Reach.WrittenOnceKeeps` | src/analysis/loops/mod.rs:545-629 | single assignment on the way to the header, a condition on the graph alone, implies that nothing the pass mentions is overwritten |
| `Reach.FirstEntry` | src/analysis/loops/mod.rs:631-706 | on a graph where no edge on the way to the header writes a name mentioned before, every run to the header over kept edges arrives where its reach formula and store facts hold |
| `Strongest.SpStrongest` | src/analysis/loops/mod.rs:545-629 | the pass is as strong as it can be: a state that satisfies formula and facts after effects that write nothing mentioned before is the outcome of a run from a state that satisfies them before, unless a store has no constant offset |
| `Strongest.PassStrongest` | src/analysis/loops/mod.rs:655-695 | along the acyclic skeleton every state that formula and facts of a node describe is one that a run arrives in |
| `Strongest.FirstEntryExact` | src/analysis/loops/mod.rs:631-706 | on written-once graphs with constant-offset stores whose joins drop no fact, formula and facts of the header hold exactly in the states of first entries |
| `Strongest.NoJoinsKeep` | src/analysis/loops/mod.rs:655-695 | where no two edges meet on the way to the header, a condition on the graph alone, no fact is dropped |
| `Strongest.FactsAgree` | src/analysis/loops/mod.rs:496-500 | at a join exactly those facts are kept on which all live incoming edges agree |
| `Strongest.SpGrows` | src/analysis/loops/mod.rs:545-629 | the pass never gives up anything that its formula says |
| `Strongest.FactsKept` | src/analysis/loops/mod.rs:545-629 | a fact about a region that an effect does not write stays |
| `Strongest.LoadResolved` | src/analysis/loops/mod.rs:502-543 | after the load of a cell with a known value the formula alone says that the variable has that value |
| `Strongest.ResolvedOnly` | src/analysis/loops/mod.rs:502-543 | resolution leaves no load of a known cell |
| `Strongest.FoldsExactly` | src/formula/mod.rs:366-389 | exactly the terms without variables and loads that divide by no zero fold to a constant |
| `Reach.SolutionExists` | src/analysis/loops/mod.rs:655-695 | on an acyclic skeleton the equations of the pass have a solution |
| `Loops.LoopBody` | src/analysis/loops/mod.rs:194-224 | the backward search computes exactly the nodes that reach the latch without entering the header |
| `Loops.DetectLoop` | src/analysis/loops/mod.rs:194-224 | and the exit edges are exactly those leaving that body |
| `Loops.BodyIsNatural` | src/analysis/loops/mod.rs:194-224 | the detected body is the natural loop exactly when the header is not its own latch or no other node reaches it |
| `Loops.SelfLoopSwallows` | src/analysis/loops/mod.rs:194-224 | otherwise it is not: a graph whose entry is in the detected body of a back edge from a header to itself |
| `Loops.TwoWayExclusive` | src/cfg/adapter.rs:1728-1731 | two-way branches, one guard the negation of the other, have exclusive guards |
| `Loops.InductiveCheck` | src/analysis/loops/mod.rs:348-420 | a valid inductiveness query lets every run round the loop return into the candidate and makes the candidate inductive over a whole trip when the effects of the body are exact, despite the OR over branches and assumptions read as implications |
| `Loops.OverlappingBranches` | src/analysis/loops/mod.rs:782-783 | with overlapping guards it does not: a loop on which the query is valid and the candidate not inductive |
| `Loops.HavocInBody` | src/analysis/loops/mod.rs:348-420 | with a havoc in the body it does not: a loop on which the query is valid for every result of the pass and the candidate not inductive |
| `Loops.ExitCheck` | src/analysis/loops/mod.rs:421-486 | an infeasible exit query closes the exit edge, although the pass behind it ignores guards |
| `Acceptance.InductivenessExact` | src/analysis/loops/mod.rs:348-420 | the inductiveness query is valid exactly when every run round the loop from a state of the candidate can take the back edge into the candidate |
| `Acceptance.ExitExact` | src/analysis/loops/mod.rs:421-486 | the exit query is infeasible exactly when no run that ignores the guards of the body leads from a state of the candidate over the exit edge into the postcondition |
| `Acceptance.InitiationExact` | src/analysis/loops/mod.rs:290-347 | the initiation queries succeed exactly when the candidate holds on all first entries that the forward pass claims, and there is one |
| `Acceptance.CheckInitiation` | src/analysis/loops/mod.rs:290-347 | initiation accepts only satisfiable candidates entailed by the reach formula, and with a decisive oracle exactly those consistent with it |
| `Acceptance.CheckLoopInvariant` | src/analysis/loops/mod.rs:290-487 | acceptance gives initiation, inductiveness and exit closure of the normalised candidate as facts about runs, under conditions on the graph; with an oracle that decides and exact effects every result, acceptance and each failure, is given exactly when its reason holds |
| `LoopRule.HeaderInvariant` | src/analysis/loops/mod.rs:348-420 | on every run, with any number of iterations, each arrival at the header satisfies the normalised candidate |
| `LoopRule.ExitsExcluded` | src/analysis/loops/mod.rs:421-486 | and no exit edge is crossed into a state satisfying its violation postcondition |
| `LoopRule.OneBackEdge` | src/cfg/abstract_cfg.rs:850-878 | on a graph with a single loop every edge that the depth-first search can report is the back edge of that loop |
| `LoopRule.LoopingRunSafe` | src/analysis/backward/mod.rs:147-198 | a run that uses the back edge cannot violate an assertion behind the loop |
| `LoopRule.SingleLoopSafe` | src/analysis/backward/mod.rs:147-198 | an accepted invariant and a safe skeleton leave no violating execution of a single-loop procedure |
| `Checker.FirstAccepted` | src/analysis/backward/mod.rs:176-198 | with an oracle that decides, the first acceptable candidate is taken, and none only if no candidate is acceptable |
| `Checker.AnalyzeLoop` | src/analysis/backward/mod.rs:176-198 | the cyclic branch: Verified speaks about executions with any number of iterations, BugFound is never answered, and with an oracle that decides the verdict is unsupported exactly when no candidate meets the three checks, else Verified exactly when the skeleton is safe |
| `Checker.Analyze` | src/analysis/backward/mod.rs:147-198 | the whole analysis: on acyclic graphs the verdict is sound and, with a decisive oracle, exact; on single-loop graphs, a condition on graph, site and candidates, Verified means that no type-correct execution violates the obligation, and with a decisive oracle the verdict is the one that candidates and skeleton determine |
| `CountingLoop.CounterInScope` | src/analysis/backward/mod.rs:147-198 | a counting loop with an assertion behind it meets that condition, whatever the obligation |
| `CountingLoop.AnalyzeCounter` | src/analysis/backward/mod.rs:147-198 | with every oracle that decides, the analysis of that loop with the candidate `i <= 10` answers Verified for `i == 10` behind it |
| `CountingLoop.CounterReach` | src/analysis/loops/mod.rs:631-706 | there the forward pass yields exactly `i == 0` at the header |
| `PathSearch.PathSearcher.Dfs` | src/analysis/dart/mod.rs:240-298 | the search appends the depth-first enumeration cut at the cap, and restores path and visit counts exactly |
| `PathSearch.EnumeratePaths` | src/analysis/dart/mod.rs:216-298 | the result is the first max_paths elements of the pure depth-first enumeration |
| `PathSearch.EnumeratedBounded` | src/analysis/dart/mod.rs:240-298 | every enumerated path leads to the target, meets it only at the end, is short enough and leaves no node too often |
| `PathSearch.BoundedEnumerated` | src/analysis/dart/mod.rs:240-298 | every such path is enumerated |
| `PathSearch.EnumerationExact` | src/analysis/dart/mod.rs:216-298 | the result has real bounded paths only, none twice, and all of them when the cap allows |
| `Versions.VersionNameInjective` | src/analysis/dart/mod.rs:505-524 | a version name determines variable, node and visit, so versions are unique without a shared counter |
| `Dart.PathWalker.VersionVar` | src/analysis/dart/mod.rs:505-524 | the first definition keeps its name and its version is dropped; a later one gets the version name |
| `SymbolicWalk.SubstFormulaWalk` | src/analysis/dart/mod.rs:533-555 | evaluating the substituted formula in a model is evaluating the formula in the program state the model stands for, in whatever order the maps are iterated |
| `SymbolicWalk.SubstTermWalk` | src/analysis/dart/mod.rs:557-573 | the same for terms, where only integer names are renamed |
| `PathConditions.AssignSound` | src/analysis/dart/mod.rs:429-455 | an assignment step keeps the walk invariant: models execute the events so far and end in the state they stand for |
| `PathConditions.AssignComplete` | src/analysis/dart/mod.rs:429-455 | and, when the definition gets a name not mentioned before, every execution still extends to a model |
| `PathConditions.StoreBounded` | src/analysis/dart/mod.rs:465-481 | store chains keep to their region when stored operands read no memory |
| `Dart.ComputePathCondition` | src/analysis/dart/mod.rs:340-403 | a model of the path condition executes the path without blocking; with freshly named definitions every execution of the path extends to a model |
| `PathRuns.PathOutcome` | src/analysis/dart/mod.rs:355-398 | the outcome of the events is a run along the path on which every type bound holds, the only one for exact effects |
| `Dart.CombinedSound` | src/analysis/dart/mod.rs:156-170 | from any model of path condition and substituted violation, the run from that state follows the path and reaches the site with the obligation false |
| `Dart.CombinedComplete` | src/analysis/dart/mod.rs:156-170 | every violating run along a freshly named path gives such a model, changed only at the names given on the way |
| `Dart.DartExplore` | src/analysis/dart/mod.rs:134-202 | BugFound is a real bug; with a decisive oracle, NoBug within the path cap refutes every bounded path |
| `SsaPaths.PathFreshlyNamed` | src/analysis/dart/mod.rs:405-524 | in SSA form, phi assignments on edges included, every path from the entry names its definitions freshly |
| `SsaPaths.SsaExploration` | src/analysis/dart/mod.rs:134-202 | so on SSA graphs a refuted path is exactly one that no execution violates |
| `SsaPaths.ReadThenKept` | src/analysis/dart/mod.rs:505-524 | a variable read before a definition that keeps its name makes the path condition unsatisfiable although the path runs |
| `Andersen.AliasSolver.AddPts` | src/pointer_analysis/andersen.rs:118-128 | an insertion that grows a set queues everything that reads it, so every constraint that is not queued stays satisfied |
| `Andersen.AliasSolver.ProcessLoad` | src/pointer_analysis/andersen.rs:560-590 | processing a load leaves it satisfied or queued, adds only facts that every solution has, and shortens the queue or grows the facts |
| `Andersen.AliasSolver.ProcessStore` | src/pointer_analysis/andersen.rs:592-640 | the same for a store through a pointer |
| `Andersen.AliasSolver.BuildIndex` | src/pointer_analysis/andersen.rs:454-484 | the reverse index lists for each pointer exactly the constraints that read it |
| `Andersen.AliasSolver.Saturate` | src/pointer_analysis/andersen.rs:503-645 | the worklist loop ends when a finite solution exists, with the least solution |
| `Andersen.Solve` | src/pointer_analysis/andersen.rs:444-645 | whenever a finite solution exists the run ends, and the result satisfies every constraint and is contained in every other solution |
| `Andersen.SolveWithin` | src/pointer_analysis/andersen.rs:503-645 | on any constraints and after any number of iterations all facts found are in every solution; a run that has ended has the least one, and without a finite solution no run has ended |
| `Andersen.LeastUnique` | src/pointer_analysis/andersen.rs:444-645 | it does not depend on the worklist order |
| `Andersen.LeastIsDerivable` | src/pointer_analysis/andersen.rs:444-645 | the least solution is exactly the set of facts that have a derivation from the seeds |
| `Andersen.SolvableExactly` | src/pointer_analysis/andersen.rs:437-443 | a finite solution exists exactly when no derivation goes through one field constraint twice |
| `Andersen.LayeredSolvable` | src/pointer_analysis/andersen.rs:437-443 | a finite solution exists when the pointers can be layered so that field constraints lead up and no other constraint leads down, with memory on one layer |
| `Andersen.FieldFreeSolvable` | src/pointer_analysis/andersen.rs:437-443 | without field constraints a finite solution exists |
| `Andersen.FieldCycleUnsolvable` | src/pointer_analysis/andersen.rs:548-550 | a field constraint that feeds itself has no finite solution |
| `Andersen.FieldInjective` | src/pointer_analysis/andersen.rs:54-56 | two field locations are equal only if both location and field number are |
| `Andersen.FieldOnly` | src/pointer_analysis/andersen.rs:548-550 | in the least solution a pointer that one field constraint feeds points to exactly that field of the locations of its source |
| `Andersen.DistinctFields` | src/pointer_analysis/andersen.rs:548-550 | so pointers fed by different fields share no location |
| `Andersen.SolveTwoFields` | src/pointer_analysis/andersen.rs:444-645 | the solver's result on two fields of one struct: each pointer gets its own field and nothing else |
| `Summaries.CoversTruthful` | src/analysis/interproc/query.rs:169-218 | a cover answer is a pair of entailments in the direction of its kind, a refusal their failure, and a decisive oracle gives one of the two |
| `Summaries.CoveredAnswers` | src/analysis/interproc/query.rs:19-28 | a covering summary that is valid answers the query, each kind in its own implication direction |
| `Summaries.MergeEntries` | src/analysis/interproc/query.rs:413-498 | a merge that comes through keeps all coverage, even under Unknown answers, adds that of the new summary, and keeps an antichain when negative answers are right; it loses the entries exactly when the search misses and a replacement query fails |
| `Summaries.ContextualSummaryTable.MergeSummary` | src/analysis/interproc/query.rs:413-498 | the same on the table: other entries untouched, validity kept, no error as long as the oracle answers, and on an error the entries are gone exactly when the search missed and a replacement query failed |
| `Summaries.MergeLosesEntry` | src/analysis/interproc/query.rs:434-449 | it happens: a one-entry table and an oracle that fails on the replacement query |
| `Summaries.ContextualSummaryTable.Lookup` | src/analysis/interproc/query.rs:501-526 | a hit answers the query, and with a decisive oracle a miss means that no entry covers it |
| `Projection.KeptNames` | src/analysis/interproc/query.rs:580-612 | of the names that look like registers of the procedure only its formals are interface names, and every other name is |
| `Projection.CollectedHold` | src/analysis/interproc/query.rs:819-861 | every model of the formula satisfies the definitions collected from it |
| `Projection.CollectedExact` | src/analysis/interproc/query.rs:819-861 | exactly the locals that an equality in a positive conjunctive position defines are collected, each with its first definition |
| `Projection.ResolveChain` | src/analysis/interproc/query.rs:928-948 | stopping early changes nothing: the result is that of all eight rounds, with the same names and definitions that still hold |
| `Projection.RoundDescends` | src/analysis/interproc/query.rs:928-948 | one round doubles how far every definition reaches down its chain |
| `Projection.ChainsResolved` | src/analysis/interproc/query.rs:928-948 | so the rounds resolve chains of up to 256 definitions completely |
| `Projection.InTurnExtends` | src/analysis/interproc/query.rs:653-695 | substituting one name after the other, a model of the result extends on the locals to a model of the original, whatever the definitions |
| `Projection.NothingRemains` | src/analysis/interproc/query.rs:1017-1096 | where no select reads a store, the final check finds every local |
| `Projection.ProjectToInterface` | src/analysis/interproc/query.rs:653-695 | the projection holds in a state exactly when the state extends on the defined locals to a model, mentions interface scalars only and changes nothing where the collected definitions hold, when no select reads a store; and there is a projection when every local is defined, no Boolean is local and definitions form chains of up to 256 |
| `Projection.ChainEliminable` | src/analysis/interproc/query.rs:1368-1379 | definitions that use each other are no obstacle: a formula with a chain of two |
| `Projection.HiddenLocalSurvives` | src/analysis/interproc/query.rs:950-955 | otherwise it can be too strong: on a formula whose collected and resolved definitions are given, a local under a store comes back after its elimination and the check does not see it |
| `Projection.ProjectedMustValid` | src/analysis/interproc/query.rs:782-812 | a Must summary built from projected pre- and postconditions stays valid, for every procedure |
| `Projection.ProjectedNotMayExact` | src/analysis/interproc/query.rs:736-765 | a NotMay summary is valid exactly when the query is valid of the procedure with the eliminated locals forgotten at both ends |
| `Projection.ProjectedNotMayDefined` | src/analysis/interproc/query.rs:736-765 | when runs start and end in states that satisfy the collected definitions, the summary is valid exactly when the query is |
| `Projection.ProjectedNotMayFails` | src/analysis/interproc/query.rs:736-765 | in general it is not: a valid query whose post mentions a local with an equality that is not its definition |
| `Projection.CreateSummary` | src/analysis/interproc/query.rs:736-812 | the three statements for the summary that the two create functions build, which exists whenever both formulas can be projected |
| `ReturnSummaries.ComputeReturnSummary` | src/cfg/adapter.rs:799-848 | the relation holds exactly where the exit seed is reached from the state whose observer carries the return value; there is none without an exit or an order, and there is one when some state can return one value and not another |
| `ReturnSummaries.RelationExact` | src/cfg/adapter.rs:799-848 | when the return value is never read and assigned on every path, the relation is exactly the input/return relation |
| `AlphaRenaming.Renamed` | src/formula/alpha_rename.rs:39-154 | a renamed formula evaluates as the original in the composed state |
| `AlphaRenaming.RenameInjective` | src/formula/alpha_rename.rs:39-154 | an injective renaming identifies no two formulas |
| `AlphaRenaming.WpRenamed` | src/formula/alpha_rename.rs:160-216 | injective renaming commutes with wp and wp_inductive, formula for formula, when it leaves the havoced regions alone |
| `AlphaRenaming.HavocRegionRenamed` | src/cfg/abstract_cfg.rs:958-970 | forgetting the renamed region commutes with every injective renaming |
| `AlphaRenaming.HavocCommutesExactly` | src/formula/alpha_rename.rs:199 | copying the region of a havoc verbatim commutes for all postconditions exactly when the renaming leaves the region alone |
| `AlphaRenaming.HavocNotRenamed` | src/formula/alpha_rename.rs:199 | otherwise it gives a wrong precondition: a swap of two regions |
| `RenamedRuns.RunRenamed` | src/formula/alpha_rename.rs:160-216 | every run of the renamed effects, seen through an injective renaming, is a run of the effects, type bounds and calls included |
| `RenamedRuns.RunLifted` | src/formula/alpha_rename.rs:160-216 | and every run of the effects comes from one of the renamed effects |
| `CallSites.RegionsSubstituted` | src/cfg/adapter.rs:2813-2948 | the substituted relation reads, for a bound region, the actual region shifted by its base, and for a field region the actual field, when bound regions occur only under plain selects |
| `CallSites.CalleeNameBecomes` | src/cfg/adapter.rs:2693-2710 | a mapped name gets its mapping, another name of the callee moves under the prefix of the call, and any other name stays |
| `CallSites.ViewSeen` | src/cfg/adapter.rs:2813-2948 | a bound region is read as a window into the actual region from its base, a field region as the same field of the actual region, and any other region as itself |
| `CallSites.CallInstantiated` | src/cfg/adapter.rs:2693-2948 | the instantiated relation holds in the caller exactly when the relation holds in every callee state that reads its names and windows as those clauses say |
| `CallSites.CalleeStateExists` | src/cfg/adapter.rs:2693-2948 | every caller state has such a callee state |
| `CallSites.ShiftLostUnderStore` | src/cfg/adapter.rs:2923-2948 | under a store a bound region is replaced without its shift |

## Left out

- The Real sort, rational scaling and 64-bit overflow: integers are unbounded, and division and remainder are arbitrary functions carried by the state.
- Front end, lowering, type layout and memory intrinsics: foreign types and calls.
- The SMT solver itself and witness models: represented by the contract of `Oracles`; returned models, logging and diagnostics are not modelled.
- Calls, unresolved loads and stores and pointer bookkeeping inside `wp`: the source treats them as no-ops; `Call` has a step semantics here, and exactness excludes calls that havoc memory.
- Summary-table rules of the engine (`notmay_pre_usesummary`, `forward_may_usesummary`): the engine runs with empty tables.
- Loops with several latches, nested and sibling loops: `Checker.Analyze` answers such graphs as unsupported; back edges are detected once and passed on.
- The invariant search: a list of candidates of which the first accepted one is taken; timeouts and tiers are heuristics.
- Removing edges, construction and validation of graphs, single-exit normalisation: node and edge ids are indices.
- Constraint collection from instructions for the points-to solver, and its queries.
- Constant actual arguments at call sites, pending effects and pointer-write summaries: renaming runs first, so the later substitution by formal name does not match.
- Scheduling of queries, placeholders, loop-invariant tables and the structural merge of tables: easy members.
- `Passes.BackwardStates`: takes one seed, as every caller passes, and no inner invariants, which only nested loops have; the return-summary pass stores its seed as it is, while the pass here joins it with False, which has the same meaning.
- `Reach.ForwardReachAtHeader`: no inner invariants are seeded; that no mentioned name is overwritten is sufficient, not necessary, because a mention may not matter to the value.
- `Acceptance.CheckLoopInvariant`: no inner invariants, which only nested loops have; that each result is exact is stated for exact effects, because a havoc drops conjuncts.
- `Strongest.FirstEntryExact`: stores at offsets that are no constant, and joins at which facts differ, leave the pass weaker than the first entries, as the source intends.
- `Andersen.LayeredSolvable`: sufficient only, because it takes all of memory as one node; the exact condition is `Andersen.SolvableExactly`.
- `Projection.ProjectToInterface`: the sorted key order of the source's map is replaced by an arbitrary order, so the theorem covers it; `HiddenLocalSurvives` uses the sorted one.
- `Checker.Analyze`: on cyclic graphs the conclusion is about executions whose type bounds hold and whose division truncates, because the reach pass assumes the bounds and folds constants that way.
- `Dart.DartExplore`: exactness needs definitions that are freshly named on the path; that SSA form gives this is `SsaPaths.PathFreshlyNamed`.
