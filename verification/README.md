# Aqueduct: a verified model of its graph compiler, heal loop and patch engine

Aqueduct runs data pipelines described by Blueprints: graphs of modules joined by edges and by `depends_on`. This project
models the four parts of it whose correctness is not visible in any one function body, and proves what they promise.

* **The graph compiler.** `ModuleGraph` is Kahn's algorithm as the parser uses it. `Expander` and `Expansion` splice the
  sub-graphs of Arcades into their parents, level by level. `Wirer` compiles passive Regulators away. `GraphPipeline` puts
  the passes in the order in which `compile` calls them. `Digraph` and `Splice` hold the graph theory (paths, ranks,
  collapsing a spliced sub-graph back to its node), `Naming` the theory of the `__` join. `Wiring` says on Blueprint and
  sub-Blueprints when the compiled graph is closed, `Closure` carries that through all expansions, and `Conduction` says which
  main paths get through which Arcades. `Instances` carries the failing inputs through compilation.
* **The heal loop.** `Budget` is the multi-axis budget as a class with mutable state, `HealLoop` the reprompt loop around it,
  `Cascade` the tiers around that and `SelfHealing` the outer loop of `aqueduct run`. Provider, callbacks, clock, executor and
  gates are arbitrary oracles, so every theorem in `HealGuarantees` is about all runs. `HealLoop.Run.Yields` relates an oracle
  to the one result its run can have, and `HealOutcomes` says what that result reveals of provider, callbacks and clock.
* **The patch engine.** `PatchModel` says what each operation means on a document value, `PatchEffects` when each succeeds,
  what can then be read back and what stays, `PatchLaws` how operations relate,
  `Guardrails` what the allow-list check guarantees. `PatchDocument` and `PatchApply` are the engine on the heap: operations
  assign into a mutable document, and edge specs and context values go in uncopied, as in the source. `SharedDicts` is the
  nested dictionary that makes this possible, and `PatchSharing` says on values which operations then write into the patch
  itself. `PatchPipeline` puts check, operations and parser in the order of `apply_patch_file`.
* **Two stateful refinements.** `Resolver` updates a context map while iterating over it and is proved against recursive
  substitution. `Snapshots` prunes a table after each recording and is proved against the full history.

Modules are named after what they model; a method stands where the source has a loop or assigns to state, and is proved
against a function or relation whose properties are then proved as lemmas.

## What the proofs found

* `detect_cycles` says it returns the modules "involved in a cycle". It returns those on a cycle and all modules downstream
  of one (`ModuleGraph.DrainedExactly`; `ModuleGraph.BystanderIsListed` is an input).
* Two `__` joins of different pairs coincide exactly when one underscore moves across the join: `Naming.JoinCollision`. Module
  `b` in Arcade `a_` and module `_b` in Arcade `a` are refused for it (`Instances.UnderscoreCollides`). Still, every join raises
  by one the nesting level that can be read off an id, so a child never clashes with an older module and the collision check
  only ever separates cousins (`Expansion.ImagesAreFresh`).
* A `depends_on` that names an Arcade survives expansion as a dangling name, and every completed expansion keeps it
  (`Expansion.DanglingStays`, exact condition `Expansion.DependenciesSurvive`). A `depends_on` on a Regulator that is compiled
  away dangles as well. In the compiled graph such a name is gone exactly when the module that declares it is a Regulator that
  is compiled away itself (`Wiring.RemovedWithItsDependency`).
* Two passive Regulators joined by a main edge can lose the path through them (`Wirer.ChainLosesPath`) and leave bypass edges
  to removed modules. `Wirer.BypassReachExactly` and `Wirer.BypassClosed` say exactly which paths and when. Acyclicity survives
  in every case.
* Together: the compiled graph is closed exactly when `Wiring.Wired` holds of the Blueprint and the sub-Blueprints its Arcades
  load (`GraphPipeline.ClosedExactly`). Three inputs compile to open graphs: `Instances.ArcadeDependencyDangles`,
  `Instances.RegulatorDependencyDangles` and `Instances.ChainDangles`.
* An Arcade passes a main path on only if main edges lead from one of its entries to one of its exits. Expansion on all ports
  together hides this; `Instances.SignalCuts` is an input whose main path is cut while the modules stay connected, and
  `Conduction.MainPathsThrough` says exactly which paths are kept.
* `progress_stalled` can be reported exactly for budgets with W < S, W <= C + 1 and W < `max_reprompts` (window W, overall
  limit S, consecutive limit C). The default budget is not one of them: `HealGuarantees.StallNeeds`, `StallHappens`,
  `DefaultNeverStalls`. A turn can run escalated exactly for budgets with C < S, C < W and C < `max_reprompts`
  (`EscalationJustified`, `EscalationHappens`).
* The cascade documents an escalation on `deferred`. A deferred result always carries its patch, so the cascade returns it
  instead (`Cascade.EscalationReasons`).
* Documentation describes `auto` with `max_patches` above one as a multi-patch loop. In the code only `aggressive` goes round
  again (`SelfHealing.SelfHeal`). A patch that violates a guardrail ends the loop without being reported for review.
* `keep_last_n <= 0` deletes even the row just written (`Snapshots.NoRetention`).
* The error after the resolver's twenty passes cannot be reached: it settles in two (`Resolver.BuildContextMap`). Success for
  every iteration order is the same as every Tier 0 entry expanding within depth 20.
* `add_probe` accepts an id that is taken; it is the one operation that can make module ids ambiguous
  (`PatchLaws.IdsStayUnique`; `PatchLaws.ProbeTakesId` is an input).
* Rewiring an edge that the same patch inserted changes the patch object, and so does a context write below a dictionary that
  the patch stored. Applying the patch again can then fail (`PatchApply.RewiringOwnEdgeSpoilsPatch`,
  `PatchApply.WritingOwnDictSpoilsPatch`). `PatchSharing.LeavesPatchAlone`, which is read off the Blueprint and the patch before
  the call, is exactly the condition under which the patch stays as it was. For the same outcome the second time it is
  sufficient, not necessary: some patches change themselves to no effect (`PatchSharing.RepeatedWriteIsHarmless`), and rewiring
  an equal edge of the Blueprint instead is harmless anyway (`PatchSharing.RewiringOriginalIsHarmless`).
* The guardrails judge a path that names a context key by the context before the patch, and do not look at
  `replace_context_value`. An accepted patch can therefore end with a path outside the allow-list, whether the patch wrote the
  path (`Guardrails.RewrittenContextEvades`) or it was there before (`Guardrails.OldPathEvades`). Exactly when it does can be
  read off Blueprint and patch: `Guardrails.ConfinedInPatchedContext`.

## Model

| member | source | states |
|---|---|---|
| ModuleGraph.BuildAdjacency | aqueduct/parser/graph.py:18-44 | succeeds iff every edge and dependency names modules, counts parallel pairs, and otherwise reports the first offending pair, edges before dependencies |
| ModuleGraph.Drain | aqueduct/parser/graph.py:51-60 | the worklist emits each module at most once, after all its predecessors, and what is left each waits for something left |
| ModuleGraph.DrainedExactly | aqueduct/parser/graph.py:62-64 | a module leaves the queue iff it is neither on a cycle nor downstream of one |
| ModuleGraph.DetectCycles | aqueduct/parser/graph.py:47-64 | exact list of modules on or below a cycle, each once; empty iff the graph over edges and `depends_on` is acyclic; each listed module has a listed predecessor |
| ModuleGraph.BystanderIsListed | aqueduct/parser/graph.py:47-64 | an input on which a module that is on no cycle is listed |
| ModuleGraph.TopologicalOrder | aqueduct/parser/graph.py:67-90 | succeeds iff the graph is closed and acyclic, and then every edge and dependency points forwards; the two errors are told apart exactly |
| ModuleGraph.ScheduleLength | aqueduct/parser/graph.py:67-90 | with unique ids the order is a permutation of the modules: the second worklist never stops early |
| Naming.JoinCollision | aqueduct/compiler/expander.py:87-88 | when two `__` joins are equal: same pair, or one underscore shifted across the join, and nothing else |
| Instances.UnderscoreCollides | aqueduct/compiler/expander.py:288-297 | an input: `b` in `a_` and `_b` in `a`, both well parsed, are refused as a collision |
| Naming.JoinAddsOne | aqueduct/compiler/expander.py:87-88 | joining raises by exactly one the nesting level that can be read off an id, whatever underscores surround it |
| Naming.ScanName | aqueduct/parser/schema.py:158-168 | an id the schema accepts is at nesting level zero |
| Splice.SpliceReach | aqueduct/compiler/expander.py:127-141 | replacing a node by a graph that some entry crosses to some exit keeps reachability between all other nodes, both ways |
| Splice.BlockedSplice | aqueduct/compiler/expander.py:127-141 | replacing it by one that no entry crosses cuts exactly the paths through the node |
| Splice.SpliceKeepsRank | aqueduct/compiler/expander.py:127-141 | ranks of the outer and the inner graph combine lexicographically into a rank of the spliced graph |
| Expander.SiteIsValid | aqueduct/compiler/expander.py:32-47 | in a parsed sub-Blueprint the entries are exactly the modules without a predecessor, and every exit is reached from one of them |
| Expander.EndsMean | aqueduct/compiler/expander.py:32-47 | entries are the modules no edge leads into; exits are those that are neither Egress nor Probe and that no edge leaves |
| Expander.EndsOnce | aqueduct/compiler/expander.py:32-47 | each is listed once |
| Expander.ChildMeans | aqueduct/compiler/expander.py:87-103 | a child has the joined name, keeps type, reference and context, follows its dependencies, and keeps `attach_to` and `spillway` only where they name a module of the sub-Blueprint |
| Expander.InnerEdgeMeans | aqueduct/compiler/expander.py:105-114 | inner edges keep order, port and error types |
| Expander.RewiringMeans | aqueduct/compiler/expander.py:129-141 | an edge is among the rewired ones iff it stands for a parent edge, aimed at an entry or taken from an exit as read off the sub-Blueprint |
| Expander.ExpandSingle | aqueduct/compiler/expander.py:72-167 | the new modules and edges of one Arcade; fails exactly when no module lacks an incoming edge, or none is a possible exit, entries first; the edges after the inner ones are exactly those that stand for a parent edge at such an entry or exit |
| Expander.ExpansionIsSplice | aqueduct/compiler/expander.py:127-141 | the rewired edge list is exactly a splice of the sub-graph into the Arcade's node |
| Expander.RewiringKeepsPorts | aqueduct/compiler/expander.py:129-141 | the rewired edges are exactly the copies of edges into the Arcade aimed at an entry and of edges out of it taken from an exit, ports and error types kept |
| Expansion.LoadAndExpand | aqueduct/compiler/expander.py:215-286 | one Arcade is expanded, or fails with the first of: no ref, not found, not parsable, missing context keys, no entries, no exits |
| Expansion.FailureMeans | aqueduct/compiler/expander.py:215-262 | an Arcade expands iff it has a reference that loads, all required keys are passed down, and data can get in and out; otherwise the error names the first of these that fails, and the missing keys exactly |
| Expansion.ImagesAreFresh | aqueduct/compiler/expander.py:87-102 | names of new children are used nowhere yet: they are one level deeper than every older id |
| Expansion.ExpandLevel | aqueduct/compiler/expander.py:207-286 | all Arcades of a level in order, or the failure of the first that fails |
| Expansion.FirstFailureIsFirst | aqueduct/compiler/expander.py:207-286 | the failure of a level is that of its first Arcade that cannot be expanded |
| Expansion.LevelInOrder | aqueduct/compiler/expander.py:207-286 | in the next level every module stands where it, or its Arcade, stood |
| Expansion.LevelInvariant | aqueduct/compiler/expander.py:207-286 | while a level is expanded the graph stays closed and acyclic, tracks dependencies and keeps reachability between the modules not yet expanded away |
| Expansion.CheckCollisions | aqueduct/compiler/expander.py:288-297 | the first id that repeats an earlier one, none iff ids are distinct |
| Expansion.ClashMeans | aqueduct/compiler/expander.py:288-297 | the reported id is the first that an earlier one equals |
| Expansion.OneMoreLevel | aqueduct/compiler/expander.py:299-302 | what the rest of the recursion promises for the next level it promises for this one |
| Expansion.ExpandRecursive | aqueduct/compiler/expander.py:192-302 | terminates for every store; result and error are those of the level-by-level specification; no Arcade is left, ids stay distinct, the graph stays a closed DAG, reachability between plain modules is kept |
| Expansion.ExpandArcades | aqueduct/compiler/expander.py:170-189 | the same for a parsed Blueprint, with the exact condition for dangling dependencies |
| Expansion.DanglingStays | aqueduct/compiler/expander.py:94-103 | a dependency on an Arcade dangles in every completed expansion |
| Expansion.EndlessNestingFails | aqueduct/compiler/expander.py:198-200 | no expansion of an Arcade succeeds that refers into a set of references whose Blueprints refer into that set again, whatever else can be loaded |
| Expansion.SelfReferenceFails | aqueduct/compiler/expander.py:198-200 | a Blueprint that loads itself is refused, in any store |
| Instances.LadderDepth | aqueduct/compiler/expander.py:198-200 | ten Arcades in one another expand, eleven are refused for their depth, from any level on |
| Expansion.OutcomeHolds | aqueduct/compiler/expander.py:192-302 | every successful run of the recursion keeps the promise of a level: no Arcade left, ids distinct, a closed DAG, reachability and the fate of dependencies |
| Wirer.CompileAwayRegulators | aqueduct/compiler/wirer.py:56-111 | exactly the passive Regulators go; untouched edges stay in order, and the rest are exactly the bypasses |
| Wirer.PassiveRegulatorMeans | aqueduct/compiler/wirer.py:56-80 | a Regulator is passive iff no edge leads into it on the port `signal` |
| Wirer.BypassMeans | aqueduct/compiler/wirer.py:84-109 | a bypass joins the start of a `main` edge into a passive Regulator to the end of one out of it |
| Wirer.BypassReachExactly | aqueduct/compiler/wirer.py:84-109 | survivors stay connected over main ports iff some main path between them never meets two passive Regulators in a row |
| Wirer.BypassKeepsMainReach | aqueduct/compiler/wirer.py:84-109 | main-port reachability between survivors is unchanged when no bypass crosses two passive Regulators |
| Wirer.ChainLosesPath | aqueduct/compiler/wirer.py:95-101 | an input on which such an edge loses a path |
| Wirer.BypassStaysAcyclic | aqueduct/compiler/wirer.py:104-111 | compile-away never introduces a cycle, over edges and dependencies |
| Wirer.BypassClosed | aqueduct/compiler/wirer.py:95-111 | every remaining edge joins surviving modules iff no bypass crosses two passive Regulators |
| Wiring.EndsAfter | aqueduct/compiler/expander.py:127-141 | which ports lead into and out of each module after one expansion: unchanged outside the Arcade, inherited from it at entries and exits |
| Wiring.StepKeepsWiring | aqueduct/compiler/expander.py:215-286 | one expansion neither repairs nor breaks the wiring condition, whatever is still nested |
| Closure.ExpansionKeepsWiring | aqueduct/compiler/expander.py:192-302 | the same for the whole recursion |
| Closure.FlatIsClosed | aqueduct/compiler/wirer.py:56-111 | without Arcades the condition holds iff no bypass dangles and no surviving dependency names a removed module |
| Wiring.DependencyOnArcade | aqueduct/compiler/expander.py:94-103 | an input: a surviving module that depends on an Arcade is not wired well, whatever the Arcade loads |
| Wiring.DependencyOnPassiveRegulator | aqueduct/compiler/wirer.py:104-111 | an input: nor is one that depends on a Regulator without a signal |
| Wiring.RemovedWithItsDependency | aqueduct/compiler/wirer.py:104-111 | an input: a dependency on an Arcade does no harm in a Regulator that is compiled away |
| Wiring.ChainIsNotWired | aqueduct/compiler/wirer.py:95-101 | an input: two passive Regulators in a row on a main path are not wired well |
| Instances.ArcadeDependencyDangles | aqueduct/compiler/compiler.py:166-216 | the first of these inputs, parsed and compiled: the graph is not closed |
| Instances.RegulatorDependencyDangles | aqueduct/compiler/compiler.py:166-216 | so is the second, without any Arcade |
| Instances.RemovedDependencyCloses | aqueduct/compiler/compiler.py:166-216 | the third compiles to a closed graph |
| Instances.ChainDangles | aqueduct/compiler/compiler.py:166-216 | the chain compiles to a graph with an edge to a removed module |
| Conduction.StepKeepsConduction | aqueduct/compiler/expander.py:127-141 | one expansion neither opens nor cuts a main path between the other modules, blocked Arcades left aside |
| Conduction.MainPathsThrough | aqueduct/compiler/expander.py:192-302 | after expansion a main path joins two modules of the Blueprint iff one did through Arcades that conduct |
| Conduction.SignalCutsMainPath | aqueduct/compiler/expander.py:127-141 | an input: an Arcade whose entry and exit only a signal joins blocks the one main path of the Blueprint |
| Instances.SignalCuts | aqueduct/compiler/compiler.py:166-216 | that input parsed and compiled: the main path is gone from the expanded graph although its ends are still connected |
| GraphPipeline.AcceptGraph | aqueduct/parser/parser.py:277-281 | the cycle check lets a graph pass iff it is closed and acyclic |
| GraphPipeline.ClosedExactly | aqueduct/compiler/compiler.py:215-216 | the compiled graph is closed iff Blueprint and sub-Blueprints are wired well: no surviving module depends on an Arcade or on a Regulator without a signal, and no main edge joins two such Regulators with main edges before or behind them |
| GraphPipeline.MainPathsCompose | aqueduct/compiler/compiler.py:166-216 | a main path joins two modules of the Blueprint in the compiled graph iff one joins them in the Blueprint through Arcades that conduct, if they are wired well |
| GraphPipeline.CompileGraph | aqueduct/compiler/compiler.py:166-180 | expansion, then compile-away (line 216): flat, distinct ids, acyclic always; closed iff the inputs are wired well, and then main paths from the Blueprint to the compiled graph are exactly those through conducting Arcades; all ports kept up to the graph between the passes |
| Budget.BudgetTracker.Record | aqueduct/agent/budget.py:205-229 | one row is appended and the totals stay the sums over the rows |
| Budget.BudgetTracker.CheckStop | aqueduct/agent/budget.py:231-266 | sticky; otherwise solved, or the first axis that trips in the documented order |
| Budget.BudgetTracker.ShouldEscalate | aqueduct/agent/budget.py:268-272 | true iff the run is stuck and has not escalated |
| Budget.BudgetTracker.SameErrorConsecutiveTripped | aqueduct/agent/budget.py:312-318 | trips iff the newest signature has a streak of that length |
| Budget.BudgetTracker.SameSignatureOverallTripped | aqueduct/agent/budget.py:320-330 | the counting loop trips iff some signature has occurred that often |
| Budget.BudgetTracker.ProgressStalledTripped | aqueduct/agent/budget.py:332-343 | the one-distinct-hash test trips iff the streak fills the window |
| Budget.TailsAgree | aqueduct/agent/budget.py:312-318 | a streak of n means the last n signatures agree |
| Budget.RepeatedMeans | aqueduct/agent/budget.py:320-330 | repeated n times means some signature has n occurrences |
| HealLoop.Reject | aqueduct/agent/loop.py:357-394 | the shared rejection branch: the new row, the tripped axis, and when the next turn escalates |
| HealLoop.TakeTurn | aqueduct/agent/loop.py:246-627 | one turn: its row, its gate, its patch and reason for each of the exits, and that only a rejection without a tripped axis goes on |
| HealLoop.GenerateAgentPatch | aqueduct/agent/loop.py:235-658 | terminates with a result that the run relation yields; the conversation is one prompt plus two alternating messages per rejected turn |
| HealGuarantees.PatchMatchesReason | aqueduct/agent/loop.py:413-479 | 1 to `max_reprompts` turns, a reason always, a patch iff solved or deferred, no deferral in a solved patch, only deferrals in a deferred one |
| HealOutcomes.LastTurnMeans | aqueduct/agent/loop.py:246-658 | what the last turn was, by stop reason and on provider, callbacks and clock alone: for `solved` a reply that parsed to the patch returned and that every callback asked accepted, and likewise for deferral, provider failure, the clock and each limit |
| HealOutcomes.EarlierTurns | aqueduct/agent/loop.py:246-627 | every earlier turn was in time, was a reply that one of the four gates turned down, was recorded with that gate, hash and tokens, and left every limit unreached |
| HealOutcomes.AxisMeans | aqueduct/agent/budget.py:231-266 | the reason is the first limit reached, in order: turns, seconds, tokens, a signature recorded too often, a window of equal ones, a streak after an escalation |
| HealOutcomes.RepromptErrorsMean | aqueduct/agent/loop.py:357-394 | the reprompt errors are the gates that turned the replies down, in order |
| HealGuarantees.CallsMatchAttempts | aqueduct/agent/loop.py:254-282 | every turn calls the provider once, except a last one that is out of time |
| HealGuarantees.OutcomeIsUnique | aqueduct/agent/loop.py:246-658 | an oracle determines the result |
| HealGuarantees.LedgerRows | aqueduct/agent/budget.py:205-229 | rows are numbered 1 to n, one per turn, and only the last can lack a signature |
| HealGuarantees.LedgerConserved | aqueduct/agent/loop.py:235-244 | there is exactly one reprompt error per recorded signature (that totals are sums over the rows is part of every result, from `Record`) |
| HealGuarantees.RunSignatures | aqueduct/agent/budget.py:296-297 | the recorded signatures are those of the turns, minus a final success |
| HealGuarantees.SignatureBound | aqueduct/agent/budget.py:245-250 | no signature is recorded more than `same_signature_overall` times |
| HealGuarantees.FailuresBound | aqueduct/agent/budget.py:320-330 | d distinct signatures allow at most d*(S-1)+1 failures |
| HealGuarantees.LongStreakStops | aqueduct/agent/budget.py:257-265 | no streak grows beyond the consecutive limit plus one |
| HealGuarantees.StallNeeds | aqueduct/agent/budget.py:251-253 | `progress_stalled` needs W < S, W <= C + 1 and W < `max_reprompts` |
| HealGuarantees.StallHappens | aqueduct/agent/budget.py:332-343 | and every such budget reports it against a provider that repeats itself |
| HealGuarantees.ParrotStalls | aqueduct/agent/loop.py:246-394 | the loop itself, run against such a provider, stops for that reason after W turns without a patch |
| HealGuarantees.DefaultNeverStalls | aqueduct/agent/budget.py:96-101 | the default budget never reports it |
| HealGuarantees.EscalatedOnce | aqueduct/agent/budget.py:268-275 | at most one turn runs escalated |
| HealGuarantees.EscalatedIff | aqueduct/agent/budget.py:274-275 | the result is marked escalated iff some turn ran escalated |
| HealGuarantees.EscalationJustified | aqueduct/agent/loop.py:378-380 | an escalated turn directly follows `same_error_consecutive` equal signatures, and C < S, C < W and C < `max_reprompts` |
| HealGuarantees.EscalationHappens | aqueduct/agent/budget.py:268-275 | under every such budget turn C + 1 does run escalated against a provider that repeats itself |
| HealGuarantees.ParrotEscalates | aqueduct/agent/loop.py:246-394 | the loop itself, run against such a provider, has that turn marked escalated |
| Cascade.GenerateCascadePatch | aqueduct/agent/cascade.py:56-103 | a tier runs only if all before it escalated; the result is that of the last tier run; a refused budget is the only error |
| Cascade.TierMeans | aqueduct/agent/cascade.py:62-84 | what a tier overrides and what it inherits, and when its budget is refused |
| Cascade.EscalationReasons | aqueduct/agent/cascade.py:86-96 | tiers escalate on `stuck_signature` and `exhausted_attempts` only, never on `deferred` |
| Cascade.CascadeCallsBounded | aqueduct/agent/cascade.py:59-84 | provider calls are at most the sum of the ceilings of the tiers that ran |
| SelfHealing.SelfHeal | aqueduct/cli.py:1613-2294 | terminates; at most `max_patches` agent calls; at most one write, in the last iteration and exactly when justified; when it retries, stages for review and succeeds |
| SelfHealing.AskMeans | aqueduct/cli.py:1613-2294 | the agent is asked iff a failure may be healed within the limits on patches |
| SelfHealing.WriteMeans | aqueduct/cli.py:1613-2294 | the Blueprint is overwritten iff mode, trust, guardrail, gates and proof of the patch all hold |
| SelfHealing.RetryMeans | aqueduct/cli.py:1613-2294 | another round is made iff a trusted patch in aggressive mode is held up by a gate or fails again without aborting |
| SelfHealing.ReviewMeans | aqueduct/cli.py:1613-2294 | a patch is left to a human iff no guardrail stops it and mode or trust forbid acting on it |
| PatchModel.ApplyConcat | aqueduct/patch/apply.py:139-148 | applying two patches in a row is applying their concatenation, errors included |
| PatchModel.FailureSticks | aqueduct/patch/apply.py:139-148 | the first failing operation decides the whole patch |
| PatchModel.DeferralChangesNothing | aqueduct/patch/operations.py:329-336 | a patch of deferrals leaves the Blueprint equal |
| PatchEffects.ModuleFieldIsReplaced | aqueduct/patch/operations.py:174-294 | the first module of that id gets label, configuration or failure policy under its own key; every other key, module and part of the Blueprint stays; without such a module the operation fails |
| PatchEffects.ConfigKeyIsSet | aqueduct/patch/operations.py:277-287 | a dotted write into that module's configuration succeeds iff its parent path leads to a dictionary, is read back, and changes no path that parts from it |
| PatchEffects.InsertEffect | aqueduct/patch/operations.py:188-204 | the first thing wrong with an insertion, or its effect: the module last, the named edges gone, the new ones last, all else in order |
| PatchEffects.AddArcadeEffect | aqueduct/patch/operations.py:303-326 | the same for an Arcade, which needs its type and a reference |
| PatchEffects.AddProbeEffect | aqueduct/patch/operations.py:235-255 | the same for a Probe, whose target must exist and whose own id is not looked up |
| PatchEffects.RemoveEffect | aqueduct/patch/operations.py:207-218 | every module of the id goes with every edge that touches it, all else stays in order |
| PatchEffects.ReplaceEdgeEffect | aqueduct/patch/operations.py:258-274 | the first edge between the two gets the new ends and port where it stands and keeps its other keys |
| PatchEffects.ContextValueEffect | aqueduct/patch/operations.py:221-232 | a dotted write into a context that is there, read back, with nothing else changed; the errors exactly |
| PatchEffects.RetryPolicyEffect | aqueduct/patch/operations.py:297-300 | the policy is read back and nothing else changes |
| PatchLaws.IdsStayUnique | aqueduct/patch/operations.py:188-255 | an operation keeps module ids unique iff it is not a probe added under a taken id |
| PatchLaws.ProbeTakesId | aqueduct/patch/operations.py:235-255 | an input on which such a probe makes two modules share an id |
| PatchLaws.RemoveUndoesInsert | aqueduct/patch/operations.py:188-218 | a removal that adds no edges restores modules and edges after an insertion that removed none, iff the inserted edges and no others touch the module |
| PatchLaws.RewiringBackUndoes | aqueduct/patch/operations.py:258-274 | for any choice of new ends and port: rewiring an edge back restores the Blueprint iff something was rewired, no earlier edge already joined the new ends, and a replaced port had the value put back |
| PatchLaws.SparkSettingIsStored | aqueduct/patch/operations.py:339-350 | a Spark setting succeeds iff the block is absent or a dictionary, is read back under its whole name, dots included, and changes no other path, module, edge or context value |
| PatchLaws.SparkSettingsCommute | aqueduct/patch/operations.py:339-350 | two settings give the same Blueprint in either order iff their names differ, their values agree, or no setting can be made |
| PatchLaws.WriteSucceeds | aqueduct/patch/operations.py:124-138 | a dotted write succeeds iff everything above its last key is a dictionary |
| PatchLaws.WriteThenRead | aqueduct/patch/operations.py:124-138 | reading a dotted key after writing it gives the value written |
| PatchLaws.WriteElsewhere | aqueduct/patch/operations.py:124-138 | a path that parts from the written one reads as before |
| PatchLaws.RemovesExactly | aqueduct/patch/operations.py:141-158 | removal succeeds iff every spec names an edge and no two the same one; exactly the edges named by no spec stay |
| Guardrails.CheckGuardrails | aqueduct/patch/apply.py:207-275 | accepts iff no operation is forbidden by its name in the grammar and, with an allow-list, every path written is permitted; otherwise names the first operation that is not acceptable and whether its name is why |
| Guardrails.CheckMeans | aqueduct/patch/apply.py:207-275 | the same for one operation, constructor by constructor, ids with a double underscore left aside |
| Guardrails.PermittedMeans | aqueduct/patch/apply.py:154-187 | a value is permitted iff it is empty or a pattern matches its text, or the resolved value of the one context key it names |
| Guardrails.CtxKeyMeans | aqueduct/patch/apply.py:151-161 | which strings are a reference to a single context key |
| Guardrails.AcceptedOpKeepsVouched | aqueduct/patch/apply.py:170-204 | one accepted operation keeps every guarded path permitted or original |
| Guardrails.AcceptedPatchIsConfined | aqueduct/patch/apply.py:207-275 | after any accepted patch every string under `path` or `output_path` of a `__`-free module is permitted, by the context as it was, or was there before under that id, remove and re-insert included |
| Guardrails.StringAfterPatch | aqueduct/patch/operations.py:221-232 | the string under a context key after a patch is what its writes at or above that key leave there, in order |
| Guardrails.VerdictAfter | aqueduct/patch/apply.py:154-167 | a value is permitted in the patched context iff the patterns admit what it resolves to there; that changes only if the string under the key it names does |
| Guardrails.AcceptedStaysInside | aqueduct/patch/apply.py:207-275 | from a Blueprint inside the allow-list an accepted patch leads to one inside it, judged by the context before the patch |
| Guardrails.ConfinedInPatchedContext | aqueduct/patch/apply.py:207-275 | judged by the patched context, all paths of `__`-free modules, new and old, are permitted iff what each resolves to there is admitted; from a Blueprint inside the allow-list, iff this holds of the paths whose key the patch gives another string |
| Guardrails.RewrittenContextEvades | aqueduct/patch/apply.py:154-167 | inputs: a patch that makes a path name a context key and writes that key is accepted whatever it writes, and ends inside the allow-list iff what it writes is |
| Guardrails.OldPathEvades | aqueduct/patch/apply.py:154-167 | inputs: the same for one context write under a path that was there before |
| Guardrails.RefusedPathIsWritten | aqueduct/patch/apply.py:190-204 | an operation refused for a path would have written a path that is not permitted |
| Guardrails.DottedKeyKeepsPaths | aqueduct/patch/operations.py:124-138 | a dotted key changes the string under a path key only if it is that key |
| Guardrails.GuardrailsSurvive | aqueduct/patch/apply.py:231-233 | no patch changes the block that holds the guardrails |
| SharedDicts.SetNestedAt | aqueduct/patch/operations.py:124-138 | the in-place dotted write means the write on values, fails without effect, touches only the cells on its way and leaves every other path where it led |
| SharedDicts.Copy | aqueduct/patch/apply.py:105-115 | a copy equal in meaning and disjoint in memory |
| SharedDicts.ChainIsWalked | aqueduct/patch/operations.py:131-137 | every cell on the way is reached by a proper prefix of the key |
| PatchDocument.BlueprintDoc.RemoveEdgesMatching | aqueduct/patch/operations.py:141-158 | every spec removes all its edges, or the first that matches none fails |
| PatchDocument.BlueprintDoc.AppendEdges | aqueduct/patch/operations.py:161-169 | the specs themselves are appended in order, unless one is incomplete |
| PatchDocument.BlueprintDoc.InsertModule | aqueduct/patch/operations.py:188-204 | refines the operation's meaning on the mutable document |
| PatchDocument.BlueprintDoc.RemoveModule | aqueduct/patch/operations.py:207-218 | refines the operation's meaning on the mutable document |
| PatchDocument.BlueprintDoc.ReplaceContextValue | aqueduct/patch/operations.py:221-232 | refines its meaning; the value is shared, and a dictionary of the patch changes iff the key lies below one the patch has written and the value is not there already |
| PatchDocument.BlueprintDoc.AddProbe | aqueduct/patch/operations.py:235-255 | refines the operation's meaning on the mutable document |
| PatchDocument.BlueprintDoc.ReplaceEdge | aqueduct/patch/operations.py:258-274 | refines its meaning; an edge of the patch changes iff the first edge with these ends is one the patch inserted and becomes another |
| PatchDocument.BlueprintDoc.SetModuleConfigKey | aqueduct/patch/operations.py:277-287 | refines the operation's meaning on the mutable document |
| PatchDocument.BlueprintDoc.AddArcadeRef | aqueduct/patch/operations.py:303-326 | refines the operation's meaning on the mutable document |
| PatchDocument.BlueprintDoc.ApplyOperation | aqueduct/patch/operations.py:355-377 | every operation refines its meaning, and changes an object of the patch iff its meaning on values says it writes into the patch |
| PatchDocument.OwnStaysFirst | aqueduct/patch/operations.py:141-169 | the edges of the Blueprint stay before those the patch inserted, and their number can be read off values |
| PatchDocument.EntersPatch | aqueduct/patch/operations.py:124-138 | a dotted write ends in a dictionary of the patch iff its key extends one the patch has written, and otherwise passes through none |
| PatchSharing.NothingAfterFailure | aqueduct/patch/apply.py:139-148 | from the failing operation on nothing is written into the patch |
| PatchSharing.RewiringOriginalIsHarmless | aqueduct/patch/operations.py:258-274 | an input: with an equal edge of the Blueprint in front, rewiring leaves the inserted edge and the patch alone |
| PatchSharing.RepeatedWriteIsHarmless | aqueduct/patch/operations.py:221-232 | inputs: a patch that writes into its own dictionary, except when it writes what is there, with the same outcome either way |
| PatchSharing.NestedWritesOutcome | aqueduct/patch/operations.py:124-138 | a patch that succeeds as loaded and fails once its first value reads as the first application leaves it |
| PatchApply.Advance | aqueduct/patch/apply.py:139-148 | one round of the loop: the objects of the whole patch, earlier and later operations included, stay as they were iff the operation does not write into them |
| PatchApply.SteadyHistory | aqueduct/patch/apply.py:139-148 | the patch is the same after every operation carried out iff none of these writes into it |
| PatchApply.ApplyPatchToDict | aqueduct/patch/apply.py:131-148 | equals the fold of the operations; the input is never changed; the patch is the same after every operation iff no operation writes into an edge or dictionary that an earlier one inserted |
| PatchApply.ApplyTwice | aqueduct/patch/apply.py:131-148 | a patch that does not write into itself on this Blueprint can be applied again with the same outcome (a sufficient condition) |
| PatchApply.RewiringOwnEdgeSpoilsPatch | aqueduct/patch/operations.py:258-274 | a patch outside that condition that applies once and then no longer |
| PatchApply.WritingOwnDictSpoilsPatch | aqueduct/patch/operations.py:221-232 | a context patch that has been carried out once and then fails at its second operation |
| PatchPipeline.SurfaceDecides | aqueduct/patch/apply.py:235-275 | the guardrail check depends on neither edge specs nor context values |
| PatchPipeline.ApplyPatchFile | aqueduct/patch/apply.py:278-341 | guardrails, operations and parser in that order decide one outcome; what is written comes from no operation forbidden by name and no path that is not permitted, has only permitted or original paths and the same guardrails |
| Resolver.ExpansionIsGround | aqueduct/parser/resolver.py:70-90 | an expansion holds no reference but reserved ones the context lacks |
| Resolver.ExpansionIsUnique | aqueduct/parser/resolver.py:70-90 | a value has at most one complete expansion, whatever depth it is computed with |
| Resolver.RefMeans | aqueduct/parser/resolver.py:70-90 | the expansion of a defined reference is that of the value under its key |
| Resolver.OtherTokenMeans | aqueduct/parser/resolver.py:70-90 | every other token stands for itself, and only the watermark may be undefined |
| Resolver.JoinedMeans | aqueduct/parser/resolver.py:70-90 | the expansion of a text is that of its parts in order |
| Resolver.LineDepth | aqueduct/parser/resolver.py:70-90 | a line of up to twenty-one references resolves, a longer one is too deep |
| Resolver.UndefinedMeans | aqueduct/parser/resolver.py:70-90 | a key reported as undefined is mentioned, is defined nowhere and is not the watermark |
| Resolver.PartialIsEnough | aqueduct/parser/resolver.py:131-143 | substituting in a half-resolved map gives the expansion in the original one |
| Resolver.PartialSucceeds | aqueduct/parser/resolver.py:131-143 | what works in the original map works in a half-resolved one |
| Resolver.ResolvePass | aqueduct/parser/resolver.py:133-141 | one pass completes every entry, or fails; a second pass changes nothing |
| Resolver.BuildContextMap | aqueduct/parser/resolver.py:131-150 | on success every entry without Tier 1 text is its full recursive expansion and every other is left alone, for every iteration order; two passes suffice and the error after the loop is unreachable |
| Resolver.NoReachableCycle | aqueduct/parser/resolver.py:70-90 | no chain of references from an expandable value repeats a key |
| Snapshots.ObservabilityStore.RecordExplainSnapshot | aqueduct/surveyor/surveyor.py:872-945 | upsert and prune leave exactly the recorded table |
| Snapshots.ObservabilityStore.LatestExplainSnapshots | aqueduct/surveyor/surveyor.py:947-989 | per module the newest row of the Blueprint, and no other key |
| Snapshots.NewestAfterRecording | aqueduct/surveyor/surveyor.py:907-943 | one recording touches one (Blueprint, module) pair: the run moves to the front and the rest is cut |
| Snapshots.RetentionIsLru | aqueduct/surveyor/surveyor.py:927-943 | after any history with increasing timestamps a pair holds exactly its `keep_last_n` most recently recorded distinct runs |
| Snapshots.NoRetention | aqueduct/surveyor/surveyor.py:937-943 | with `keep_last_n` at most zero nothing is ever retained |
| Snapshots.BaselineSurvivesPruning | aqueduct/surveyor/surveyor.py:947-989 | the newest row of a pair in the pruned table is that of the full history iff `keep_last_n` is at least one or nothing was recorded |
| Snapshots.RecordAndQuery | aqueduct/surveyor/surveyor.py:872-989 | a history run through the store and then queried: every module gets the last recording of its most recent run, or, with `keep_last_n` at most zero, nothing |
| Snapshots.RecentCovers | aqueduct/surveyor/surveyor.py:907-925 | the full history's list of a pair holds exactly the last recording of each run, newest first |

## Left out

- Guardrails.ConfinedInPatchedContext: the provenance map is taken to hold the literal strings of the context; context values that are themselves references are resolved by a part of the compiler that is not related to the guardrails here.
- PatchApply.ApplyTwice: says when the second application certainly has the outcome of the first, not exactly when; in general it has the outcome of the patch as its objects then read, which `ApplyPatchToDict` gives as long as no two of them have come to share a dictionary.
- GraphPipeline.CompileGraph: models expansion and compile-away alone; the validation of Probes, spillway edges and Assert rules between the two passes (compiler.py:182-213) rejects further graphs and changes none.
- GraphPipeline.AcceptGraph: models the cycle check alone, not the check of spillway targets after it.
- PatchLaws.RemoveUndoesInsert: insertions that remove edges and removals that add some are not covered.
- Wirer.CompileAwayRegulators: which bypass edges exist is exact; their order and multiplicity are not stated, because the source iterates over a set.
- SharedDicts.SetNestedAt: walks down by recursion where the source uses a loop; the write is in place all the same.
- Cascade.GenerateCascadePatch: tiers inherit only the settings that the loop's control flow depends on.
- Provenance maps, lineage, compile warnings, probe and spillway validation, and the rewriting of `config["inputs"]` in the expander: none of them changes which modules and edges result.
- Environment, profile, CLI and command-line layers of the context (steps 1 to 4) and `resolve_value`: merges and a structural map over the same substitution.
- Regular-expression details of `${ctx.*}` in the resolver: a value is its sequence of tokens, and substitution forms no new ones.
- `fnmatch`, `str()` of non-strings, and error signature hashing: arbitrary functions or values.
- YAML reading and writing, quoting and comments: documents are nested maps and lists; dictionaries compare without Python's `True == 1`.
- Documents whose `modules` or `edges` key holds something other than a list of dictionaries, and module ids that are not strings when an error message about them is built.
- Shape errors of the `agent.guardrails` block: the lists of forbidden operations and allowed patterns are parameters.
- Real databases and clocks: the snapshot table is in memory, its timestamps are given, and exceptions while pruning are not modelled; elapsed times are oracle values.
- Exceptions that the heal loop does not catch, and log, webhook and reprompt texts.
- The inner workings of the outer loop's gates, sandbox, guardrail call and file writes: each is an oracle outcome.
- Executor modules, LLM calls, redaction, reports and benchmarks.
