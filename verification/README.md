# abuild: a verified model of its dependency engine and of the computations around it

abuild builds a set of items in parallel, each on some platforms, in dependency order. This
project models the parts of it that decide what is built, in which order and with which
settings, and proves that they do what its documentation promises; where the code does
something else, it says exactly when. To check it with Dafny 4.11:
`dafny verify dfyconfig.toml`.

| files | what they model |
|---|---|
| Names, Option, Text | ordered containers, optional values, splitting of strings |
| Traversal, GraphCheck, Components, DependencyGraph | the dependency graph: depth-first search, errors, orders, reverse graph, independent sets |
| Evaluation, EvaluatorRuns, DependencyEvaluator | item states and how failures spread |
| Scheduler, SchedulerInvariant, SchedulerHistory, SchedulerRuns, SchedulerProgress, SchedulerTermination, SchedulerSpin, SchedulerQueues | the main thread and the worker pool as interleaved atomic steps |
| Paths, PathRewriting | canonical paths, relative paths, containment; what a path denotes under symbolic links |
| Interface, InterfaceObject, InterfaceLaws, LinkOrder | interface variables as logs of assignments, what they hold, and the interfaces of a whole build |
| BuildItem, BuildGraph, BuildGraphTargets, BuildGraphBuilder, ChoiceLaws | platform selection and the graph of items on platforms |
| BuildSet | the fixpoint that determines the build set |
| PlatformData | compatible platform types |
| Wire, JavaBuilder, FrameEffects | the incremental parser for the Java side's answers and what they lead to |
| Glob | filename patterns translated to regular expressions |
| KeyVal, KeyValReading | the key-value reader and rewriter, and what a file says |

Code that changes state step by step is modelled by classes and loops whose contracts equate
the new state with a function of the old one; the laws are proved about these functions.
The concurrent scheduler is a state machine: a step is one critical section of the pool or one
stretch of the main thread between them, and a condition wait is a guard. A schedule is any
interleaving, and a method may answer true or false at will.

## What the code does not do as documented

- Without failure propagation the evaluator leaves its loop at the first failed dependency,
  so an item can start while a later dependency is still being built
  (`Evaluation.HeaderClaimFails`). The promise holds in every run on exactly those graphs in
  which the first dependency of every item stands on its other ones
  (`EvaluatorRuns.PromiseExact`).
- After a failure in stop mode the main thread does not block while an item is still ready
  and some but not all workers are free; it goes round its loop in place
  (`SchedulerSpin.SpinsInPlace`). It still returns when no worker is starved; under every
  schedule it returns exactly when it goes on after errors, or has one worker, or no two items
  are such that the failure of one leaves the other ready (`SchedulerSpin.AlwaysReturnsExact`).
- The keys that identify reported errors are not unambiguous for names with parentheses
  (`GraphCheck.CycleReportsCanMiss`, `GraphCheck.UnknownReportsCanMiss`; exactly when in
  `GraphCheck.UnknownReportsExact` and, as far as it depends on the graph alone,
  `GraphCheck.CycleReportsExact`); the verdict of the check does not depend on this.
- The check for a second normal assignment to a scalar looks at the first entry of the
  history only, and a normal assignment may follow an override
  (`Interfaces.SecondNormalAccepted`, exactly when in `Interfaces.ConflictCheckExact`).
- As-needed platform selection tests the dependent's platform where it adds the dependency's,
  so a declared platform type can be missed (`BuildGraphs.DeclaredTypeMissed`; exactly when in
  `BuildGraphTargets.TargetsKnownExact`, and what can be told before the graph is built in
  `BuildGraphTargets.ServedFromStartSuffices` and `BuildGraphTargets.AnyStartExact`).
- What a Java connection leaves unfinished is put in front of what the next one receives
  (`JavaBuilders.LeftoverSpoilsNext`); it does no harm exactly when it is zeros
  (`Wire.LeftoverExact`).
- Nothing but `/` itself counts as being under `/` (`Paths.IsDirUnderExact`).

## Model

| member | source | states |
|---|---|---|
| SchedulerTermination.FairRunAnswers | src/DependencyRunner.cc:32-100 | under every schedule that starves no worker, run() returns, and its value is true exactly when every item is completed |
| SchedulerTermination.FairRunReturns | src/DependencyRunner.cc:43-100 | every such schedule reaches the return of run(), whatever the methods answer |
| SchedulerTermination.UnstoppedReturnsFrom | src/DependencyRunner.cc:43-96 | without stop on error run() returns under every schedule, fair or not |
| SchedulerTermination.WorkerStepsBounded | src/WorkerPool.hh:208-235 | in any run the workers take at most six steps for each item and two each besides, plus one |
| SchedulerTermination.AnswerExact | src/DependencyRunner.cc:60-99 | when run() has returned, it returned true if and only if all items are completed |
| SchedulerTermination.NothingLeft | src/DependencyRunner.cc:92-96 | unless stopped, no item is left waiting, ready or running at the return |
| SchedulerTermination.ReturnedIsQuiet | src/DependencyRunner.cc:92-97 | at the return nothing runs, and the method has been called exactly once for each completed or failed item and for no other |
| SchedulerTermination.CalledUnlessBelowFailed | src/DependencyEvaluator.hh:9-13 | with propagation and no stop, exactly the items that depend on no failed item have been called, once each |
| SchedulerTermination.KeepGoingCallsAll | src/DependencyEvaluator.hh:54-59 | with propagation off and no stop, every item's method has been called exactly once |
| SchedulerProgress.NoDeadlock | src/WorkerPool.hh:70-94 | whenever the main thread is blocked some worker can step; the waits inside getResults and processItem never block |
| SchedulerProgress.MainProgress | src/DependencyRunner.cc:43-96 | every step of the main thread lowers a measure, except while it spins after a stop |
| SchedulerProgress.WorkerStepLowers | src/WorkerPool.hh:208-235 | every step of a worker lowers the measure by one |
| SchedulerSpin.AlwaysReturnsExact | src/DependencyRunner.cc:43-96 | run() returns under every schedule, fair or not, if and only if it goes on after errors, or there is one worker, or the failure of any item keeps every other one from being ready (with propagation: of any two items one depends on the other) |
| SchedulerSpin.EndlessSchedule | src/DependencyRunner.cc:45-96 | for every other setup there is a schedule from the start of the run under which run() never returns |
| SchedulerSpin.ReachesSpin | src/DependencyRunner.cc:60-90 | its beginning: one worker does the items in order until one fails and leaves the next one ready; the main thread is then at the top of its loop with an item ready, a worker free and the others not |
| SchedulerSpin.SpinsInPlace | src/DependencyRunner.cc:45-96 | from there four steps of the main thread lead back to the same configuration |
| SchedulerSpin.SpinningNeeds | src/WorkerPool.hh:70-94 | in every reachable configuration the main thread spins only under such a setup |
| SchedulerProgress.OnlyNotifiersWake | src/WorkerPool.hh:70-94 | a blocked wait is released only by a worker registering or reporting, a blocked worker only by its queue being filled, so no wake-up is lost |
| SchedulerRuns.NumRunningExact | src/DependencyEvaluator.cc:123-134 | in every reachable configuration the running items number the queued, executing and undrained ones, plus the one being handed over |
| SchedulerRuns.CalledAtMostOnce | src/WorkerPool.hh:163-175 | no item's method is called twice, and no call returns more than once |
| SchedulerRuns.CalledAfterDependencies | src/DependencyEvaluator.hh:4-20 | with propagation an item is called only after the calls for all its direct and indirect dependencies have returned true |
| SchedulerRuns.CalledAfterListed | src/DependencyEvaluator.cc:176-205 | with propagation off an item is called when its dependencies before the first that returned false have returned true |
| SchedulerRuns.ConcurrencyBound | src/WorkerPool.hh:52-65 | at most num_workers calls are going on at a time |
| SchedulerRuns.NothingHandedOutAfterStop | src/DependencyRunner.cc:60-90 | once a failure has been drained in stop mode nothing more is handed out |
| SchedulerQueues.ServedInTurn | src/WorkerPool.hh:163-175 | in any run a worker that becomes available behind k others gets the item of the hand-over after the next k, and its queue is empty until then |
| SchedulerQueues.DrainedInTurn | src/WorkerPool.hh:142-156 | a result reported behind k others is processed after exactly these: its item is running until then and completed or failed as reported right after |
| SchedulerQueues.ChosenInOrder | src/DependencyEvaluator.cc:107-121 | an item becomes running only when the main thread chooses it, and then no item before it in dependency order is ready |
| SchedulerHistory.StepKeepsInv | src/WorkerPool.hh:208-235 | every step of every thread keeps the invariant: running items are exactly those in flight, each in one place, and the log of calls accounts for all of them |
| SchedulerInvariant.WorkerKeepsShape | src/ThreadSafeQueue.hh:33-60 | a worker's queue never holds more than one item, and a worker is registered exactly while it idles with an empty queue |
| SchedulerInvariant.Pigeonhole | src/WorkerPool.hh:128-133 | a list of n different workers out of n names them all, so idle() means that all are idle |
| Evaluation.EvaluateKeeps | src/DependencyEvaluator.cc:158-206 | re-evaluating an item restores what the states owe to its dependencies, for it and for everything its failure reaches |
| Evaluation.ResultKeeps | src/DependencyEvaluator.cc:89-105 | completing or failing a running item leaves all states consistent and moves other items only from waiting to ready or dependency-failed |
| Evaluation.DepFailedExact | src/DependencyEvaluator.hh:9-13 | with propagation the dependency-failed items are exactly those that depend, directly or not, on a failed one |
| Evaluation.DirectStatesExact | src/DependencyEvaluator.hh:7-14 | with propagation an item is ready, running, completed or failed if and only if all its dependencies are completed; it waits if and only if one is unfinished and none failed |
| Evaluation.StartedBelowCompleted | src/DependencyEvaluator.hh:7-9 | everything below a ready, running, completed or failed item is completed |
| Evaluation.KeepGoingExact | src/DependencyEvaluator.cc:176-205 | with propagation off an item is released exactly when all dependencies before its first failed one are completed |
| Evaluation.IntendedExact | src/DependencyEvaluator.hh:54-59 | the header's claim holds for the loop that leaves at a failed dependency only when propagating |
| EvaluatorRuns.PromiseExact | src/DependencyEvaluator.hh:54-59 | the header's claim holds in all states that any calls of a user lead to if and only if in the graph whatever an item depends on is its first dependency or below it |
| EvaluatorRuns.PromiseBroken | src/DependencyEvaluator.cc:184-191 | for every item and dependency that do not meet this, calls after which the item is released and the dependency has not been started |
| SchedulerRuns.PromiseInRuns | src/DependencyRunner.cc:43-96 | on such graphs the claim holds in every configuration of every build run |
| Evaluation.HeaderClaimExact | src/DependencyEvaluator.cc:182-197 | in one scan the written loop and the described one agree if and only if no unfinished dependency is listed after the failed one that ends the scan |
| Evaluation.HeaderClaimFails | src/DependencyEvaluator.cc:184-191 | an item becomes ready while one of its dependencies is running |
| Evaluation.NothingWaits | src/DependencyEvaluator.cc:158-206 | when nothing is ready or running nothing waits |
| DependencyEvaluators.DependencyEvaluator.Evaluate | src/DependencyEvaluator.cc:158-206 | the recursive method yields the states of the evaluation function and terminates because waiting items become fewer |
| DependencyEvaluators.DependencyEvaluator.SetCompleted | src/DependencyEvaluator.cc:89-96 | the new states are those of the specification, consistent again, with one running item less |
| DependencyEvaluators.DependencyEvaluator.SetFailed | src/DependencyEvaluator.cc:98-105 | the same for a failure, cascade included |
| DependencyEvaluators.DependencyEvaluator.NextReadyItem | src/DependencyEvaluator.cc:107-121 | the item found is the first ready one in dependency order, and none is found only if none is ready |
| DependencyEvaluators.FailuresSpread | src/DependencyEvaluator.hh:9-13 | in every valid evaluator the dependency-failed items are, with propagation, exactly those that depend on a failed one, without it none; the counter is the number of running items |
| DependencyEvaluators.GoodGraphIsGoodNet | src/DependencyEvaluator.cc:5-31 | a graph that passed its check meets everything the evaluator relies on |
| GraphCheck.VerdictExact | src/DependencyGraph.cc:176-247 | no unknown is recorded if and only if no dependency is missing, and no cycle if and only if there is none, for all names |
| GraphCheck.SortedDependencies | src/DependencyGraph.cc:256-273 | the sorted dependencies of an item are exactly the known items reachable from it, once each, itself last; on a good graph each after its dependencies |
| GraphCheck.InOrderExact | src/DependencyGraph.cc:176-247 | in_order holds every item once, and on a good graph puts every dependency before its dependents |
| GraphCheck.CycleReportsSound | src/DependencyGraph.cc:324-372 | every reported cycle is a simple closed path with its smallest item first, and none is reported twice |
| GraphCheck.CycleReportsExact | src/DependencyGraph.cc:324-372 | if no two cycles share a key every item on any cycle is in a reported one, and where no two cycles share an item only then |
| GraphCheck.CycleIsReported | src/DependencyGraph.cc:352-372 | an item is in a report if every cycle that shares its key with a cycle through the item passes through it, too |
| GraphCheck.SharedKeyHarmless | src/DependencyGraph.cc:352-372 | a graph in which two cycles share a key and every item on a cycle is reported all the same, because each lies on another cycle |
| GraphCheck.UnknownReportsSound | src/DependencyGraph.cc:300-318 | only missing dependencies are listed, each once for its item |
| GraphCheck.UnknownReportsExact | src/DependencyGraph.cc:300-318 | every missing dependency is listed under its item if and only if no two missing dependencies of the graph share a key |
| GraphCheck.CycleReportsCanMiss | src/DependencyGraph.cc:352-372 | a graph with parenthesized names in which a cycle shares the key of another and is left out |
| GraphCheck.UnknownReportsCanMiss | src/DependencyGraph.cc:303-312 | a graph in which a missing dependency shares the key of another and is left out |
| GraphCheck.RecheckIsFirstCheck | src/DependencyGraph.cc:176-247 | checking an extended graph after a good check gives what checking a fresh graph gives |
| GraphCheck.StaleErrorsPersist | src/DependencyGraph.cc:176-247 | errors on record from an earlier check stay, so the verdict stays bad |
| Traversal.SortedDependenciesExact | src/DependencyGraph.cc:275-393 | a search started with nothing visited lists exactly what it can reach, once each, the root last |
| Traversal.RootCycleDetected | src/DependencyGraph.cc:290-393 | a search from an item on a cycle meets that cycle's item among the ones being visited |
| Traversal.UnknownKeyInjective | src/DependencyGraph.cc:303-312 | for names without closing parentheses the key tells item and dependency apart |
| Traversal.CycleKeyInjective | src/DependencyGraph.cc:352-372 | for such names the key determines the cycle |
| DependencyGraphs.DependencyGraph.TraverseInternal | src/DependencyGraph.cc:290-393 | the recursive method does to its sets and lists what the search function says |
| DependencyGraphs.DependencyGraph.Check | src/DependencyGraph.cc:176-247 | after a first check every field is what the check function says of the items added, and a repeated call changes nothing |
| DependencyGraphs.DependencyGraph.GetSortedDependencies | src/DependencyGraph.cc:38-44 | the list returned holds the known items reachable from the item, once each, itself last, and on a good graph in dependency order |
| DependencyGraphs.DependencyGraph.GetIndependentSets | src/DependencyGraph.cc:96-157 | the sets are exactly the weakly connected components, disjoint, covering all items, each in dependency order |
| DependencyGraphs.ReverseIsTranspose | src/DependencyGraph.cc:225-240 | an item is among the reverse dependencies of another as often as it lists it |
| Components.GrowSet | src/DependencyGraph.cc:112-134 | the worklist numbers exactly what is connected to its seed, though it holds nodes again and again |
| Components.ClosedAndConnectedIsExact | src/DependencyGraph.hh:86-95 | numbers that no edge crosses and that are connected each identify the components |
| LinkOrder.LinkOrder | src/Abuild-build.cc:931-968 | in an error-free build every interface holds each assignment that its item or anything below it makes to a recursive list, exactly once, nothing else, and after all that has to precede it |
| LinkOrder.ListOrder | src/Interface.cc:546-581 | whatever flags hide, the words of each visible assignment stand in the value at the position given by the words before it; in an append list those of an item end where those of what depends on it start or before, in a prepend list the other way round |
| LinkOrder.MergeHistories | src/Interface.cc:68-87 | merging a log into another keeps both orders and adds exactly what is new |
| LinkOrder.ResetForgets | src/Interface.cc:436-480 | after a reset a variable holds what the file assigns to it from there on and nothing that was imported or assigned before |
| Interfaces.HistoryExact | src/Interface.cc:187-424 | after any assignments, repeated ones included, a scalar's log is its fallbacks newest first, then the others oldest first; only the first with each location and platform counts |
| Interfaces.ScalarValueExact | src/Interface.cc:505-545 | a scalar reads as the latest visible assignment that is no fallback, or else the earliest visible fallback |
| Interfaces.SomeoneWins | src/Interface.cc:526-545 | as soon as some assignment is visible one of them decides the value |
| Interfaces.ImportTwice | src/Interface.cc:27-96 | importing an interface a second time changes nothing and reports no new error |
| Interfaces.FreshImport | src/Interface.cc:27-96 | a fresh interface takes over the log of a recursive variable; the fallbacks of a scalar in the opposite order |
| Interfaces.FreshListValue | src/Interface.cc:68-87 | so lists keep their value under all flags |
| Interfaces.FreshScalarValue | src/Interface.cc:400-407 | and scalars too, except that when only fallbacks are visible the importer reads the latest where the importee reads the earliest |
| InterfaceLaws.AcceptedExact | src/Interface.cc:218-388 | assignments to a new variable are all accepted if and only if each that takes effect has the form its type asks for, those to a list are normal, and no normal one to a scalar follows a history that begins with another normal one and has no fallback |
| Interfaces.ConflictCheckExact | src/Interface.cc:320-378 | after assignments to a scalar that were all accepted, the check finds exactly the second normal ones if and only if no effective one was normal, or the first one was and none was a fallback |
| Interfaces.AcceptedLeadingAgrees | src/Interface.cc:320-378 | in such a history every normal entry behind a leading normal one repeats its location and value |
| Interfaces.FoundIsSecond | src/Interface.cc:336-378 | the check never complains without reason |
| Interfaces.SecondNormalAccepted | src/Interface.cc:311-334 | behind a fallback two different normal assignments are accepted and the later one is read |
| Interfaces.AdjustedSettles | src/Interface.cc:242-289 | a value once stored is stored again as it is, whatever the importing directory |
| InterfaceLaws.FilenameStored | src/Interface.cc:786-803 | in a directory with components l, a name of k times ".." and then plain components r is stored as the path that drops k components of l, as far as there are any, and goes on with r |
| InterfaceLaws.FilenameFixed | src/Interface.cc:786-803 | "." is stored as the directory, a canonical name as itself |
| InterfaceLaws.FilenameIsNormalForm | src/Interface.cc:786-803 | for every name the path stored is the end of rewriting the directory's components followed by the name's, or the name's alone if it is absolute |
| InterfaceLaws.BooleanStored | src/Interface.cc:246-272 | a boolean is stored as "1" if and only if the word is "1" or "true", as "0" if and only if it is "0" or "false", and nothing else is accepted |
| InterfaceLaws.FilteredExact | src/Interface.cc:505-523 | an assignment counts if and only if it has no flag or its flag is set for the item it comes from, and those that count keep their order |
| InterfaceLaws.ImportedExact | src/Interface.cc:27-96 | an import adds exactly the variables that are not local, with all assignments of a recursive one and the owner's of another; it changes no other variable, and one declared in two places stays as it was, which is an error |
| InterfaceLaws.NotSecondHand | src/Interface.cc:73-75 | assignments to a variable that is not recursive do not reach those that import the importer |
| InterfaceObjects.Interface.AssignVariable | src/Interface.cc:187-424 | the table and the status are those of the specification, and every log keeps distinct keys and fallbacks first |
| InterfaceObjects.Interface.ImportInterface | src/Interface.cc:27-96 | the table is the specified import of every exported variable, the status whether all of it is free of errors |
| InterfaceObjects.Interface.GetVariable | src/Interface.cc:490-592 | what is read is the specified value of the visible assignments |
| InterfaceObjects.AssignedKeepsWellKept | src/Interface.cc:204-220 | no assignment breaks the distinctness of keys or puts a fallback behind another assignment |
| BuildGraphTargets.LinkDeclaredExact | src/Abuild-build.cc:456-462 | linking an item to a dependency with a declared platform type adds the platform chosen if and only if some platform of the item is not among the dependency's at that moment |
| BuildGraphTargets.PlatformsExact | src/Abuild-build.cc:456-466 | at every moment the build platforms of an item are those it started with and those that dependents linked before have supplied |
| BuildGraphTargets.TargetsKnownExact | src/Abuild-build.cc:382-503 | every target is a node of the final graph if and only if each platform chosen for a declared type is there from the start or is supplied by some dependent |
| BuildGraphTargets.ServedFromStartSuffices | src/Abuild-build.cc:382-503 | the check passes if for each declared dependency the platform chosen is among its or the item's platforms at the start, or the item has, or can only have, platforms that the dependency cannot have |
| BuildGraphTargets.AnyStartExact | src/Abuild-build.cc:382-503 | the check passes whatever is to be built if an item and a dependency with a declared type can have no platform in common but the one chosen; where such a dependency has one dependent, only then |
| BuildGraphs.BuildGraphAcyclic | src/Abuild-build.cc:62-104 | the final graph has no cycle |
| BuildGraphs.BuildGraphExact | src/Abuild-build.cc:343-359 | its nodes are exactly the items on their build platforms, its edges lead to the platform chosen for item, platform and dependency |
| BuildGraphs.LinkedAt | src/Abuild-build.cc:325-331 | once an item has been processed its build platforms are final |
| BuildGraphs.LinkReaches | src/Abuild-build.cc:456-466 | a chosen platform ends up among the build platforms, except perhaps one for a declared type |
| BuildGraphs.AllPlatformsExact | src/Abuild-build.cc:333-341 | an item of type "all", for which nobody declares a platform type, is built exactly on its own initial platforms and those of everything that depends on it |
| BuildGraphs.DeclaredTypeMissed | src/Abuild-build.cc:456-462 | a build whose graph lacks the node of a declared platform type |
| BuildGraphs.ReverseOrderIsDependentsFirst | src/Abuild-traverse.cc:178-192 | the sorted items backwards, cut down to the build set, put every item before what it depends on |
| BuildGraphs.ParseRoundTrip | src/Abuild-build.cc:508-531 | parsing a node name gives back its item and platform |
| BuildGraphBuilders.Builder.BuildBuildGraph | src/Abuild-build.cc:62-125 | the loops yield the specified graph and platforms, and the check after them succeeds exactly when the platforms chosen for declared types are there or are supplied |
| BuildGraphBuilders.Builder.AddItemToBuildGraph | src/Abuild-build.cc:282-506 | one item adds exactly its nodes with their edges, widens its dependencies' platforms as specified, and reports exactly the unmatched dependencies |
| BuildItems.BestForTypeSpelled | src/BuildItem.cc:263-350 | over platforms written as os.cpu.toolset.compiler with an optional option: the platform chosen is the first in which every field is the one asked for, the first of the type when none is, and none only if the type has none; the selector in force is the one given, or else the user's for the type, or else the user's for any type, the last two unless they say skip |
| BuildItems.MatchesExact | src/PlatformSelector.cc:17-62 | a platform is selected if and only if each field is the one the selector gives, `*` allowing any; an empty field asks for that of the first platform of the type (or an empty one), an empty option for no option |
| ChoiceLaws.ChoiceSpelled | src/Abuild-build.cc:404-466 | a declared platform type decides the platform of a dependency for every platform of the dependent, by these fields; without one the dependent's platform is chosen wherever it can be |
| ChoiceLaws.UnmatchedExact | src/Abuild-build.cc:412-495 | a dependency is reported as unmatched if and only if the declared type has no platforms, or, none being declared, neither item is of type "all", the dependency cannot be built on the platform, and of the types that suit the platform it declares none or the first it declares has no platforms |
| BuildItems.BestForPlatformExact | src/BuildItem.cc:352-413 | an item that can be built on the platform asked for is; otherwise the choice is the best platform of the first compatible type it declares, which may be none, and none if it declares no compatible type |
| BuildSets.Expansion.Expand | src/Abuild-buildset.cc:165-379 | repeated, the expansion is the least set that holds the selection and is closed under dependencies, build-also, reverse dependencies and traits; not repeated, the first pass closed under dependencies and build-also |
| BuildSets.ClosuresEqual | src/Abuild-buildset.cc:206-379 | there is only one such set, so the order of additions does not matter |
| BuildSets.Expansion.AddBuildAlso | src/Abuild-buildset.cc:449-481 | build-also expansion yields the least closed set of local items with the required traits |
| BuildSets.Expansion.ExpandByReverseDependencies | src/Abuild-buildset.cc:251-296 | so does expansion by reverse dependencies |
| BuildSets.AppliesToMore | src/Abuild-buildset.cc:298-358 | a rule that applies keeps applying when the set grows |
| BuildSets.InBuildAlsoExact | src/Abuild-buildset.cc:484-553 | in terms of path components, which items an entry means: the item named, the tree named, the tree and those it depends on, or what lies at or below their directory |
| BuildSets.RulesExact | src/Abuild-buildset.cc:251-358 | when reverse dependencies, traits and the traits required of selected items apply, in terms of what the item declares |
| PlatformRegistry.SortedTypesAreAncestors | src/PlatformData.cc:224-237 | the types among sorted dependencies, backwards and without the type itself, are its ancestors, nearest first |
| PlatformRegistry.OnlyOrder | src/PlatformData.cc:224-237 | only one list has a type and its ancestors once each after their parents |
| PlatformRegistry.FirstOfTimes | src/PlatformData.cc:228-236 | repeating the whole chain does not change what a search finds first |
| PlatformRegistry.PlatformData.Check | src/PlatformData.cc:122-237 | a check succeeds exactly on a graph without errors and with no selector but skip for types that are not of object code, and then adds each type's ancestors to what is on record |
| PlatformRegistry.PlatformData.GetCompatiblePlatformTypes | src/PlatformData.cc:336-356 | after any successful checks and additions the answer is the ancestor chain, perhaps repeated as a whole, then "indep", and a search in it finds what it finds in the plain chain |
| Wire.FramesArrive | src/JavaBuilder.cc:359-453 | for every list of frames, every mixture of line ends and every cut into chunks, exactly these frames take effect, in order, with nothing left over |
| FrameEffects.FramesTakeEffect | src/JavaBuilder.cc:359-453 | told from the frames and the waiting requests alone: the frames before the first one for a request that does not wait are delivered one by one, each answer with its verdict, each text on its channel to its request, text for request 0 as output of no request; for each request and channel the texts delivered are those sent, in order; and the connection breaks if and only if there is a frame for a request that does not wait |
| FrameEffects.ResponseLineExact | src/JavaBuilder.cc:362-381 | a line is an answer if and only if it is digits, a space, `true` or `false`, and perhaps a carriage return |
| FrameEffects.DataLineExact | src/JavaBuilder.cc:363-392 | a line announces output if and only if it is digits, the channel, digits, and perhaps a carriage return |
| FrameEffects.ForeignLineExact | src/JavaBuilder.cc:446-450 | a complete line is refused at once if and only if it is neither, output counting only when it is captured |
| Wire.ChunksDoNotMatter | src/JavaBuilder.cc:326-331 | for any input, well formed or not, the outcome does not depend on how it is cut |
| Wire.EncodedStep | src/JavaBuilder.cc:362-444 | a frame is recognized as what was sent whatever follows it, newlines in its text included |
| JavaBuilders.JavaBuilder.HandleResponse | src/JavaBuilder.cc:359-453 | the loop does what the parsing function says and keeps every request accounted for: it waits for its answer or has had exactly one |
| JavaBuilders.JavaBuilder.EndIO | src/JavaBuilder.cc:240-262 | the end of the io thread answers every waiting request with false, in the order of their numbers |
| Wire.LeftoverExact | src/JavaBuilder.cc:326-331 | of what a connection leaves unfinished exactly zeros let every list of frames of the next one, however cut, take effect as it was sent |
| Wire.LeftoverSpoils | src/JavaBuilder.cc:359-381 | behind anything else the answer to any waiting request goes astray |
| JavaBuilders.AnswerOnNewConnection | src/JavaBuilder.cc:240-262 | the end of a connection, a new one and the answer to its first request: it arrives if and only if the last connection has left zeros |
| JavaBuilders.LeftoverSpoilsNext | src/JavaBuilder.cc:326-331 | a run of two connections in which half an answer on the first one makes the answer on the second one end the program |
| Globs.TranslationPreserves | src/Util.cc:1079-1231 | for patterns of plain characters, escaped punctuation, `*`, `?` and braces with possibly empty alternatives, the expression emitted matches exactly the strings the pattern matches |
| Globs.RunAlts | src/Util.cc:1132-1180 | in a brace the bar erased at the end always stands for a comma, never for an escaped bar |
| Globs.ParseEmitted | src/Util.cc:1092-1212 | the expression emitted parses back to the terms of the pattern |
| Globs.TranslateGlob | src/Util.cc:1092-1217 | the character loop computes the specified translation, exceptions included |
| Paths.CanonicalizeShape | src/Util.cc:355-505 | for every map of symbolic links the result has no ".", ".." or empty component, and of its prefixes only links expanded before are left |
| PathRewriting.CanonicalizeIsNormalForm | src/Util.cc:355-505 | for every map of links the canonical path is the end, and the only one, of rewriting the components from the left: an empty component and "." vanish, ".." vanishes with what is before it, a link not used before gives way to its target, an absolute target replacing all that is before it as well |
| PathRewriting.LinkStandsForTarget | src/Util.cc:429-476 | a path through the first link it meets is canonicalized as the path through the link's target, if that does not lead through the link again |
| Paths.CanonicalizeIdempotent | src/Util.cc:355-505 | without links canonicalizing twice is canonicalizing once |
| Paths.RelRoundTrip | src/Util.cc:833-883 | from the container along the relative path one gets back to the path |
| Paths.IsDirUnderExact | src/Util.cc:507-514 | isDirUnder compares components, except under "/", where only "/" counts |
| Paths.CanonicalizePath | src/Util.cc:355-505 | the loop that splices link targets into the components it walks terminates, because each link is expanded at most once, with the specified path |
| Paths.RelativePath | src/Util.cc:833-883 | the loops compute the specified relative path |
| Text.SplitSplits | src/Util.cc:171-183 | splitting distributes over a separator |
| Text.SplitString | src/Util.cc:171-183 | the loop computes the specified parts |
| KeyVals.RewriteIsIdentity | src/KeyVal.cc:210-283 | without edits any file is written back byte for byte, comments, continuations and bad lines included |
| KeyVals.RewriteRenames | src/KeyVal.cc:210-283 | on an error-free file, reading what has been written with keys renamed and deleted gives exactly the map with these keys renamed and deleted |
| KeyValReading.SpelledFileRead | src/KeyVal.cc:42-202 | a file spelled as empty lines, comments, wrong lines and keys with values over several lines says: for each known key with an item the value of the last one, which is its trimmed parts one after the other, the first with a space behind it if it is continued and not empty, each further one if it is continued; one error for each wrong line, unknown key and repeated key; and it is accepted exactly without errors and with its last value finished |
| KeyValReading.SpelledFileWritten | src/KeyVal.cc:210-283 | written with edits such a file yields its blocks one after the other: nothing for a deleted key, the replacement with the item's last line end for a replaced one, the item under its new key or as it was otherwise |
| KeyValReading.AdditionsAreLines | src/KeyVal.cc:230-234 | the additions are put in front, a line each |
| KeyVals.KeyVal.ReadFile | src/KeyVal.cc:42-202 | the loop computes the specified entries, values and verdict, defaults included |
| KeyVals.KeyVal.WriteFile | src/KeyVal.cc:210-283 | the loop writes additions first and then every entry with its edit |
| KeyVals.KeyVal.SplitLines | src/Util.cc:242-288 | the character loop yields the lines whose concatenation is the file |

## Left out

- GraphCheck.CycleReportsExact: where cycles share both keys and items, which of them is met first decides what is reported; this is not stated.
- GraphCheck.StaleErrorsPersist: a graph with errors on record is not reset by a later check; a program that checks once never sees this.
- DependencyGraphs.DependencyGraph.GetIndependentSets: a cached answer is returned without being recomputed, as in the code; after items have been added to a graph asked before, nothing is claimed of it.
- DependencyGraphs.DependencyGraph.GetIndependentSets: std::sort by position in in_order is modelled by picking the members in that order.
- LinkOrder.LinkOrder: covers list variables that no file resets and that the base and plugin interfaces declare but do not assign; those interfaces are the starting table of each node.
- InterfaceObjects.Interface.AssignVariable: the assertion that an assignment met before has the same value is a precondition; error messages are a status.
- Interfaces.AdjustedSettles: symbolic links are not followed when interface file names are normalized.
- Interface.dump, unparse functions and per-target-type listings: output only.
- BuildGraphBuilders.Builder.AddItemToBuildGraph: messages and the set of forced failures of keep-going mode are one flag; the choice of backends is not modelled.
- BuildItems.BestForTypeSpelled: selectors are given parsed; a platform with fewer than four or more than five fields, which the program rules out by an assertion, is not covered.
- BuildSets.Expansion.Expand: the sets of named items, patterns and trees that select the first items, and the items with explicit targets, are not modelled; a dependency or build-also entry that does not exist is an error reported before.
- PlatformRegistry.PlatformData.Check: the order and default selection of a type's platforms and the record of unused selectors are not modelled; the exceptions end the program and are a false result.
- BuildGraphTargets.AnyStartExact: whether other dependents make up for a missed platform depends on the whole graph; TargetsKnownExact says which do.
- Wire.FramesArrive: numbers are unbounded, so the overflow of atoi is not modelled.
- JavaBuilders.JavaBuilder.EndIO: that an answer comes at all is not claimed: a request registered when the io thread has already ended may wait forever; starting, sockets and writing are not modelled.
- Globs.TranslationPreserves: brackets, bare bars and stray closing braces are translated but their meaning is not stated; the regular expression syntax covered is the one that occurs, so the final compilation of the expression is not modelled.
- Globs.TranslationPreserves: escapes of letters and digits and of `<`, `>`, the quote and the backquote, which mean something else to the expression library, are excluded.
- KeyVals.RewriteRenames: covers renamings to different valid keys; replacements put in text of any kind, so what is written is stated (KeyValReading.SpelledFileWritten) but not what it reads as.
- KeyValReading.SpelledFileWritten: a wrong line that ends in a backslash counts as text in front of the next key and is not covered here; RewriteIsIdentity covers it.
- Paths.CanonicalizePath: a link whose target cannot be read counts as no link, and the file system does not change during the call; Windows branches are not modelled.
- Scheduler: the change callback, uncaught exceptions in methods and the creation of threads; std::deque and mutex operations are atomic.
- Process handling, output directories, cleaning, tree and backing-area traversal, option parsing and help: input and output.
