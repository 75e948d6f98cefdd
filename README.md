# Dependency-graph component orchestrator, in Dafny

This project models the engine in `component/` of go-dependency-graph. A
program registers named components. Each component wraps a user lifecycle
(a `Start` and a `Stop`) and lists the names it depends on. The
orchestrator (`System`) then does four things:

- it rejects a dependency cycle or a dependency name nobody registered, before it touches any component;
- it computes a start order with Kahn's algorithm, always taking the lexicographically least ready name;
- it starts the components in that order, handing each one the instances of its dependencies, and stops at the first failure without rolling back;
- it stops them in the reverse of a freshly computed order, handing each the whole context, going on past failures and reporting the last one.

The project is organised by source file:

- `component.dfy` (module `Components`) is the component record of `component/component.go`. It is a class whose `Start` and `Stop` update `started` and `result` in place. A ghost history of lifecycle calls explains the record's state.
- `system.dfy` (module `Systems`) is the `System` class of `component/system.go`.
  - The cycle search (`IsCyclic`, `CheckCyclicDependencies`) and Kahn's algorithm (`GetOrderedComponents`, `BuildGraph`, `RecordDependents`) are methods with loops over maps and sequences.
  - `Start` and `Stop` are specified by two pure functions, `StartAlong` and `StopAlong`. Each gives the error and the new orchestrator state, meaning the records, the context and a ghost trace of the calls made. Lemmas state what those functions imply.
- `kahn.dfy` (module `KahnSteps`) holds the loops of the topological sort and their invariants.
- `dfs.dfy` (module `DepthFirst`) holds the invariant of the depth-first search.
- `graph.dfy` (module `Graphs`) is the graph theory:
  - cycles and topological orders;
  - the reference order `KahnOrder` ("always output the least ready name");
  - in-degrees with duplicate entries counted;
  - reversal.
- `strings.dfy` (module `StringOrder`) is the lexicographic string order and `sort.Strings`.
- `lifecycle.dfy` and `options.dfy` hold the lifecycle value, the context type, the oracle replies and `Option`.
- `scenarios.dfy` holds the graphs of `component/system_test.go` and what the model says about each. Each of the four tests is also restated as a method that calls the model's `Define`, `CreateSystem`, `Start` (and `GetContext`, `Stop`), takes what the mock lifecycles return as parameters, and whose ensures give the outcome the test expects.

What a user lifecycle's `Start`/`Stop` returns is not computed. It is an input to the model: `replies: string -> StartReply` gives, for each component name, the value or the failure its lifecycle returns.

Where the written design and the code differ, the model follows the code:

- The start context of a component holds each dependency's `instance`, not the result its start returned (`component/system.go:65`).
- `Component.Start` on a started record returns `instance`, not the stored `result` (`component/component.go:38-40`).
- A failed `Component.Stop` leaves the record started, because it returns before clearing the flag (`component/component.go:67-71`).

## Model

| member | source | states |
|---|---|---|
| Components.Component.Define | component/component.go:20-27 | a new record has the given key, instance and dependency list exactly, is not started, holds no result and has made no lifecycle call |
| Components.Component.Key | component/component.go:29-31 | returns the stored key and changes nothing |
| Components.Component.IsStarted | component/component.go:76-80 | returns the started flag and changes nothing |
| Components.Component.GetDependencies | component/component.go:83-85 | returns the declared dependency list and changes nothing |
| Components.Component.Start | component/component.go:34-54 | a started record returns its `instance` with no error and makes no lifecycle call; otherwise the lifecycle's Start is called once with `ctx`, and a success stores and returns its value and marks the record started, while a failure returns nil and an error and leaves `started` and `result` as they were |
| Components.Component.Stop | component/component.go:57-73 | a record that is not started returns no error and makes no call; otherwise the lifecycle's Stop is called once, a success clears `started`, and a failure returns an error and leaves the record started |
| Components.StartIdempotent | component/component.go:38-40 | once a start succeeded (or the record was started), any further start changes nothing |
| Components.StopIdempotent | component/component.go:61-63 | once a stop succeeded (or the record was not started), any further stop changes nothing |
| Components.AfterStartExplained | component/component.go:43-53 | a start keeps the record's state equal to what its lifecycle call history explains |
| Components.AfterStopExplained | component/component.go:65-72 | a stop keeps the record's state equal to what its lifecycle call history explains |
| Components.StartedRecordHoldsLastStart | component/component.go:51-52 | a started record holds the value of a successful start after which no call succeeded |
| Components.StoppedRecordHasNoLiveStart | component/component.go:61-71 | in a record that is not started, every successful start was followed by a successful stop |
| Systems.System.CreateSystem | component/system.go:19-25 | the new system holds exactly the given records, is not started, has an empty context and has made no call |
| Systems.System.IsCyclic | component/system.go:150-174 | a true answer means the graph of registered names has a cycle; a false answer keeps the search invariant (the on-path names form a walk along edges, and every finished name comes after its registered dependencies) and marks `name` visited |
| Systems.System.CheckCyclicDependencies | component/system.go:134-147 | no error exactly when the graph of registered names has no cycle (self-loops included, edges to unregistered names ignored), for every map iteration order; an error names a registered component |
| Systems.System.BuildGraph | component/system.go:179-197 | no error exactly when every declared dependency is registered; then every name lists each dependent once per declaring entry and its in-degree is its number of dependency entries, duplicates counted; an error names a missing dependency and its dependent |
| Systems.System.RecordDependents | component/system.go:190-196 | either reports a declared dependency that is not registered, or appends `name` to the dependents of every entry and raises `name`'s in-degree once per entry |
| KahnSteps.Sources | component/system.go:200-205 | the queue holds every name whose in-degree is zero, once each, and nothing else |
| KahnSteps.ReleaseDependents | component/system.go:219-224 | after the head's dependents are released, every in-degree counts the dependency entries still waiting and the queue holds exactly the ready names, once each |
| KahnSteps.OutputNext | component/system.go:210-224 | sorting the queue and taking its head outputs the least ready name, keeps the loop invariant and leaves one name fewer to output |
| KahnSteps.SortLoop | component/system.go:208-225 | the loop outputs exactly `KahnOrder`: at each step the least ready name, until no name is ready |
| KahnSteps.ReadyIffZero | component/system.go:219-223 | a name is ready exactly when its in-degree counter is zero |
| KahnSteps.TakeLeast | component/system.go:211-216 | the head of the sorted ready queue is ready and extends the order by the least ready name |
| KahnSteps.SortingDone | component/system.go:209-225 | when the queue runs dry the output equals `KahnOrder` |
| Systems.System.GetOrderedComponents | component/system.go:177-233 | no error exactly when every dependency is registered and there is no cycle; then the order is `KahnOrder` and is a topological order (each name once, after its dependencies); a missing dependency is reported as such, and a cycle among registered names as a cyclic dependency |
| Graphs.KahnCompleteIffAcyclic | component/system.go:227-230 | the greedy order lists every name exactly when the graph has no cycle, and then it is a topological order |
| Graphs.KahnShortHasCycle | component/system.go:228-230 | an order shorter than the component count means there is a cycle |
| Graphs.KahnOrderIsGreedy | component/system.go:209-216 | `KahnOrder` takes the least ready name at every step, repeats no name and puts each name after its dependencies |
| Graphs.GreedyOrderUnique | component/system.go:209-216 | only one sequence takes the least ready name at every step, so the order depends only on the graph |
| Graphs.OrderedGraphIsAcyclic | component/system.go:134-147 | a graph whose names can be ordered after their dependencies has no cycle |
| DepthFirst.BackEdgeCloses | component/system.go:167-168 | an edge back onto the current search path closes a cycle |
| Graphs.PendingInitially | component/system.go:194-195 | before anything is output, a name's pending count is its number of dependency entries, duplicates included |
| Graphs.PendingAfterOutput | component/system.go:219-221 | outputting a name lowers a pending count by the number of entries naming it |
| Graphs.PendingZero | component/system.go:221-222 | the pending count is zero exactly when every dependency has been output |
| StringOrder.SortStrings | component/system.go:211 | the result is sorted and is a permutation of the queue |
| StringOrder.LessEqTotal | component/system.go:211 | any two names are comparable in the lexicographic order |
| StringOrder.LessEqTransitive | component/system.go:211 | the lexicographic order is transitive |
| StringOrder.LessEqAntisymmetric | component/system.go:211 | two names below each other are equal |
| StringOrder.LeastUnique | component/system.go:211-214 | the name below every ready name is the least one |
| Systems.System.BuildStartContext | component/system.go:53-66 | no error exactly when every declared dependency is registered and started; then the context maps each dependency to its `instance`; otherwise the error names an unregistered or unstarted dependency of `name` |
| Systems.System.TopologicalReady | component/system.go:50-63 | along a topological order, each name is registered, not repeated, and has every dependency registered and earlier in the order |
| Systems.System.DependenciesStarted | component/system.go:55-63 | before the first failing start, when a name's turn comes, its record is untouched and every dependency of it is started |
| Systems.System.StartNext | component/system.go:51-72 | one start: the record's state becomes `AfterStart` with its dependency context, and the error is a start failure exactly at the first failing position; otherwise the returned value is what the start returned, or the instance of a record already started |
| Systems.System.StartStep | component/system.go:50-76 | one round of the start loop: the call is recorded and the value stored in the context, or on failure the state is exactly `StartAlong`'s |
| Systems.System.StartInOrder | component/system.go:50-76 | the start loop leaves the error and state that `StartAlong` gives, and does not change `started` |
| Systems.System.StartOrdered | component/system.go:49-82 | after validation, the state is `StartAlong`'s and the system becomes started exactly when no start failed, with every record started and in the context |
| Systems.System.Start | component/system.go:28-83 | a started system is left unchanged with no error; a cycle, then a missing dependency, are reported before any record, the context or the trace changes; otherwise the state is `StartAlong` along `KahnOrder`, and the system is started exactly when no start failed |
| Systems.FirstFailure | component/system.go:69-72 | the position of the first start that fails, or the order's length; every start before it succeeds |
| Systems.System.StartContextAt | component/system.go:74-75 | after the starts of `ord[..k]`, each of those names maps to the value its start stored, and every other entry is kept |
| Systems.System.StartTraceAt | component/system.go:50-69 | the `j`-th start call is made on `ord[j]` with that component's dependency context, after the earlier trace |
| Systems.System.StartAllAt | component/system.go:50-72 | along an order without repeats, each record of `ord[..k]` goes through exactly one start, with its dependency context |
| Systems.System.StartAllOutside | component/system.go:50-72 | records not in `ord[..k]` are untouched |
| Systems.System.StartAllStarted | component/system.go:61-72 | before the first failure, started records stay started and every record started along the way is started |
| Systems.System.StartAlongAborts | component/system.go:69-72 | a start that fails at `ord[i]` reports that name, leaves `ord[..i]` started with their values in the context, leaves `ord[i]` not started and later records untouched, and records `i + 1` start calls |
| Systems.System.StartAlongCompletes | component/system.go:74-81 | a start along all names with no failure leaves every record started and in the context |
| Systems.System.StartAlongExplained | component/system.go:50-76 | starting along any order keeps every record explained by its call history |
| Systems.System.StartValid | component/system.go:74-81 | the records stay explained, and when no start failed every record is started with a context entry |
| Systems.ReverseInPlace | component/system.go:100-103 | the array becomes the reverse of what it was |
| Systems.System.ReverseOrder | component/system.go:99-103 | returns the reverse of the start order |
| Systems.System.ReversedFresh | component/system.go:99-106 | the reverse of an order of all names, without repeats, names each registered record once |
| Graphs.ReversedStopsDependentsFirst | component/system.go:99-106 | in the reverse of a topological order every component comes before all of its dependencies |
| Systems.StopError | component/system.go:105-113 | no error exactly when no stop failed; otherwise the failure of the last stop that failed |
| Systems.System.StopAllAt | component/system.go:105-110 | along an order without repeats, each record goes through exactly one stop, with the whole context |
| Systems.System.StopAllOutside | component/system.go:105-110 | records not yet reached are untouched |
| Systems.System.StopAllExplained | component/system.go:105-110 | stopping keeps every record explained by its call history |
| Systems.System.StopTraceAt | component/system.go:105-108 | the `j`-th stop call is made on `rev[j]` with the whole context, after the earlier trace |
| Systems.System.StopAlongOutcome | component/system.go:105-116 | after a stop along all names the context is unchanged, and a record is still started exactly when it was started and its stop failed |
| Systems.System.StopStep | component/system.go:106-112 | one round of the stop loop: the call is recorded, the record becomes `AfterStop` with the whole context, and the error is the last failure so far |
| Systems.System.StopInOrder | component/system.go:105-113 | the stop loop leaves the error and state that `StopAlong` gives, and does not change `started` |
| Systems.System.StopValid | component/system.go:105-116 | a stop keeps every record explained |
| Systems.System.StopOrdered | component/system.go:99-116 | stops along the reverse of the order, giving `StopAlong`'s error and state, and leaves the system not started |
| Systems.System.Stop | component/system.go:85-117 | a system that is not started is left unchanged with no error; otherwise the state and error are `StopAlong` along the reverse of `KahnOrder`, and the system is not started afterwards whatever failed |
| Systems.System.GetContext | component/system.go:119-131 | returns a map equal to the context |
| Scenarios.ChainIsGreedy | component/system_test.go:34-38 | for compA; compB needs compA; compC needs compA and compB, the order compA, compB, compC takes the only ready name at each step |
| Scenarios.ChainStartsInDependencyOrder | component/system_test.go:34-44 | that graph validates, has no cycle, and its start order is compA, compB, compC |
| Scenarios.PairStartsInDependencyOrder | component/system_test.go:94-103 | for compA; compB needs compA, the graph validates, has no cycle, and its start order is compA, compB |
| Scenarios.RingIsCyclic | component/system_test.go:123-134 | the ring compA→compC→compB→compA has a cycle and the sort outputs nothing |
| Scenarios.DanglingIsMissing | component/system_test.go:145-153 | a dependency on "nonExistent" is not registered and forms no cycle: the case in which `Start`'s contract reports a missing dependency before touching anything |
| Scenarios.ChainRecords | component/system_test.go:34-38 | `Define` gives three distinct records over the given lifecycles, with the chain's dependencies, not started and with no lifecycle call |
| Scenarios.ChainSystem | component/system_test.go:34-41 | `CreateSystem` over those records is valid, not started, has an empty context and trace, and its graph is the chain |
| Scenarios.PairRecords | component/system_test.go:94-97 | `Define` gives two distinct records, compB needing compA, not started and with no lifecycle call |
| Scenarios.PairSystem | component/system_test.go:94-100 | `CreateSystem` over those records is valid, not started, has an empty context and trace, and its graph is the pair |
| Scenarios.RingRecords | component/system_test.go:124-128 | `Define` gives three distinct records with the ring's dependencies, not started and with no lifecycle call |
| Scenarios.RingSystem | component/system_test.go:124-131 | `CreateSystem` over those records is valid, not started, has an empty context and trace, and its graph is the ring |
| Scenarios.DanglingRecords | component/system_test.go:145-147 | `Define` gives one record needing "nonExistent", not started and with no lifecycle call |
| Scenarios.DanglingSystem | component/system_test.go:145-150 | `CreateSystem` over that record is valid, not started, has an empty context and trace, and its graph is the dangling one |
| Scenarios.ChainDependencyContexts | component/system_test.go:34-38 | compA's start is handed no dependency, compB's the instance of compA, compC's the instances of compA and compB |
| Scenarios.ChainStartRecords | component/system_test.go:43-57 | with every start succeeding, all three records end up started |
| Scenarios.ChainStartContext | component/system_test.go:59-69 | with every start succeeding, the context maps each name to the value its start returned |
| Scenarios.ChainStartTrace | component/system_test.go:43-57 | the start calls go to compA, compB and compC in that order, each with its dependency context |
| Scenarios.ChainStartSucceeds | component/system_test.go:43-69 | a start of the chain from fresh records reports no error, starts every record, fills the context with every start's value and calls the three starts in dependency order |
| Scenarios.ChainReversed | component/system_test.go:71-85 | the chain stops in the order compC, compB, compA |
| Scenarios.ChainStopRecords | component/system_test.go:71-85 | with every stop succeeding, none of the three started records stays started |
| Scenarios.ChainStopTrace | component/system_test.go:71-85 | the stop calls go to compC, compB and compA in that order, each with the whole context |
| Scenarios.ChainStopSucceeds | component/system_test.go:71-85 | a stop of the started chain reports no error, keeps the context, leaves no record started and calls the three stops in reverse dependency order |
| Scenarios.PairStartFails | component/system_test.go:102-114 | when compB's start fails, a start of the pair calls compA's and compB's starts, reports compB, leaves compA started with its value in the context and compB not started |
| Scenarios.StartStopRun | component/system_test.go:27-86 | the whole test through `Define`, `CreateSystem`, `Start`, `GetContext` and `Stop`: no error from either, the context holds each start's value, the system ends not started, and the trace is the three starts in dependency order followed by the three stops in reverse order |
| Scenarios.StartErrorRun | component/system_test.go:88-115 | the whole test: `Start` reports compB's failure, compA stays started with its value in the context, compB is not started, the system is not started, and both starts were called |
| Scenarios.CyclicDependencyRun | component/system_test.go:117-138 | the whole test: `Start` reports a cycle at one of the three records, leaves every record unstarted with no lifecycle call, and leaves the context and the trace empty |
| Scenarios.MissingDependencyRun | component/system_test.go:140-157 | the whole test: `Start` reports that compA's dependency "nonExistent" is missing, leaves compA unstarted with no lifecycle call, and leaves the context and the trace empty |

## Left out

- Locking: both mutexes (`component/system.go:15`, `component/component.go:16`) exist for concurrent callers; the model runs every operation sequentially.
- Timing and log output: `time.Now`, `time.Since` and `fmt.Printf` have no effect on the state.
- Error text and `%w` wrapping: errors are tagged variants (`CyclicDependencyAt`, `CyclicDependency`, `DependencyNotFound`, `DependencyNotStarted`, `ComponentStartFailed`, `ComponentStopFailed`).
- Which name the cycle error carries: it depends on Go's random map iteration order. The search picks names with `:|`, so every contract holds for every order, and the name is only known to be registered.
- User lifecycle behaviour: `Lifecycle` is an opaque value and what its Start/Stop returns comes from the `replies` functions. A lifecycle that blocks, panics or changes other state is not modelled. The replies are fixed per name for a whole `Start` or `Stop`.
- Shared maps: Go passes the orchestrator's context map itself to every `Stop`, and hands `visited`/`recStack` to the search by reference. Here they are values. A lifecycle that mutates the context it is given is not modelled, and neither is `GetContext`'s protection against such mutation (a Dafny map cannot be mutated).
- String order: Go compares strings byte by byte in UTF-8. `LessEq` compares code points, which agrees on valid UTF-8 text. Invalid UTF-8 is not modelled.
- Aliased records: `CreateSystem` requires distinct names to map to distinct record objects. A record registered under two names is not modelled.
- Frozen maps and lists: Go's `CreateSystem` keeps the caller's `components` map by reference (`component/system.go:19-21`) and `Define` keeps the dependency slice it is given (`component/component.go:24`), so a caller could change either afterwards. The model makes both constants fixed at construction. That is why `Stop` can be proved never to take the early error return of `component/system.go:95-98`: the graph validated by `Start` cannot change in between.
- Records are changed only by the orchestrator: no caller is expected to call a record's `Start`/`Stop` directly while the system runs.
- Systems.System.Start: when a cycle is found, its contract says only that the error names some registered component. It does not say which one, because that depends on map order.
- Go's `examples/components.go`, `cmd/demo/main.go` and `component/lifecycle.go` are not part of this model, beyond the `Lifecycle` and `Context` types.
