# Control-flow-graph detectors, modelled in Dafny

This project models three per-method analyses over a control-flow graph (CFG) of basic blocks.
They are written as FindBugs detectors over BCEL bytecode:

- **RandSinDetector** has two passes.
  - The first sorts blocks into *sources* (a block calls `java.lang.Math.random` statically) and *sinks* (a block calls `java.lang.Math.sin` statically).
  - The second searches, from all sources at once, for a sink reachable over edges of every kind.
- **CycleDetector** runs a work-set/visited-set traversal from the entry block. It skips unhandled-exception edges. It reports a cycle when it takes a block from the work set that it has already visited.
- **MethodCallLogger** handles each virtual or interface call. It names the receiver by looking one instruction back:
  - a local-variable load gives the variable's name from the local-variable table;
  - a field load gives `Owner.field`;
  - anything else leaves the receiver unresolved.

Layout:

- `control_flow.dfy` (module `ControlFlow`):
  - the instruction datatype, with constant-pool operands already resolved;
  - edge kinds, edges, and the CFG as a value;
  - paths, reachability and cycles, with their general lemmas.
- `rand_sin.dfy` (module `RandSin`): the source/sink predicates, the classification pass, the search, and the whole detector.
- `cycle_detection.dfy` (module `CycleDetection`):
  - the traversal as written, with its step semantics `Execute`;
  - the counterexample below;
  - a corrected check.
- `call_logging.dfy` (module `CallLogging`): receiver-name resolution, the call filter, and the per-method log.
- `wrappers.dfy` (module `Wrappers`): `Option`, which stands for a Java reference that may be null.

The CFG is read-only in every detector. Here it is an immutable value, so "the detectors never change the graph, the source set or the sink set" holds by construction. `HashSet` iteration order is unspecified, so every "take some element" is a nondeterministic choice (`:|`). No contract depends on a particular order.

## Model

| member | source | states |
|---|---|---|
| RandSin.IsSinkInstruction | src/edu/cmu/cs/cs313/RandSinDetector.java:135-151 | a sink is a static call; only a static call whose owner is `java.lang.Math` can be one |
| RandSin.IsSourceInstruction | src/edu/cmu/cs/cs313/RandSinDetector.java:153-171 | a source is a static call whose owner is `java.lang.Math`, and no source instruction is also a sink (`random` and `sin` are different names) |
| RandSin.ClassifyBlocks | src/edu/cmu/cs/cs313/RandSinDetector.java:67-84 | a block is in `sources` (resp. `sinks`) iff it belongs to the graph and at least one of its instructions is a `Math.random` (resp. `Math.sin`) static call; a block may be in both |
| RandSin.ClassificationIgnoresOrder | src/edu/cmu/cs/cs313/RandSinDetector.java:73-83 | two blocks holding the same multiset of instructions are classified alike: instruction order inside a block is irrelevant |
| RandSin.QueueSuccessors | src/edu/cmu/cs/cs313/RandSinDetector.java:124-130 | after the successor loop the to-do set is the old one plus every successor (over edges of any kind) not already in `reachable` |
| RandSin.HasPath | src/edu/cmu/cs/cs313/RandSinDetector.java:108-133 | returns true iff some sink block is reachable from some source block by zero or more edges of any kind; the search terminates on cyclic graphs (a taken block is in `reachable` and never queued again) |
| RandSin.SourceSinkBlockIsPath | src/edu/cmu/cs/cs313/RandSinDetector.java:111-118 | a block that is both a source and a sink is a zero-length path, so the search answers true |
| RandSin.NoSourceOrNoSink | src/edu/cmu/cs/cs313/RandSinDetector.java:111-132 | with no source or no sink nothing is reachable, so the search answers false |
| RandSin.ReportsRandBeforeSin | src/edu/cmu/cs/cs313/RandSinDetector.java:65-94 | the method is reported exactly when a sink block is reachable from a source block of the classified graph |
| RandSin.RandomThenSinInOneBlock | src/edu/cmu/cs/cs313/RandSinDetector.java:111-118 | `Math.random()` then `Math.sin()` in one block flags the method without following any edge |
| RandSin.SinkOutOfReach | src/edu/cmu/cs/cs313/RandSinDetector.java:108-133 | a source in block 0 and a sink in block 2 with only the edge 0 -> 1 is not flagged |
| CycleDetection.Execute | src/edu/cmu/cs/cs313/CycleDetector.java:76-97 | the outcome of one removal order: a run that answers true ends by taking a block that was visited before it (taken earlier in the run or visited at its start); a run that answers false takes every block at most once, and none that was visited at its start |
| CycleDetection.QueueFollowedSuccessors | src/edu/cmu/cs/cs313/CycleDetector.java:86-94 | after the edge loop the work set is the old one plus the target of every outgoing edge that is not an unhandled-exception edge |
| CycleDetection.HasCycle | src/edu/cmu/cs/cs313/CycleDetector.java:71-99 | the run is the step semantics `Execute` applied to the removal order taken; for EVERY order, a cycle of followed edges reachable from the entry gives true; a followed-edge tree, or an entry with no followed edge, gives false; the loop takes at most one more block than the graph has reachable-candidate blocks (entry plus edge targets), so it terminates on cyclic graphs |
| CycleDetection.UnhandledEdgesIgnored | src/edu/cmu/cs/cs313/CycleDetector.java:91-94 | adding unhandled-exception edges changes the outcome of no removal order, so the set of possible results is unchanged |
| CycleDetection.SelfLoopIsCycle | src/edu/cmu/cs/cs313/CycleDetector.java:81-94 | a followed self-loop on a block reachable from the entry is a reachable cycle, so the traversal returns true on every order |
| CycleDetection.TriangleHasCycle | src/edu/cmu/cs/cs313/CycleDetector.java:71-99 | blocks 0 -> 1 -> 2 -> 0 have a reachable cycle, so the traversal returns true |
| CycleDetection.EntryExitIsTree | src/edu/cmu/cs/cs313/CycleDetector.java:71-99 | the two-block graph entry -> exit is a tree, so the traversal returns false |
| CycleDetection.UnhandledLoopIsTree | src/edu/cmu/cs/cs313/CycleDetector.java:91-94 | a loop closed only by an unhandled-exception edge leaves a tree of followed edges, so the traversal returns false |
| CycleDetection.DiamondReportsCycle | src/edu/cmu/cs/cs313/CycleDetector.java:76-98 | the diamond 0 -> 1, 0 -> 2, 1 -> 3, 2 -> 3 has no cycle, yet the removal order 0, 1, 3, 2, 3 is a run that answers true |
| CycleDetection.HasCycleCorrected | src/edu/cmu/cs/cs313/CycleDetector.java:62-99 | returns true iff some block reachable from the entry lies on a cycle of edges that are not unhandled-exception edges |
| CallLogging.FindTargetName | src/edu/cmu/cs/cs313/MethodCallLogger.java:131-157 | no preceding instruction gives None; a preceding ALOAD gives the table's name for (its slot, its own position); a preceding GETFIELD gives `Owner.field`, the field's name qualified by its owner type; every other preceding kind gives None |
| CallLogging.LookupUsesLoadPosition | src/edu/cmu/cs/cs313/MethodCallLogger.java:137-143 | when a slot holds `a` at the load's position and `b` at the call's position, the name is `a` |
| CallLogging.QualifiedFieldNamesUnique | src/edu/cmu/cs/cs313/MethodCallLogger.java:115-118 | owner-qualified field names identify their field: with dot-free field names, equal names mean equal owner and field |
| CallLogging.LocalAndFieldNamesDistinct | src/edu/cmu/cs/cs313/MethodCallLogger.java:115-118 | with dot-free variable names, a name resolved from a local never equals one resolved from a field |
| CallLogging.OnlyPriorInstructionMatters | src/edu/cmu/cs/cs313/MethodCallLogger.java:125-132 | the result depends only on the one instruction before the call (and the table), never on the call or anything earlier |
| CallLogging.LogMethodCallInstruction | src/edu/cmu/cs/cs313/MethodCallLogger.java:88-110 | a record is produced iff the instruction is a virtual or interface call; it carries the call's method name, its resolved receiver and the receiver's static type |
| CallLogging.CallLog | src/edu/cmu/cs/cs313/MethodCallLogger.java:70-83 | the method's records are exactly those of its virtual and interface calls, and there are exactly as many records as there are such calls |

## Left out

- All console output. This covers the trace print in `isSourceInstruction` and the "calling … on … of type …" line. The logger's line is modelled as the `CallRecord` it would print.
- Bug reporting (`BugReporter`, `BugInstance`, priorities) and the detector constructors. Only the boolean verdict that triggers a report is modelled. CycleDetector reports under the code `CS_RAND_BEFORE_SIN`, copied from the other detector. This is not modelled.
- The host framework:
  - the per-method `visitMethodCFG` callback dispatch;
  - BCEL constant-pool resolution, folded into the instruction operands (owner type as its printed name, method name, field name, slot);
  - CFG construction.
- ControlFlowPrinter is not part of this model. It only prints blocks, instructions, predecessors and successors.
- The BCEL local-variable table is an abstract map from (slot, position) to name. Scope ranges, and how BCEL finds the variable covering a position, are not modelled.
- CallLogging.FindTargetName: requires a table entry wherever a preceding ALOAD needs one. The source dereferences the missing entry as null, so that case has no defined result.
- CallLogging.CallLog: lists records in instruction-list order. The source visits blocks in an unspecified order, so the log's order is not promised. The contract states which records occur and how many there are in total. It does not state how often each individual record occurs.
- The CFG invariant "every block is reachable from the entry" is not assumed. No contract needs it.

## Findings

| source | as written | input that shows it | evidently intended | confidence | as-written member | corrected member |
|---|---|---|---|---|---|---|
| src/edu/cmu/cs/cs313/CycleDetector.java:76-98 | reports a cycle whenever a block leaves the work set a second time. A block reached along two paths is queued again if one path visits it first. | acyclic diamond 0 -> 1, 0 -> 2, 1 -> 3, 2 -> 3, with hash order 0, 1, 3, 2, 3 | true iff a cycle of followed edges is reachable from the entry (the detector's documented purpose) | high; not executed | CycleDetection.DiamondReportsCycle | CycleDetection.HasCycleCorrected |

On the traversal as written, one half of the iff still holds for every removal order: a reachable cycle always gives true (`HasCycle`). False results are guaranteed only on trees and on a lone entry block.

The receiver lookup uses `getPrev()`, the previous handle in the method's whole instruction list. That handle may lie in another basic block. So `FindTargetName` takes the method's instruction list and the call's index, not a block.
