# A verified model of the BehaviorTree.c engine

This project models the behaviour-tree engine of `BehaviorTree.c` and its data
model in `BehaviorTree.h`, and proves properties of that model.

A behaviour tree is built from nodes. A node has one of seven roles: Action,
Condition, Sequence, Selector, Parallel, Decorator or Memory. Action and
Condition nodes are leaves that call a callback. The other roles combine the
results of their children. A Decorator node carries a decorator, which is one
of Invert, Repeat, RepeatUntilSuccess, Conditional or Delay. Nodes and
decorators are reference counted, and children may be shared, so a tree is
really a directed acyclic graph.

The model works as follows.

- **Data model** (`types.dfy`). The two C enumerations are datatypes. The role
  and the decorator kind are stored as the raw `int` codes C stores, and
  `NodeTypeOf` / `DecoratorTypeOf` decode them, so an unknown code reaches the
  default branches just as in C. Nodes and decorators live in a `Heap` of two
  maps from ids to records, and a pointer becomes an id (`Option<NodeId>` when
  it may be NULL). The `delay`/`repeat` union is a single `uint32` cell,
  `param`. Node ids grow as nodes are created, so every child's id is below
  its parent's (`Ordered`). This is what makes execution and teardown
  terminate.
- **Construction and validation** (`validation.dfy`, `decorators.dfy`,
  `arena.dfy`). The class `Arena.Arena` holds the node and decorator tables
  and the next free ids. Its methods are `createBehaviorNode`, the decorator
  factories, the assignment `node->decorator = …` that callers use to attach a
  decorator, and `freeBehaviorTree`. Each method is proved against a function
  on heap values.
- **Execution** (`executor.dfy`, `executor_lemmas.dfy`). Every C routine is a
  method proved equal to a specification function of the same shape. The
  callbacks are an oracle `World<S> = (S, ActionId) -> (int, S)` over an
  abstract environment state, so stateful callbacks are covered. Every
  callback call and every `sleep` is recorded in a trace. `ExecutorLemmas`
  states what each role and decorator does in terms of that trace and the
  children's results. Executing a node requires that the node and every node
  reachable from it through the child arrays be allocated and runnable
  (`Types.RunnableFrom`). This is a sufficient condition, wider than what a
  run dereferences. Nodes the tree cannot reach may be anything, so a tree
  that shares children with a freed tree can still be run as long as nothing
  it reaches was freed (`Arena.SurvivingTreeRunnable`).
- **Teardown** (`teardown.dfy`, `teardown_lemmas.dfy`). `Teardown.FreeSpec` is
  `freeBehaviorTree` as a function on heaps. It yields `UseAfterFree` when the
  walk would dereference a node or decorator that is no longer allocated,
  whether an earlier step of the same walk freed it or an earlier teardown
  did. `TeardownLemmas` proves the counting law: a complete teardown lowers
  each node's count once per path from the argument to that node.

Results are C `int`s throughout, not booleans. A callback may return any
integer, which Action and Condition pass on unchanged. Sequence and Selector
test `!= 0`, Delay tests `== 1`, and Parallel counts zeros.

Several places in the code do not do what their comments say. The model
follows the code, and labels each divergence with a lemma:

- **Parallel.** The comment says the node succeeds when all children succeed.
  In the code, `successCount` counts the children that return 0, and the node
  returns 1 when that count equals `child_count`, that is, when every child
  returned 0 (`ExecutorLemmas.ParallelRunsEveryChild`,
  `ExecutorLemmas.ParallelFailsWhenAllChildrenSucceed`).
- **RepeatUntilSuccess.** The loop goes round again while the child returns
  non-zero. It stops at the first 0 and returns that 0
  (`ExecutorLemmas.RepeatUntilSuccessStopsAtFirstFailure`).
- **Node reference count.** The comment says the count starts at 1, but the
  code sets it to 0 (`Validation.Candidate`). A root that nobody adopted
  therefore survives a complete teardown with count -1
  (`TeardownLemmas.UnadoptedRootSurvives`).
- **Parallel validator.** Its comment asks for exactly one child, but the code
  accepts any positive number (`Validation.ParallelAcceptsSeveralChildren`).
- **Decorator field.** `createBehaviorNode` never writes the decorator field.
  The model treats it as absent at creation, and `AttachDecorator` sets it
  later.

## Model

| member | source | states |
|---|---|---|
| Types.NodeTypeCode | BehaviorTree.h:3-12 | each of the seven roles has an enumeration value in 0..6, and decoding that value gives the role back |
| Types.NodeTypeOf | BehaviorTree.h:3-12 | a stored integer names a role exactly when it lies in 0..6 |
| Types.DecoratorTypeCode | BehaviorTree.h:14-21 | each of the five decorator kinds has a value in 0..4, and decoding that value gives the kind back |
| Types.DecoratorTypeOf | BehaviorTree.h:14-21 | a stored integer names a decorator kind exactly when it lies in 0..4 |
| Types.RunnableEverywhere | BehaviorTree.c:36-65 | a heap in which every node can be executed can be executed from each of its pointers |
| Decorators.Empty | BehaviorTree.c:320-331 | the zeroed decorator has kind Invert (value 0), parameter 0 and reference count 0 |
| Decorators.Make | BehaviorTree.c:361-389 | createDecorator stores the kind as given and reference count 0; the parameter is read through the pointer only for Repeat, RepeatUntilSuccess and Delay, and is 0 otherwise |
| Decorators.FactoriesAgreeWithMake | BehaviorTree.c:333-359 | the Repeat, Delay, Conditional and empty factories build exactly what createDecorator builds for their kind; a Delay decorator's delay is its argument even though the factory writes the `repeat` member; every fresh decorator has count 0 |
| Validation.CheckLeafNode | BehaviorTree.c:414-446 | an Action or Condition node is accepted, as itself, exactly when it has a callback, no child array and count 0 |
| Validation.CheckCompositeNode | BehaviorTree.c:460-531 | a Sequence, Selector or Parallel node is accepted, as itself, exactly when it has a child array, no decorator, a non-zero count and no callback |
| Validation.CheckDecoratorNode | BehaviorTree.c:563-575 | a Decorator node is accepted, as itself, exactly when it has a child array and a count other than 0 and at most 3; its decorator and callback are not looked at |
| Validation.CheckMemoryNode | BehaviorTree.c:546-549 | a Memory node is always rejected |
| Validation.BehaviorNodeCheck | BehaviorTree.c:391-412 | the dispatch by role returns either NULL or the node it was given |
| Validation.Offered | BehaviorTree.c:293-315 | the children createBehaviorNode reads are the first `child_count` entries in order, or none when the count is not positive |
| Validation.Candidate | BehaviorTree.c:286-315 | the node built before validation has a child array exactly when the count is positive, holds the offered children in order, has reference count 0 and no decorator, and keeps the role, callback and count given |
| Validation.AcceptanceTable | BehaviorTree.c:391-575 | validation accepts exactly the table: Action and Condition need a callback and count 0; Sequence, Selector and Parallel need a positive count and no callback; a Decorator node needs 1 to 3 children; Memory and unknown roles never pass; an accepted node is the candidate itself |
| Validation.ParallelAcceptsSeveralChildren | BehaviorTree.c:504-531 | against its comment, the Parallel validator accepts a node with two children |
| Validation.AdmittedShape | BehaviorTree.c:391-575 | a node that passed validation has a known role other than Memory, and the child array and callback its role requires |
| Executor.Failures | BehaviorTree.c:261-268 | the tally of zero results never exceeds the number of children run |
| Executor.RunSpan | BehaviorTree.c:262-269 | running a span of children gives one result per child in the span |
| Executor.ExecuteNode | BehaviorTree.c:36-65 | the dispatch equals the specification Exec: NULL, Memory and unknown roles give 0, leaves call their callback, each other role goes to its routine |
| Executor.SequenceNode | BehaviorTree.c:78-90 | the loop over the children equals SeqFrom from child 0 |
| Executor.SelectorNode | BehaviorTree.c:102-114 | the loop over the children equals SelFrom from child 0 |
| Executor.ParallelNode | BehaviorTree.c:259-271 | the loop with its `successCount` tally equals running every child once and comparing the number of zero results with `child_count` |
| Executor.DecoratorNode | BehaviorTree.c:129-157 | the dispatch by decorator kind equals Decorate, including 0 for no children and for an unknown kind |
| Executor.InvertDecorator | BehaviorTree.c:171-174 | equals Decorate for an Invert decorator |
| Executor.RepeatDecorator | BehaviorTree.c:189-200 | the `while (repeat--)` loop equals Decorate for a Repeat decorator |
| Executor.RepeatUntilSuccessDecorator | BehaviorTree.c:202-213 | the `do … while (result)` loop equals Decorate for a RepeatUntilSuccess decorator, within the fuel bound |
| Executor.ConditionalDecorator | BehaviorTree.c:215-233 | equals Decorate for a Conditional decorator |
| Executor.DelayDecorator | BehaviorTree.c:235-246 | equals Decorate for a Delay decorator |
| ExecutorLemmas.SequenceSucceedsIffAllSucceed | BehaviorTree.c:78-90 | a Sequence returns 1 exactly when every child returns non-zero, and 0 otherwise |
| ExecutorLemmas.SequenceStopsAtFirstFailure | BehaviorTree.c:78-90 | a finished Sequence ran a left-to-right prefix of its children in which only the last may return 0, and nothing after that child was executed |
| ExecutorLemmas.SequenceFromPrefix | BehaviorTree.c:78-90 | conversely, any such prefix run is the Sequence's outcome, with the same trace and state |
| ExecutorLemmas.SelectorFailsIffAllFail | BehaviorTree.c:102-114 | a Selector returns 0 exactly when every child returns 0, and 1 otherwise |
| ExecutorLemmas.SelectorStopsAtFirstSuccess | BehaviorTree.c:102-114 | a finished Selector ran a left-to-right prefix in which only the last may return non-zero, and nothing after it |
| ExecutorLemmas.SelectorFromPrefix | BehaviorTree.c:102-114 | conversely, any such prefix run is the Selector's outcome |
| ExecutorLemmas.FailuresCountsAll | BehaviorTree.c:261-270 | the tally equals the number of results exactly when every result is 0 |
| ExecutorLemmas.ParallelRunsEveryChild | BehaviorTree.c:259-271 | Parallel executes every child exactly once, in order, with no short-circuit, and returns 1 exactly when the number of zero results equals `child_count` |
| ExecutorLemmas.ParallelFailsWhenAllChildrenSucceed | BehaviorTree.c:248-271 | against the comment, a Parallel node whose children all return non-zero returns 0 |
| ExecutorLemmas.InvertFlips | BehaviorTree.c:171-174 | Invert returns 1 exactly when child 0 returns 0, with child 0's trace and state |
| ExecutorLemmas.DelayPassesResultThrough | BehaviorTree.c:235-246 | Delay returns child 0's result unchanged, and records a sleep of its parameter after the child's trace only when that result is 1 |
| ExecutorLemmas.RepeatRunsChildNTimes | BehaviorTree.c:189-200 | Repeat(N) executes child 0 exactly N times, whatever it returns, and returns the last result |
| ExecutorLemmas.RepeatUntilSuccessStopsAtFirstFailure | BehaviorTree.c:202-213 | a finished RepeatUntilSuccess ran child 0 m+1 times, the first m returning non-zero and the last returning 0, and it returns 0 |
| ExecutorLemmas.RepeatUntilSuccessFromRuns | BehaviorTree.c:202-213 | conversely, such a run within the fuel bound is the decorator's outcome |
| ExecutorLemmas.ConditionalRunsOneBranch | BehaviorTree.c:215-233 | Conditional always runs child 0; with one child it returns that result; after non-zero it runs child 1; after 0 it runs child 2 when there are three children and returns 0 otherwise; children 1 and 2 are never both run |
| ExecutorLemmas.LeafCallsCallbackOnce | BehaviorTree.c:46-49 | an Action or Condition calls its callback once and returns exactly what it returned |
| ExecutorLemmas.ExecDefaults | BehaviorTree.c:36-65 | a NULL node, a Memory or unknown role, a decorator node with no children and an unknown decorator kind each give 0 and do nothing |
| Teardown.ReleaseSelf | BehaviorTree.c:612-629 | once its children are released, a node's own release returns 1 unless its decorator link points at a freed decorator |
| Teardown.ReleaseSelfShrinks | BehaviorTree.c:612-628 | releasing a node touches no other node and only lowers counts, frees records or clears the link it points at |
| Teardown.FreeSpec | BehaviorTree.c:591-630 | a teardown returns 0 or 1, leaves the heap ordered, only removes records or changes their counts and decorator links, and leaves every node with a larger id than the argument untouched |
| Teardown.FreeKids | BehaviorTree.c:599-610 | the child loop has the same guarantees, bounded by its parent's id |
| Teardown.FreeSpecAfterKids | BehaviorTree.c:599-629 | once every child is released with 1, the node is still allocated and the teardown is its own release |
| TeardownLemmas.FreeReleasesOncePerPath | BehaviorTree.c:591-630 | a complete teardown lowers each node's count by the number of paths to it from the argument, frees it exactly when that number is positive and its count equals it, cannot complete when a positive count is below that number (a later path would reach a freed node), and leaves every unreachable node as it was |
| TeardownLemmas.UnadoptedRootSurvives | BehaviorTree.c:623-628 | a root with count 0 (as createBehaviorNode leaves it, BehaviorTree.c line 289) survives a complete teardown with count -1 and is never freed |
| TeardownLemmas.FreeOutcomeAtRoot | BehaviorTree.c:594-610 | NULL gives 0 and changes nothing; a result of 0 leaves the argument's own record untouched; a result of 1 means every child pointer of the argument was non-NULL |
| TeardownLemmas.CompleteKidsNonNull | BehaviorTree.c:599-604 | a child loop that finished with 1 met no NULL child |
| TeardownLemmas.ReleaseSelfCounts | BehaviorTree.c:612-628 | one release lowers the decorator's count by one and frees it, clearing the link, exactly when it was 1 (a decorator at 0 goes to -1 and stays); the node's own count drops by one and it is freed exactly when it was 1 |
| Arena.AdoptCounts | BehaviorTree.c:303-310 | adopting a child array raises each node's count by the number of times the array points at it and changes nothing else |
| Arena.ShrinksKeepsWellFormed | BehaviorTree.c:591-630 | teardown keeps every surviving node ordered and in a shape validation accepted |
| Arena.SurvivingTreeRunnable | BehaviorTree.c:36-65 | after any releases elsewhere in the heap, a teardown of another tree included, a tree stays executable as long as every node it reaches is still allocated with its decorator |
| Arena.SharedTreeSurvivesTeardown | BehaviorTree.c:591-630 | freeing a Sequence that shares a leaf with a Selector frees its other leaf and leaves the unadopted Sequence at count -1 with a dangling child: the heap is no longer runnable everywhere and the Sequence cannot be executed, but the Selector still can |
| Arena.ClosedHeapRunnable | BehaviorTree.c:36-246 | a well-formed heap whose child pointers are live and whose decorator nodes have a live decorator (with a positive count for Repeat) can be executed |
| Arena.CopyChildren | BehaviorTree.c:303-310 | the copy loop produces the offered children in order and the table with their counts raised |
| Arena.Arena.constructor | BehaviorTree.c:273-389 | an empty arena is valid |
| Arena.Arena.CreateBehaviorNode | BehaviorTree.c:273-318 | the children's counts are raised first; an accepted node is stored under a fresh id with count 0, no decorator and a copy of the children; a rejected node is not stored, but its children's counts stay raised; decorators are untouched |
| Arena.Arena.AdoptChildren | BehaviorTree.c:293-315 | the copy step of createBehaviorNode keeps the arena valid and raises each offered child's count once per offer |
| Arena.Arena.CreateEmptyDecorator | BehaviorTree.c:320-331 | a fresh id holds the zeroed decorator; nothing else changes |
| Arena.Arena.CreateRepeatDecorator | BehaviorTree.c:333-339 | a fresh id holds a Repeat decorator with the given count; nothing else changes |
| Arena.Arena.CreateDelayDecorator | BehaviorTree.c:341-347 | a fresh id holds a Delay decorator whose delay is the argument; nothing else changes |
| Arena.Arena.CreateConditionalDecorator | BehaviorTree.c:349-359 | a fresh id holds a Conditional decorator; nothing else changes |
| Arena.Arena.CreateDecorator | BehaviorTree.c:361-389 | a fresh id holds what createDecorator builds; the parameter pointer must be non-NULL only for the kinds that read it |
| Arena.Arena.AttachDecorator | BehaviorTree.h:38 | assigning a node's decorator field, to NULL or to a decorator a factory has returned, changes that field only |
| Arena.Arena.FreeBehaviorTree | BehaviorTree.c:591-630 | the recursive teardown mutates the arena into exactly the heap of FreeSpec and returns its result, keeping the arena valid |
| Arena.Arena.FreeChildren | BehaviorTree.c:599-610 | the child loop mutates the arena into exactly the heap of FreeKids and returns its result |
| Arena.Arena.ReleaseNode | BehaviorTree.c:612-628 | the decorator and node decrements give exactly the heap of ReleaseSelf |

## Left out

- main.c is not part of this model. It builds a fixed demonstration tree, and its callbacks print and keep a static counter. One of its calls passes a three-element child array with count 2, so the third child is neither copied nor adopted; `Validation.Offered` captures this.
- `handleMemoryError` and the malloc-failure branches are left out: allocation always succeeds. `handleMemoryError` ends the process, and `executeNode(NULL)` and a decorator node with no children both call it before their `return 0`. The model keeps only the `return 0`.
- `printf` and `fprintf` logging are left out, because they have no effect on the engine's state.
- The real time spent in `sleep(delay)` is not modelled. A pause is recorded as a `Slept(delay)` trace event.
- The bodies of the callbacks are not modelled. They are an abstract oracle over an abstract state.
- Executor.RepeatUntilSuccessDecorator: the C loop has no bound. The model allows it `fuel` further rounds, and a longer run yields `OutOfFuel`, so its results hold only for runs that end within that bound.
- Repeat with count 0 is excluded, for the decorators reachable from the executed node, by `Types.RunnableFrom`, because C then returns an uninitialised variable.
- Executions that `Types.RunnableFrom` rules out are not covered: a reachable node with a freed or dangling child that control never reaches. Examples are a child after the one that stops a Sequence or a Selector, children 1 and above of an Invert, Repeat, RepeatUntilSuccess or Delay node, and the branch a Conditional does not take. C runs these without touching the freed child, but the model requires every reachable child pointer to be live.
- `Teardown.FreeSpec` walks a node's whole child array, while C stops at `child_count`. The two agree on every node `createBehaviorNode` stores (`Types.Shaped`), but the teardown results are stated for all ordered heaps, including heaps with nodes C cannot build.
- Signed overflow of the `int` reference counts is not modelled; counts are unbounded integers.
- A node that validation rejects is not stored, because C leaks it and no pointer to it remains. The references it took to its children stay taken, as in C.
- The validators' `node == NULL` checks are not modelled: `createBehaviorNode` always passes a non-NULL node.
- Pointers are ids and `free` removes an id. A freed id is never reused, so dangling-pointer reuse of memory is not modelled. A walk that would dereference a record that is no longer allocated yields `UseAfterFree`, and `Arena.Arena.FreeBehaviorTree` requires that this does not happen.
- The dead assignment `node = NULL` to a local variable after `free` is not modelled, because it has no effect.
- TeardownLemmas.FreeReleasesOncePerPath: the per-path counting law is stated for complete teardowns (result 1) only. For a walk stopped by a NULL child or a failed child, the model states that the heap shrank (`Teardown.FreeSpec`) and that the argument's own record is untouched (`TeardownLemmas.FreeOutcomeAtRoot`).
- Decorator reference counts are stated one release at a time (`TeardownLemmas.ReleaseSelfCounts`), not summed over a whole walk.
- There is no concurrency: a Parallel node runs its children one after another.
