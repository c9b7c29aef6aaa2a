# GOAP planner, modelled in Dafny

This project models the planner of a goal-oriented action planning (GOAP) library
for game agents (`Assets/Planner`). A *variable* is one aspect of the game state,
read for an agent through a probe and cached for the most recent agent. A *goal*
asks for one variable to have one value; goals are interned in a table keyed by
(variable, value). An *action* has a set of goals as effects and a list of goals
as preconditions, and each goal lists the actions that achieve it.

`Planner.Plan` is a backward-chaining best-first search over immutable *partial
plans*. Each partial plan holds:

- the actions chosen so far, as a persistent linked list;
- the subgoals still open;
- the goals already true that it relies on (the *protected* goals, keyed by
  variable);
- its cost.

Nodes wait in a binary min-heap keyed by cost plus the number of open subgoals
(the root is queued at 0).
A popped node with no subgoals is a plan. A node whose next subgoal's variable is
protected is dropped. Any other node is expanded once for each achiever of that
subgoal. Expanding for an achiever does four things:

- the achiever is put in front of the plan;
- the subgoals it achieves are filtered out by the structure-sharing filter `Where`,
  which as written can keep some of them;
- its preconditions that hold are protected;
- its other preconditions become subgoals.

Modules, one per source file or group of files:

| module | file | models |
|---|---|---|
| `Wrappers` | `wrappers.dfy` | `Option`, `Result` and the exceptions the source throws |
| `LinkedLists` | `llist.dfy` | `LList.cs`: cells, `Where` (as written and corrected), `ToArray` |
| `MinQueues` | `min_queue.dfy` | `MinQueue.cs`: the heap as a class over a sequence, with `MoveDown` as written and corrected |
| `Uids` | `uids.dfy` | `UIDBase.cs`: the `uint` uid counter as an explicit `UidSource` object |
| `Variables` | `variables.dfy` | `Variable.cs`: the cached probe and the `AllVariables` registry |
| `Domain` | `domain.dfy` | `Goal.cs` and `Action.cs`: goals, the interning table, actions and the achiever graph |
| `PartialPlans` | `partial_plan.dfy` | `PartialPlan.cs` and the protected-goal dictionary |
| `Planning` | `planner.dfy` | `Planner.cs`: `Plan`, `SortPreconditions`, `TotalGoalCost` |

The planner's main guarantees (`Planning.Plan`):

- A returned plan is non-empty and has fewer than `timeout` actions.
- Its last action is an achiever of the goal. Whenever the goal's achievers all have
  the goal as an effect (which `Action.Achieves` maintains), that last action has
  the goal among its effects.
- The only failure is the protected dictionary's duplicate-key exception. It cannot
  happen when the goal lies in a set of interned goals that is closed under
  "preconditions of achievers".

To prove this, every queued node is shown to be sound:

- its protected goals hold;
- it is the root, or its last action achieves the goal and none of its open
  subgoals holds.

Static state (`nextUid`, `AllVariables`, each `GoalTable`, `Timeout`) becomes explicit
objects or parameters. The game state is fixed during one planning call, so "goal
holds for agent" is the fixed predicate `Domain.Goal.HoldsFor`. Costs and priorities
are integers.

The root partial plan has cost 1 (Planner.cs:27) although it holds no action,
contrary to the `Cost` doc comment "cumulative cost for actions in plan"
(PartialPlan.cs:27-31); the model keeps the 1.

The planner calls `Where` as written (Planner.cs:57), and so does the model: a
child may keep subgoals its action achieves (see Findings). The planner's
guarantees hold all the same, because `Where` never invents a subgoal
(`LinkedLists.WhereMembers`). `LinkedLists.WhereFixed` is the definition the doc
comment of `Where` asks for, with its properties proved.

## Model

| member | source | states |
|---|---|---|
| LinkedLists.New | Assets/Planner/LList.cs:19-27 | `first + rest` builds a fresh cell whose `First` and `Rest` are exactly the arguments, whose elements are `first` followed by those of `rest`, and which is distinct from every cell allocated before |
| LinkedLists.Singleton | Assets/Planner/LList.cs:25 | the implicit conversion builds a fresh one-cell list whose `Rest` is null |
| LinkedLists.Where | Assets/Planner/LList.cs:36-45 | `Where` as written; its own contract says only that allocation moves forward, and the lemmas below state its behaviour |
| LinkedLists.WhereNoneKept | Assets/Planner/LList.cs:38-44 | when no element is kept, `Where` returns `tail` itself, whatever `tail` is (a null list included) |
| LinkedLists.WhereOrigin | Assets/Planner/LList.cs:36-45 | the result is `tail`, an original cell of the list, or a freshly allocated cell; `Where` never alters an existing cell |
| LinkedLists.WhereShape | Assets/Planner/LList.cs:36-45 | with some element kept and `tail` not a cell of the list, the result holds the kept elements before the last kept one, followed by the original suffix from the last kept element on; `tail` is lost |
| LinkedLists.WhereReturnsSelf | Assets/Planner/LList.cs:42-43 | `Where` returns the original cell exactly when its element is kept and no later element is |
| LinkedLists.WhereNoTail | Assets/Planner/LList.cs:36-45 | with a null tail, the result is a subsequence of the input in original order and has exactly the input's kept elements |
| LinkedLists.WhereLastKept | Assets/Planner/LList.cs:40-44 | with a null tail and the last element kept, the result is exactly the filtered list |
| LinkedLists.WhereKeepsRejectedElement | Assets/Planner/LList.cs:32-45 | counterexample to the doc comment: `[a, b]` with only `a` kept returns the input list itself, `b` included |
| LinkedLists.WhereDropsTail | Assets/Planner/LList.cs:32-45 | counterexample: a kept last element loses a non-null `tail` |
| LinkedLists.WhereCopiesKeptList | Assets/Planner/LList.cs:42-44 | with no tail, a list of two or more elements that are all kept is not returned as is, although the result has the same elements (a one-element list is returned as is, by `WhereReturnsSelf`) |
| LinkedLists.WhereMembers | Assets/Planner/LList.cs:36-45 | every element of the result is an element of the list or of `tail` |
| LinkedLists.WhereFixed | Assets/Planner/LList.cs:32-45 | `Where` comparing with `list.Rest` as the doc comment intends; behaviour stated by the two lemmas below |
| LinkedLists.WhereFixedFilters | Assets/Planner/LList.cs:32-34 | the corrected `Where` returns exactly the kept elements, in order, followed by `tail` |
| LinkedLists.WhereFixedShares | Assets/Planner/LList.cs:32-34 | the corrected `Where` never alters a cell, and it returns the input list itself exactly when every element is kept and there is no tail |
| LinkedLists.ToArray | Assets/Planner/LList.cs:50-63 | the array is newly allocated, its length is the number of cells, and entry `i` is the `i`-th element |
| MinQueues.HeapRootIsMin | Assets/Planner/MinQueue.cs:37-40 | in heap order, the root pair has the least priority |
| MinQueues.ReplaceRoot | Assets/Planner/MinQueue.cs:40-43 | moving the last pair to the root and dropping the old root removes exactly the root pair and leaves heap order broken only below the root |
| MinQueues.Swap | Assets/Planner/MinQueue.cs:74-75 | exchanges the two entries, leaves every other entry, and keeps the multiset |
| MinQueues.SiftUpStep | Assets/Planner/MinQueue.cs:50-56 | one round of `MoveUp` moves the one possible heap-order violation up to the parent |
| MinQueues.Smallest | Assets/Planner/MinQueue.cs:62-66 | the position chosen is `position` itself or one of its children with a strictly smaller priority |
| MinQueues.SmallestIsLeast | Assets/Planner/MinQueue.cs:62-66 | the chosen position's priority is no greater than either child's |
| MinQueues.SiftDownStep | Assets/Planner/MinQueue.cs:61-71 | when no child is smaller the heap is ordered; otherwise the swap moves the one possible violation down to the child |
| MinQueues.SmallestAfterSwap | Assets/Planner/MinQueue.cs:67-70 | after the swap, `position` holds the least of the three entries |
| MinQueues.MoveDownAsWritten | Assets/Planner/MinQueue.cs:59-72 | `MoveDown` as written makes at most one swap: the result is the input or the input with `position` swapped with its smaller child, with the same pairs |
| MinQueues.RemoveMinAsWritten | Assets/Planner/MinQueue.cs:37-46 | `RemoveMin` as written: the empty queue throws `InvalidOperationException`, otherwise the root pair is returned and exactly that pair is gone from what is left |
| MinQueues.RemoveMinAsWrittenStep | Assets/Planner/MinQueue.cs:40-44 | one removal as written on a given layout: the last pair replaces the root and is swapped at most once |
| MinQueues.FirstRemoval | Assets/Planner/MinQueue.cs:37-46 | the first removal from the layout 1..7 returns 1 and leaves 7 above 4 and 5 |
| MinQueues.SecondRemoval | Assets/Planner/MinQueue.cs:37-46 | the second removal returns 2 |
| MinQueues.ThirdAndFourthRemovals | Assets/Planner/MinQueue.cs:37-46 | the third removal returns 3 and the fourth returns 5, leaving 4 |
| MinQueues.LayoutsOrder | Assets/Planner/MinQueue.cs:27-32 | the layout built by adding 1..7 is in heap order, and the layout after one removal as written is not |
| MinQueues.RemoveMinAsWrittenMissesMinimum | Assets/Planner/MinQueue.cs:59-72 | counterexample: starting from a heap, the source's `RemoveMin` breaks heap order and later returns 5 while 4 is still queued |
| MinQueues.MinQueue.constructor | Assets/Planner/MinQueue.cs:13 | a new queue is empty and in heap order |
| MinQueues.MinQueue.IsEmpty | Assets/Planner/MinQueue.cs:14 | true exactly when the queue holds no pair |
| MinQueues.MinQueue.Parent | Assets/Planner/MinQueue.cs:16 | with truncating division, a positive position's parent is an earlier position; the root is its own parent |
| MinQueues.MinQueue.LeftChild | Assets/Planner/MinQueue.cs:17 | the left child of `p >= 0` is a later position whose parent is `p` |
| MinQueues.MinQueue.RightChild | Assets/Planner/MinQueue.cs:18 | the right child follows the left child and has the same parent |
| MinQueues.MinQueue.Add | Assets/Planner/MinQueue.cs:27-32 | the queue gains exactly the pair (priority, element) and stays in heap order |
| MinQueues.MinQueue.RemoveMin | Assets/Planner/MinQueue.cs:37-46 | an empty queue throws `InvalidOperationException` and is unchanged; otherwise exactly one pair is removed and returned, and its priority is no greater than any pair left; heap order is kept |
| MinQueues.MinQueue.MoveUp | Assets/Planner/MinQueue.cs:48-57 | from one violation at `position`, restores heap order by swaps only; terminates as `position` decreases |
| MinQueues.MinQueue.MoveDown | Assets/Planner/MinQueue.cs:59-72 | corrected: from one violation below `position`, restores heap order by swaps only; terminates as `position` increases within the queue |
| MinQueues.MinQueue.SwapData | Assets/Planner/MinQueue.cs:74-75 | the new data is the old data with exactly the two entries exchanged |
| Uids.Successor | Assets/Planner/UIDBase.cs:11 | `uint` increment: one more, except that the largest `uint` wraps to 0 |
| Uids.UidSource.constructor | Assets/Planner/UIDBase.cs:10 | the static counter starts at 0 |
| Uids.UidSource.Issue | Assets/Planner/UIDBase.cs:11 | the new object gets the current counter value, and the counter moves on by one |
| Uids.Issued | Assets/Planner/UIDBase.cs:10-11 | the uids of `n` objects created one after the other, one per object |
| Uids.IssuedIncreasing | Assets/Planner/UIDBase.cs:10-11 | until the counter wraps, uids are consecutive, so distinct and strictly increasing in creation order |
| Uids.IssuedWraps | Assets/Planner/UIDBase.cs:10-11 | past 2^32 objects the counter wraps: the object after the one with the largest uid gets uid 0, the uid of the first object issued from a fresh counter |
| Uids.CompareTo | Assets/Planner/UIDBase.cs:17 | -1, 0 or 1 with the sign of the comparison of the two uids |
| Uids.CompareToObject | Assets/Planner/UIDBase.cs:12-15 | always throws `NotImplementedException` |
| Variables.Variable.constructor | Assets/Planner/Variable.cs:38-42 | the variable takes the next uid and starts with nothing cached; the registry gains exactly this variable, at the end |
| Variables.Variable.ValueFor | Assets/Planner/Variable.cs:65-74 | probes the engine only for an agent other than the cached one; repeated calls for the same agent return the cached value; a consistent cache stays consistent and then gives the engine's value for a real agent; `null` returns the stale value |
| Variables.VariableRegistry.constructor | Assets/Planner/Variable.cs:21 | the registry starts empty |
| Variables.VariableRegistry.InvalidateCachedValues | Assets/Planner/Variable.cs:32-36 | every registered variable's cached agent becomes null and its cached value is untouched, so every cache is consistent |
| Domain.Goal.constructor | Assets/Planner/Goal.cs:72-76 | a new goal takes the next uid, has the given variable and value, no achievers, and is valid for every agent |
| Domain.Goal.Cost | Assets/Planner/Goal.cs:37 | every goal costs 1 |
| Domain.Goal.IsTrueFor | Assets/Planner/Goal.cs:66 | for every agent, `null` included, true exactly when the variable's value from `ValueFor` equals the goal's value: the engine's value on a cache miss, the old cached value on a hit (the stale one for `null` after invalidation); with a consistent cache and a real agent, exactly when the goal holds; the cache stays consistent |
| Domain.Goal.ValidWhen | Assets/Planner/Goal.cs:99-103 | replaces the validity predicate, changes nothing else, and returns the goal itself |
| Domain.GoalTable.constructor | Assets/Planner/Goal.cs:92 | the table starts empty |
| Domain.GoalTable.Find | Assets/Planner/Goal.cs:81-87 | a pair already in the table gets the same goal back with nothing changed; a new pair gets a fresh goal with that variable and value, recorded as the only new entry |
| Domain.FromBool | Assets/Planner/Goal.cs:42 | a Boolean variable converts to the interned goal asking for it to be true, as `Find(b, true)`: the table changes at most by recording that goal, and the uid counter moves on only when the goal is new |
| Domain.TableInterns | Assets/Planner/Goal.cs:81-92 | the goals of the table are interned: a variable and a value determine at most one goal |
| Domain.NotEquals | Assets/Planner/Variable.cs:91 | `v != value` always throws `NotImplementedException` |
| Domain.Action.constructor | Assets/Planner/Action.cs:34-40 | a new action has the given name and implementation, no effects, no preconditions and cost 1 |
| Domain.Action.Achieves | Assets/Planner/Action.cs:42-50 | the effects gain exactly the given goals; each goal's achievers gain this action once per occurrence in the argument; a goal whose achievers all had it as an effect keeps that property; returns the action |
| Domain.Action.AddEffect | Assets/Planner/Action.cs:46-47 | one iteration: the goal joins the effects and the action is appended to the goal's achievers |
| Domain.Action.Needs | Assets/Planner/Action.cs:52-56 | replaces the preconditions wholesale and returns the action |
| PartialPlans.PartialPlanStores | Assets/Planner/PartialPlan.cs:33-39 | the constructor stores its four arguments, and a node is determined by them, so it never changes once built |
| PartialPlans.DictionaryAdd | Assets/Planner/Planner.cs:103 | adding succeeds exactly when the key is absent or already holds the same goal; the result holds the key with that goal and every old entry; otherwise it fails with a duplicate key |
| PartialPlans.ProtectionAdds | Assets/Planner/Planner.cs:102-103 | protecting a precondition that holds, and agrees with what is protected, extends the protection by it |
| PartialPlans.ProtectionSkips | Assets/Planner/Planner.cs:104-108 | a precondition that does not hold protects nothing |
| PartialPlans.ExtendedProtectsTrueGoals | Assets/Planner/Planner.cs:100-110 | protecting the true preconditions keeps every protected goal true and adds only preconditions |
| PartialPlans.ConflictFree | Assets/Planner/Planner.cs:103 | with interned goals and true protected goals, a true precondition never conflicts with a protected goal |
| Planning.SortMet | Assets/Planner/Planner.cs:102-103 | one more precondition that holds extends the protection and leaves the subgoals and the estimate alone |
| Planning.SortUnmet | Assets/Planner/Planner.cs:104-108 | one more precondition that does not hold is pushed in front of the subgoals and adds 1 to the estimate |
| Planning.NoConflict | Assets/Planner/Planner.cs:100-103 | while sorting, a precondition that holds never conflicts with what is protected so far |
| Planning.TotalGoalCost | Assets/Planner/Planner.cs:116-122 | the estimate is the number of subgoals, since every goal costs 1 |
| Planning.SortPreconditions | Assets/Planner/Planner.cs:94-111 | the preconditions that hold are protected under their variables, and nothing else changes in the protection; the others end up in reverse order in front of the subgoals, each adding 1 to the estimate; the only failure is a duplicate key, impossible when the protected goals hold and goals are interned |
| Planning.Elaborate | Assets/Planner/Planner.cs:56-75 | the child puts the action in front of the plan and adds its cost; its subgoals are the unmet preconditions, reversed, followed by what `Where` as written returns for the rest of the parent's subgoals and the action's effects; the met preconditions are protected; its priority is its cost plus its number of subgoals |
| Planning.ChildSubgoal | Assets/Planner/Planner.cs:57-64 | every subgoal of a child is an unmet precondition of its action or a later subgoal of the parent |
| Planning.ChildSound | Assets/Planner/Planner.cs:54-72 | the child of a sound node by an achiever of its first subgoal is sound, with one more action |
| Planning.ChildWithinUniverse | Assets/Planner/Planner.cs:54-64 | in a closed universe, children of a node within it stay within it |
| Planning.AllSoundShrinks | Assets/Planner/Planner.cs:37 | removing nodes from the queue keeps every queued node sound |
| Planning.AllSoundGrows | Assets/Planner/Planner.cs:75 | queueing a sound node keeps every queued node sound |
| Planning.ChildQueued | Assets/Planner/Planner.cs:75 | queueing the child of a sound node keeps every queued node sound |
| Planning.PopBest | Assets/Planner/Planner.cs:36-37 | "get the best partial plan": the returned entry was in the queue with a priority no greater than any queued entry's, exactly that entry is removed and the others stay; the removed node is sound, and so are the nodes left, one action further |
| Planning.SoundComplete | Assets/Planner/Planner.cs:38-40 | a sound node with no subgoals has at least one action, and its last action is an achiever of the goal |
| Planning.Finish | Assets/Planner/Planner.cs:38-40 | the result is the node's action list in stored order, with no reversal: non-empty, within the bound, ending in an achiever of the goal |
| Planning.ProtectedDiffers | Assets/Planner/Planner.cs:47-49 | the assertion holds: the first subgoal of a queued node is never the goal protected for its variable |
| Planning.RootOnly | Assets/Planner/Planner.cs:27 | when the goal has no achiever, the only sound node is the root, whose first subgoal is the goal |
| Planning.Expand | Assets/Planner/Planner.cs:54-76 | queues exactly one child per achiever of the first subgoal and keeps every queued node sound; a conflict is impossible in a closed universe of interned goals; when the goal has no achiever nothing is queued |
| Planning.Start | Assets/Planner/Planner.cs:24-27 | the queue holds only the root: no actions, the goal as its only subgoal, nothing protected, cost 1, priority 0 |
| Planning.FinishedSolves | Assets/Planner/Planner.cs:38-40 | a finished plan within the step count solves the goal within the budget |
| Planning.Plan | Assets/Planner/Planner.cs:22-81 | a returned plan is non-empty, has fewer than `timeout` actions, ends in an achiever of the goal, and so has the goal as an effect when the achievers are wired; a budget of zero or less, or a goal without achievers, returns no plan; the only failure is a duplicate key, impossible for a goal in a closed universe of interned goals |

## Left out

- Executive.cs, the coroutine loop that picks goals and runs plans, is not part of this model. Its reading of the game state between calls is why the state is a fixed function during one call.
- Floating-point costs and priorities are integers, so non-integer action costs (`Action.Cost` is a public mutable `float`, Action.cs:40) and rounding are not modelled. The model's `cost: int` admits any integer.
- `Variable<T>`, `Goal<T>` and the per-type goal tables are collapsed to one value type `V`. A plan over variables of several types is modelled by an instance whose `V` is the sum (a datatype with one constructor per type) of the value types.
- `ImmutableSortedDictionary` is a `map`. The order of its keys (by uid) is not modelled, so the uid wrap-around does not reach the dictionary.
- The `Plan` wrapper class around the action array and its execution are left out. The planner returns `Option<seq<Action>>`, where `None` stands for `null`.
- `ToString`, `StringifyValue` and `DebuggerDisplay` are left out because they are diagnostics. The `Debug.Assert` at Planner.cs:49 is proved (`Planning.ProtectedDiffers`) rather than checked at run time.
- The operator `v == value` (Variable.cs:89) is `Domain.GoalTable.Find` on an explicit table.
- `Action.Implementation` is an opaque `Behavior` object that is never run, and `valueInEngine` is a fixed function `Agent? -> V`.
- The static `Timeout` is the parameter `timeout` of `Planning.Plan`, whose default is `Planning.DefaultTimeout`.
- Planning.SortPreconditions: the precondition test uses `Goal.HoldsFor`, the value `Goal.IsTrueFor` returns for a real agent with a consistent cache (`Domain.Goal.IsTrueFor`). The cache updates made while planning are not modelled.
- Planning.Plan: the contract states what a returned plan satisfies, and that no plan comes back for a zero budget or a goal without achievers. It does not state which plan best-first order returns, nor that no plan means none exists within the budget.
- Planning.Expand: the contract states the number of children and their soundness. The exact children are stated per achiever by `Planning.Elaborate`.
- LinkedLists.Where and LinkedLists.WhereFixed: their own contracts only say that allocation moves forward. Their behaviour is stated by the lemmas named after them.
- The planner's queue uses the corrected `MinQueues.MinQueue.MoveDown` (see Findings). With the code as written, the node popped first need not be the cheapest one queued. The planner's `Where` is the one as written.
- Reference identity of list cells is modelled by a per-cell `id` drawn from an allocation counter that is threaded through the allocating functions.

## Findings

| source | as written | input that shows it | evidently intended | confidence | as-written member | corrected member |
|---|---|---|---|---|---|---|
| Assets/Planner/LList.cs:42 | the cell is reused when the filtered rest is the `tail` object, so everything after the last kept element stays and `tail` is dropped | `[a, b]` with only `a` kept and a null tail returns `[a, b]` | reuse the cell when the filtered rest is `list.Rest`, giving exactly the kept elements followed by `tail` | high; not executed | LinkedLists.WhereKeepsRejectedElement | LinkedLists.WhereFixedFilters |
| Assets/Planner/MinQueue.cs:67-70 | after a swap, `goto again` restarts at the same `position`, so an entry moves down at most one level | add priorities 1..7 in order, then remove four times: the fourth removal returns 5 while 4 is still queued | continue from the child the entry was swapped into | high; not executed | MinQueues.RemoveMinAsWrittenMissesMinimum | MinQueues.MinQueue.RemoveMin |
