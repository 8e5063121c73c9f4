# Behaviour-tree engine of the cat-and-mouse game

This project models the behaviour-tree engine in `BehaviorTreeController.cs`.
The repository never runs the engine: the cat's `Start` builds a tree into a
local variable and discards it, and no controller is ever built or ticked. The
engine has three parts:

- the result vocabulary `NodeState` (Running, Success, Failure);
- four node kinds:
  - `Sequence`: AND over its children, left to right, stopping at the first child that does not succeed;
  - `Fallback`: OR over its children, left to right, stopping at the first child that does not fail;
  - `Condition`: a leaf that maps a boolean closure to Success or Failure;
  - `Action`: a leaf that runs a closure and reports Success;
- `BehaviorTreeController`: the driver. It holds a root, an `isRunning` flag and a `timer`. It ticks the root at most once per call, when the time built up reaches `tickInterval` (0.5 s).

Leaf closures are external code. In the model a leaf holds an identifier. A
`Host` gives the meaning of each identifier over a world `W`:

- `test(p, w)` is what predicate `p` answers in world `w`;
- `sensed(p, w)` is the world after asking predicate `p`, because a predicate
  may write the state it captures (the cat's predicates set `mouseFound` and
  `mouseInAttackRange`);
- `run(e, w)` is the world after effect `e`.

One tick of a tree returns an `Outcome` with three parts: the state, the trace
of leaves visited in order (`Tested(p, answer)` or `Ran(e)`), and the world
afterwards. Each leaf is ticked in the world the previous leaf left, so a
Condition ticked after another leaf sees that leaf's writes, as the closures
would in C#.

Files:

- `behavior_tree.dfy`: module `BehaviorTree`. It holds the datatypes and the
  tick of each node kind as functions. It also holds `Evaluate`, the source's
  early-return `foreach` loops as a method, proved equal to the functions.
- `tree_properties.dfy`: module `TreeProperties`. It defines a reference
  semantics for composites: `Steps` ticks every child with no short-circuit,
  and `Decide` picks the deciding child. It also defines the replay of a trace
  and the in-order leaf list. Lemmas connect all of these to the tick.
- `controller.dfy`: module `Controller`. It holds the driver class and a
  cadence scenario.
- `cat_tree.dfy`: module `CatTree`. It holds the shape of the tree that
  `CatBehaviour.cs` builds and throws away, as a concrete instance.

## Model

| member | source | states |
|---|---|---|
| BehaviorTree.Tick | Assets/Scripts/BehaviorTreeController.cs:94-124 | No node ever reports Running. A Condition asks its predicate once, reports Success iff it holds, records one test, and leaves the world as the predicate left it. An Action runs its effect once, records one run and always reports Success, with no failure path. |
| BehaviorTree.SequenceTick | Assets/Scripts/BehaviorTreeController.cs:80-91 | A Sequence never reports Running. An empty Sequence reports Success, visits nothing and leaves the world unchanged. |
| BehaviorTree.FallbackTick | Assets/Scripts/BehaviorTreeController.cs:57-68 | A Fallback never reports Running. An empty Fallback reports Failure, visits nothing and leaves the world unchanged. |
| BehaviorTree.Evaluate | Assets/Scripts/BehaviorTreeController.cs:48-92 | The loop-with-early-return evaluator gives exactly the state, trace and world of the recursive tick for every tree. |
| TreeProperties.Steps | Assets/Scripts/BehaviorTreeController.cs:59-61 | Reference for both composite loops (the Fallback loop at :59-61 and the Sequence loop at :82-84): child k is ticked in the world left by child k-1. |
| TreeProperties.SequenceDecides | Assets/Scripts/BehaviorTreeController.cs:80-91 | A Sequence reports the state of its first child that does not succeed. Its trace is the traces of the children up to and including that child, in order, and its world is the one that child left. If every child succeeds, it reports Success with every child's trace. |
| TreeProperties.FallbackDecides | Assets/Scripts/BehaviorTreeController.cs:57-68 | A Fallback reports the state of its first child that does not fail. Its trace is the traces of the children up to and including that child, and its world is the one that child left. If every child fails, it reports Failure with every child's trace. |
| TreeProperties.SequenceSucceedsIffAllSucceed | Assets/Scripts/BehaviorTreeController.cs:84-90 | A Sequence reports Success iff every child, ticked in turn, succeeds. |
| TreeProperties.FallbackFailsIffAllFail | Assets/Scripts/BehaviorTreeController.cs:61-67 | A Fallback reports Failure iff every child, ticked in turn, fails. |
| TreeProperties.SequenceIgnoresLaterChildren | Assets/Scripts/BehaviorTreeController.cs:82-88 | Short-circuit: after a child that does not succeed, later children are not ticked, so appending children changes neither result, trace nor world. |
| TreeProperties.FallbackIgnoresLaterChildren | Assets/Scripts/BehaviorTreeController.cs:59-65 | Short-circuit: after a child that does not fail, later children are not ticked, so appending children changes neither result, trace nor world. |
| TreeProperties.TickFollowsTrace | Assets/Scripts/BehaviorTreeController.cs:103-123 | The world after a tick is the start world with each visited leaf's closure applied exactly once, in log order. Each logged test is the predicate's answer in the world of that moment. |
| TreeProperties.SequenceFollowsTrace | Assets/Scripts/BehaviorTreeController.cs:82-89 | As TickFollowsTrace, for a Sequence's child list. |
| TreeProperties.FallbackFollowsTrace | Assets/Scripts/BehaviorTreeController.cs:59-66 | As TickFollowsTrace, for a Fallback's child list. |
| TreeProperties.TickVisitsLeavesInOrder | Assets/Scripts/BehaviorTreeController.cs:43-124 | The leaves one tick visits form a subsequence of the tree's leaves read left to right. Leaves are compared by value (kind and closure id), so a leaf value appears in the trace at most as often as it appears in the tree, and visits follow tree order. |
| TreeProperties.SequenceVisitsLeavesInOrder | Assets/Scripts/BehaviorTreeController.cs:82-89 | As TickVisitsLeavesInOrder, for a Sequence's child list. |
| TreeProperties.FallbackVisitsLeavesInOrder | Assets/Scripts/BehaviorTreeController.cs:59-66 | As TickVisitsLeavesInOrder, for a Fallback's child list. |
| Controller.BehaviorTreeController.constructor | Assets/Scripts/BehaviorTreeController.cs:7-17 | A new controller keeps the root it was given. It is not running and its timer is 0, which is below the interval. |
| Controller.BehaviorTreeController.StartBehaviorTree | Assets/Scripts/BehaviorTreeController.cs:19-22 | Sets the running flag and changes nothing else: the timer and root are kept, and so is the invariant that the timer is below the interval. Calling it twice has the same effect as calling it once. |
| Controller.BehaviorTreeController.StopBehaviorTree | Assets/Scripts/BehaviorTreeController.cs:24-27 | Clears the running flag and changes nothing else: the timer and root are kept, and so is the invariant that the timer is below the interval. Calling it twice has the same effect as calling it once. |
| Controller.BehaviorTreeController.Tick | Assets/Scripts/BehaviorTreeController.cs:29-40 | When stopped, changes nothing and ticks nothing. When running, adds delta to the timer. It ticks the root exactly once, and resets the timer to 0, iff the new timer reaches the interval. With a non-negative delta, the timer stays below the interval. |
| CatTree.GuardedAction | Assets/Scripts/CatBehaviour.cs:38-42 | A Sequence of a Condition and an Action runs the effect iff the condition holds, in the world the predicate left, and then succeeds. Otherwise it fails at the condition, and only the predicate has touched the world. |
| CatTree.CatTreeDecides | Assets/Scripts/CatBehaviour.cs:36-49 | Every tick of the cat's tree succeeds and runs exactly one effect. It chases if the mouse is found, else catches if the mouse is in attack range, else patrols. The second condition is asked only when the first fails, in the world the first predicate left. |

## Left out

- Closure bodies (perception, navigation, logging) are external. They are the `Host` functions `test`, `sensed` and `run`. Those functions are total and deterministic, so a closure that throws is not modelled. In the source, an exception from a closure propagates out of `Tick` uncaught.
- Controller.BehaviorTreeController.Tick: a throwing root tick is not modelled. In the source, an exception from `rootNode.Tick()` (`BehaviorTreeController.cs:36`) skips the reset `timer = 0f` at :37. The timer then stays at or above `tickInterval`, so every later running call ticks the root again, and the invariant `timer < tickInterval` no longer holds. A null root, which the constructor (:14-17) accepts, has the same effect. So do a null child list (`new Sequence(null)` fails at :59/:82), a null child (:61/:84) or a null closure (:105/:121), each of which throws a null-reference exception. The model's root is always a tree whose child lists, children and closures all exist; no code in the repository passes null.
- Controller.BehaviorTreeController.Tick: closures act only on the world `W`. They never call back into the controller or re-tick a node. In C#, a closure could capture the controller. If it called `StopBehaviorTree()` during `rootNode.Tick()` (:36), `isRunning` would change, which the model's frame rules out. If it called the controller's `Tick()`, that call would rerun :31-36 before the reset at :37 and could recurse without end. A closure ticking a node above it recurses the same way. No code in the repository does any of this: the cat's `behaviorTreeController` field (`CatBehaviour.cs:27`) is never assigned.
- An Action has no running flag and no failure catching, and the model adds neither. This follows the code at `BehaviorTreeController.cs:119-123`.
- The root is fixed at construction (`BehaviorTreeController.cs:14-17`), and `StartBehaviorTree` takes no argument (:19-22). The model has no way to replace the root.
- `timer`, `tickInterval` and `Time.deltaTime` are single-precision floats. The model uses exact `real` numbers and takes the frame's delta as a parameter. Float rounding in `timer += delta` is not modelled.
- `tickInterval` carries `[SerializeField]`, but `BehaviorTreeController` is a plain class, not a Unity component. The model uses the constant 0.5.
- A composite keeps the `List<Node>` it was given by reference. The model takes the children as an immutable sequence, so a caller mutating that list after construction is not modelled. No code in the repository does this.
- Controller.BehaviorTreeController.Tick: the model returns only whether the root fired and the world afterwards. The root's state is discarded, as in the source.
- `MouseBehaviour.cs` and `Cheese.cs` are not part of this model; they are game glue. From `CatBehaviour.cs` only the tree's shape is used. Its perception, movement and waypoint code is not part of this model.
