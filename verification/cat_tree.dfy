/** The cat's decision tree: chase the mouse when it is seen, catch it when
    it is within reach, patrol otherwise. The perception and movement the
    closures perform are the host's business; the tree shape is the engine's. */
module CatTree {
  import opened BehaviorTree

  // Predicates.
  const MouseFound: nat := 0
  const MouseInAttackRange: nat := 1
  // Effects.
  const ChaseMouse: nat := 0
  const CatchMouse: nat := 1
  const Patrol: nat := 2

  function CatRoot(): Node
  {
    Fallback([
      Sequence([Condition(MouseFound), Action(ChaseMouse)]),
      Sequence([Condition(MouseInAttackRange), Action(CatchMouse)]),
      Action(Patrol)
    ])
  }

  /** Every tick of the cat's tree succeeds and runs exactly one effect:
      chase when the mouse is seen; otherwise catch when it is in reach;
      otherwise patrol. A branch whose condition fails never runs its action,
      and the second condition is asked only when the first fails, in the
      world the first predicate left. */
  lemma CatTreeDecides<W>(h: Host<W>, w: W)
    ensures var r := Tick(h, CatRoot(), w);
      var afterFound := h.sensed(MouseFound, w);
      var afterRange := h.sensed(MouseInAttackRange, afterFound);
      r.state == Success &&
      if h.test(MouseFound, w) then
        r.trace == [Tested(MouseFound, true), Ran(ChaseMouse)] &&
        r.world == h.run(ChaseMouse, afterFound)
      else if h.test(MouseInAttackRange, afterFound) then
        r.trace == [Tested(MouseFound, false), Tested(MouseInAttackRange, true), Ran(CatchMouse)] &&
        r.world == h.run(CatchMouse, afterRange)
      else
        r.trace == [Tested(MouseFound, false), Tested(MouseInAttackRange, false), Ran(Patrol)] &&
        r.world == h.run(Patrol, afterRange)
  {
    var chase := Sequence([Condition(MouseFound), Action(ChaseMouse)]);
    var caught := Sequence([Condition(MouseInAttackRange), Action(CatchMouse)]);
    var cs := [chase, caught, Action(Patrol)];
    assert cs[1..] == [caught, Action(Patrol)] && cs[1..][1..] == [Action(Patrol)];
    var afterFound := h.sensed(MouseFound, w);
    var afterRange := h.sensed(MouseInAttackRange, afterFound);
    GuardedAction(h, MouseFound, ChaseMouse, w);
    GuardedAction(h, MouseInAttackRange, CatchMouse, afterFound);
    var patrol := Tick(h, Action(Patrol), afterRange);
    assert FallbackTick(h, [Action(Patrol)], afterRange) == patrol by {
      assert [Action(Patrol)][0] == Action(Patrol);
    }
  }

  /** A Sequence of a Condition and an Action runs the effect exactly when
      the condition holds, in the world the predicate left, and then
      succeeds; otherwise it fails at the condition and only the predicate
      has touched the world. */
  lemma GuardedAction<W>(h: Host<W>, p: nat, e: nat, w: W)
    ensures Tick(h, Sequence([Condition(p), Action(e)]), w) ==
      if h.test(p, w) then Outcome(Success, [Tested(p, true), Ran(e)], h.run(e, h.sensed(p, w)))
      else Outcome(Failure, [Tested(p, false)], h.sensed(p, w))
  {
    var cs := [Condition(p), Action(e)];
    assert cs[0] == Condition(p) && cs[1..] == [Action(e)] && cs[1..][0] == Action(e);
    if h.test(p, w) {
      var w1 := h.sensed(p, w);
      var act := SequenceTick(h, [Action(e)], w1);
      assert act == Outcome(Success, [Ran(e)] + [], h.run(e, w1));
    }
  }
}
