/** What one tick of a behaviour tree guarantees: the composites' truth
    tables and short-circuiting (against a reference that ticks every child),
    the effects a tick has on the world, and the order in which it visits
    leaves. */
module TreeProperties {
  import opened BehaviorTree

  datatype Option<T> = None | Some(value: T)

  // ---------------------------------------------------------------------
  // Reference semantics for the composites
  // ---------------------------------------------------------------------

  /** Every child ticked in order, each in the world its predecessor left,
      with no short-circuit: the raw material a composite decides from. */
  function Steps<W>(h: Host<W>, cs: seq<Node>, w: W): (os: seq<Outcome<W>>)
    ensures |os| == |cs|
    ensures forall k :: 0 <= k < |os| ==>
      os[k] == Tick(h, cs[k], if k == 0 then w else os[k - 1].world)
    decreases cs
  {
    if cs == [] then []
    else
      var o := Tick(h, cs[0], w);
      [o] + Steps(h, cs[1..], o.world)
  }

  /** Index of the first outcome whose state is not `pass`, or `|os|`. */
  function FirstOther<W>(os: seq<Outcome<W>>, pass: NodeState): (k: nat)
    ensures k <= |os|
    ensures forall j :: 0 <= j < k ==> os[j].state == pass
    ensures k < |os| ==> os[k].state != pass
  {
    if os == [] || os[0].state != pass then 0 else 1 + FirstOther(os[1..], pass)
  }

  /** The traces of `os`, one after another. */
  function Traces<W>(os: seq<Outcome<W>>): seq<Event>
  {
    if os == [] then [] else os[0].trace + Traces(os[1..])
  }

  /** The decision of a composite that moves on past `pass`: the state of the
      first child that does not report `pass`, with the traces of the children
      up to and including it and the world that child left; `pass` with every
      trace when there is no such child. */
  function Decide<W>(os: seq<Outcome<W>>, pass: NodeState, w: W): Outcome<W>
  {
    var k := FirstOther(os, pass);
    if k < |os| then Outcome(os[k].state, Traces(os[..k + 1]), os[k].world)
    else Outcome(pass, Traces(os), if os == [] then w else os[|os| - 1].world)
  }

  lemma {:induction false} TracesOfOne<W>(o: Outcome<W>, os: seq<Outcome<W>>)
    ensures Traces([o] + os) == o.trace + Traces(os)
  {
    assert ([o] + os)[1..] == os;
  }

  /** Sequence reports the state of its first child that does not succeed,
      having ticked exactly the children up to that one; Success with every
      child ticked when all succeed. */
  lemma {:induction false} SequenceDecides<W>(h: Host<W>, cs: seq<Node>, w: W)
    ensures SequenceTick(h, cs, w) == Decide(Steps(h, cs, w), Success, w)
    decreases cs
  {
    if cs != [] {
      var o := Tick(h, cs[0], w);
      var rest := Steps(h, cs[1..], o.world);
      var os := Steps(h, cs, w);
      assert os == [o] + rest;
      if o.state == Success {
        SequenceDecides(h, cs[1..], o.world);
        var k := FirstOther(rest, Success);
        assert FirstOther(os, Success) == k + 1 by { assert os[1..] == rest; }
        if k < |rest| {
          assert os[..k + 2] == [o] + rest[..k + 1];
          TracesOfOne(o, rest[..k + 1]);
        } else {
          TracesOfOne(o, rest);
        }
      } else {
        assert os[..1] == [o] + [];
        TracesOfOne(o, []);
      }
    }
  }

  /** Fallback reports the state of its first child that does not fail,
      having ticked exactly the children up to that one; Failure with every
      child ticked when all fail. */
  lemma {:induction false} FallbackDecides<W>(h: Host<W>, cs: seq<Node>, w: W)
    ensures FallbackTick(h, cs, w) == Decide(Steps(h, cs, w), Failure, w)
    decreases cs
  {
    if cs != [] {
      var o := Tick(h, cs[0], w);
      var rest := Steps(h, cs[1..], o.world);
      var os := Steps(h, cs, w);
      assert os == [o] + rest;
      if o.state == Failure {
        FallbackDecides(h, cs[1..], o.world);
        var k := FirstOther(rest, Failure);
        assert FirstOther(os, Failure) == k + 1 by { assert os[1..] == rest; }
        if k < |rest| {
          assert os[..k + 2] == [o] + rest[..k + 1];
          TracesOfOne(o, rest[..k + 1]);
        } else {
          TracesOfOne(o, rest);
        }
      } else {
        assert os[..1] == [o] + [];
        TracesOfOne(o, []);
      }
    }
  }

  /** Sequence succeeds exactly when every child, ticked in turn, succeeds. */
  lemma SequenceSucceedsIffAllSucceed<W>(h: Host<W>, cs: seq<Node>, w: W)
    ensures SequenceTick(h, cs, w).state == Success <==>
      forall k :: 0 <= k < |cs| ==> Steps(h, cs, w)[k].state == Success
  {
    SequenceDecides(h, cs, w);
  }

  /** Fallback fails exactly when every child, ticked in turn, fails. */
  lemma FallbackFailsIffAllFail<W>(h: Host<W>, cs: seq<Node>, w: W)
    ensures FallbackTick(h, cs, w).state == Failure <==>
      forall k :: 0 <= k < |cs| ==> Steps(h, cs, w)[k].state == Failure
  {
    FallbackDecides(h, cs, w);
  }

  /** Short-circuit: once a Sequence has been decided by a child that did not
      succeed, children after it are never ticked, so appending more changes
      nothing. */
  lemma {:induction false} SequenceIgnoresLaterChildren<W>(h: Host<W>, cs: seq<Node>, more: seq<Node>, w: W)
    requires SequenceTick(h, cs, w).state != Success
    ensures SequenceTick(h, cs + more, w) == SequenceTick(h, cs, w)
    decreases cs
  {
    assert (cs + more)[0] == cs[0] && (cs + more)[1..] == cs[1..] + more;
    var o := Tick(h, cs[0], w);
    if o.state == Success {
      SequenceIgnoresLaterChildren(h, cs[1..], more, o.world);
    }
  }

  /** Short-circuit: once a Fallback has been decided by a child that did not
      fail, children after it are never ticked, so appending more changes
      nothing. */
  lemma {:induction false} FallbackIgnoresLaterChildren<W>(h: Host<W>, cs: seq<Node>, more: seq<Node>, w: W)
    requires FallbackTick(h, cs, w).state != Failure
    ensures FallbackTick(h, cs + more, w) == FallbackTick(h, cs, w)
    decreases cs
  {
    assert (cs + more)[0] == cs[0] && (cs + more)[1..] == cs[1..] + more;
    var o := Tick(h, cs[0], w);
    if o.state == Failure {
      FallbackIgnoresLaterChildren(h, cs[1..], more, o.world);
    }
  }

  // ---------------------------------------------------------------------
  // Effects: the world after a tick is the trace replayed
  // ---------------------------------------------------------------------

  /** Replays a trace from `w`: every `Tested` must record what the predicate
      answers at that point and applies the predicate's own writes once, every
      `Ran` applies its effect once. None when the trace does not fit the host. */
  function Replay<W>(h: Host<W>, t: seq<Event>, w: W): Option<W>
  {
    if t == [] then Some(w)
    else match t[0]
      case Tested(p, b) => if h.test(p, w) == b then Replay(h, t[1..], h.sensed(p, w)) else None
      case Ran(e) => Replay(h, t[1..], h.run(e, w))
  }

  lemma {:induction false} ReplayConcat<W>(h: Host<W>, t1: seq<Event>, t2: seq<Event>, w: W)
    ensures Replay(h, t1 + t2, w) ==
      match Replay(h, t1, w) case None => None case Some(v) => Replay(h, t2, v)
  {
    if t1 != [] {
      assert (t1 + t2)[0] == t1[0] && (t1 + t2)[1..] == t1[1..] + t2;
      match t1[0]
      case Tested(p, b) => ReplayConcat(h, t1[1..], t2, h.sensed(p, w));
      case Ran(e) => ReplayConcat(h, t1[1..], t2, h.run(e, w));
    } else {
      assert t1 + t2 == t2;
    }
  }

  /** A tick changes the world only through the closures of the leaves it
      visits, each run exactly once per event in the trace and in trace order,
      and every Condition in the trace reports what its predicate answered in
      the world of that moment. */
  lemma {:induction false} TickFollowsTrace<W>(h: Host<W>, n: Node, w: W)
    ensures Replay(h, Tick(h, n, w).trace, w) == Some(Tick(h, n, w).world)
    decreases n
  {
    match n
    case Sequence(cs) => SequenceFollowsTrace(h, cs, w);
    case Fallback(cs) => FallbackFollowsTrace(h, cs, w);
    case Condition(p) =>
      assert Tick(h, n, w).trace[1..] == [];
    case Action(e) =>
      assert Tick(h, n, w).trace[1..] == [];
  }

  lemma {:induction false} SequenceFollowsTrace<W>(h: Host<W>, cs: seq<Node>, w: W)
    ensures Replay(h, SequenceTick(h, cs, w).trace, w) == Some(SequenceTick(h, cs, w).world)
    decreases cs
  {
    if cs != [] {
      var o := Tick(h, cs[0], w);
      TickFollowsTrace(h, cs[0], w);
      if o.state == Success {
        SequenceFollowsTrace(h, cs[1..], o.world);
        ReplayConcat(h, o.trace, SequenceTick(h, cs[1..], o.world).trace, w);
      }
    }
  }

  lemma {:induction false} FallbackFollowsTrace<W>(h: Host<W>, cs: seq<Node>, w: W)
    ensures Replay(h, FallbackTick(h, cs, w).trace, w) == Some(FallbackTick(h, cs, w).world)
    decreases cs
  {
    if cs != [] {
      var o := Tick(h, cs[0], w);
      TickFollowsTrace(h, cs[0], w);
      if o.state == Failure {
        FallbackFollowsTrace(h, cs[1..], o.world);
        ReplayConcat(h, o.trace, FallbackTick(h, cs[1..], o.world).trace, w);
      }
    }
  }

  // ---------------------------------------------------------------------
  // Visit order: each leaf at most once, in tree order
  // ---------------------------------------------------------------------

  /** The leaves of a tree, left to right. */
  function Leaves(n: Node): seq<Node>
    decreases n
  {
    match n
    case Sequence(cs) => LeavesOf(cs)
    case Fallback(cs) => LeavesOf(cs)
    case Condition(_) => [n]
    case Action(_) => [n]
  }

  function LeavesOf(cs: seq<Node>): seq<Node>
    decreases cs
  {
    if cs == [] then [] else Leaves(cs[0]) + LeavesOf(cs[1..])
  }

  /** The leaf an event comes from. */
  function LeafOf(e: Event): Node
  {
    match e
    case Tested(p, _) => Condition(p)
    case Ran(a) => Action(a)
  }

  /** The events of `t` come from leaves that form a subsequence of `leaves`,
      compared by value: a leaf value occurs in `t` at most as often as in
      `leaves`, and never before a leaf to its left. */
  predicate Visits(t: seq<Event>, leaves: seq<Node>)
    decreases leaves
  {
    t == [] ||
    (leaves != [] &&
     ((LeafOf(t[0]) == leaves[0] && Visits(t[1..], leaves[1..])) || Visits(t, leaves[1..])))
  }

  lemma {:induction false} VisitsSkipping(t: seq<Event>, skipped: seq<Node>, leaves: seq<Node>)
    requires Visits(t, leaves)
    ensures Visits(t, skipped + leaves)
    decreases skipped
  {
    if skipped != [] {
      VisitsSkipping(t, skipped[1..], leaves);
      assert (skipped + leaves)[1..] == skipped[1..] + leaves;
    } else {
      assert skipped + leaves == leaves;
    }
  }

  lemma {:induction false} VisitsConcat(t1: seq<Event>, l1: seq<Node>, t2: seq<Event>, l2: seq<Node>)
    requires Visits(t1, l1) && Visits(t2, l2)
    ensures Visits(t1 + t2, l1 + l2)
    decreases l1
  {
    if t1 == [] {
      assert t1 + t2 == t2;
      VisitsSkipping(t2, l1, l2);
    } else {
      assert (l1 + l2)[0] == l1[0] && (l1 + l2)[1..] == l1[1..] + l2;
      assert (t1 + t2)[0] == t1[0] && (t1 + t2)[1..] == t1[1..] + t2;
      if LeafOf(t1[0]) == l1[0] && Visits(t1[1..], l1[1..]) {
        VisitsConcat(t1[1..], l1[1..], t2, l2);
      } else {
        VisitsConcat(t1, l1[1..], t2, l2);
      }
    }
  }

  /** One tick visits each leaf of the tree at most once, left to right. */
  lemma {:induction false} TickVisitsLeavesInOrder<W>(h: Host<W>, n: Node, w: W)
    ensures Visits(Tick(h, n, w).trace, Leaves(n))
    decreases n
  {
    match n
    case Sequence(cs) => SequenceVisitsLeavesInOrder(h, cs, w);
    case Fallback(cs) => FallbackVisitsLeavesInOrder(h, cs, w);
    case Condition(p) =>
      assert Tick(h, n, w).trace[1..] == [];
    case Action(e) =>
      assert Tick(h, n, w).trace[1..] == [];
  }

  lemma {:induction false} SequenceVisitsLeavesInOrder<W>(h: Host<W>, cs: seq<Node>, w: W)
    ensures Visits(SequenceTick(h, cs, w).trace, LeavesOf(cs))
    decreases cs
  {
    if cs != [] {
      var o := Tick(h, cs[0], w);
      TickVisitsLeavesInOrder(h, cs[0], w);
      if o.state == Success {
        SequenceVisitsLeavesInOrder(h, cs[1..], o.world);
        VisitsConcat(o.trace, Leaves(cs[0]), SequenceTick(h, cs[1..], o.world).trace, LeavesOf(cs[1..]));
      } else {
        VisitsConcat(o.trace, Leaves(cs[0]), [], LeavesOf(cs[1..]));
        assert o.trace + [] == o.trace;
      }
    }
  }

  lemma {:induction false} FallbackVisitsLeavesInOrder<W>(h: Host<W>, cs: seq<Node>, w: W)
    ensures Visits(FallbackTick(h, cs, w).trace, LeavesOf(cs))
    decreases cs
  {
    if cs != [] {
      var o := Tick(h, cs[0], w);
      TickVisitsLeavesInOrder(h, cs[0], w);
      if o.state == Failure {
        FallbackVisitsLeavesInOrder(h, cs[1..], o.world);
        VisitsConcat(o.trace, Leaves(cs[0]), FallbackTick(h, cs[1..], o.world).trace, LeavesOf(cs[1..]));
      } else {
        VisitsConcat(o.trace, Leaves(cs[0]), [], LeavesOf(cs[1..]));
        assert o.trace + [] == o.trace;
      }
    }
  }
}
