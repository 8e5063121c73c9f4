/** The behaviour-tree engine: the result vocabulary, the four node kinds and
    one tick of a tree.

    A leaf's closure is external code. It is modelled by an identifier in the
    node and a `Host` that interprets identifiers against a world `W`: the
    host's `test` is what a Condition's predicate answers in a world and
    `sensed` the world after asking it (a predicate may write the state it
    captures); `run` is what an Action's effect does to the world. A tick returns its state, the
    trace of the leaves it visited (in order), and the world the effects left. */
module BehaviorTree {

  /** What ticking a node reports. */
  datatype NodeState = Running | Success | Failure

  /** A behaviour tree. Composites own an ordered child list fixed at
      construction; leaves name the closure they wrap. */
  datatype Node =
    | Sequence(children: seq<Node>)
    | Fallback(children: seq<Node>)
    | Condition(pred: nat)
    | Action(effect: nat)

  /** One leaf visit: a predicate asked, with its answer, or an effect run. */
  datatype Event = Tested(pred: nat, holds: bool) | Ran(effect: nat)

  /** The closures the leaves wrap, as functions of the world they capture. */
  datatype Host<!W> = Host(test: (nat, W) -> bool, sensed: (nat, W) -> W, run: (nat, W) -> W)

  /** The result of one tick: the state returned, the leaves visited in
      order, and the world after the effects that ran. */
  datatype Outcome<W> = Outcome(state: NodeState, trace: seq<Event>, world: W)

  /** `Node.Tick` for every node kind. No node kind ever reports Running:
      a Condition asks its predicate once and reports whether it holds; an
      Action runs its effect once and reports Success. */
  function Tick<W>(h: Host<W>, n: Node, w: W): (r: Outcome<W>)
    ensures r.state != Running
    ensures n.Condition? ==>
      (r.state == Success <==> h.test(n.pred, w)) &&
      r.trace == [Tested(n.pred, r.state == Success)] && r.world == h.sensed(n.pred, w)
    ensures n.Action? ==>
      r.state == Success && r.trace == [Ran(n.effect)] && r.world == h.run(n.effect, w)
    decreases n
  {
    match n
    case Sequence(cs) => SequenceTick(h, cs, w)
    case Fallback(cs) => FallbackTick(h, cs, w)
    case Condition(p) => Outcome(if h.test(p, w) then Success else Failure, [Tested(p, h.test(p, w))], h.sensed(p, w))
    case Action(e) => Outcome(Success, [Ran(e)], h.run(e, w))
  }

  /** `Sequence.Tick`: tick the children in order, each in the world the
      previous one left, and stop at the first that does not succeed.
      An empty sequence succeeds without doing anything. */
  function SequenceTick<W>(h: Host<W>, cs: seq<Node>, w: W): (r: Outcome<W>)
    ensures r.state != Running
    ensures cs == [] ==> r == Outcome(Success, [], w)
    decreases cs
  {
    if cs == [] then Outcome(Success, [], w)
    else
      var first := Tick(h, cs[0], w);
      if first.state != Success then first
      else
        var rest := SequenceTick(h, cs[1..], first.world);
        Outcome(rest.state, first.trace + rest.trace, rest.world)
  }

  /** `Fallback.Tick`: tick the children in order, each in the world the
      previous one left, and stop at the first that does not fail.
      An empty fallback fails without doing anything. */
  function FallbackTick<W>(h: Host<W>, cs: seq<Node>, w: W): (r: Outcome<W>)
    ensures r.state != Running
    ensures cs == [] ==> r == Outcome(Failure, [], w)
    decreases cs
  {
    if cs == [] then Outcome(Failure, [], w)
    else
      var first := Tick(h, cs[0], w);
      if first.state != Failure then first
      else
        var rest := FallbackTick(h, cs[1..], first.world);
        Outcome(rest.state, first.trace + rest.trace, rest.world)
  }

  /** The evaluator as the source writes it: each composite is a loop over
      its children that returns early on the first deciding child. */
  method Evaluate<W>(h: Host<W>, n: Node, w: W) returns (r: Outcome<W>)
    ensures r == Tick(h, n, w)
    decreases n
  {
    match n {
      case Sequence(cs) =>
        var i, trace, world := 0, [], w;
        while i < |cs|
          invariant 0 <= i <= |cs|
          invariant SequenceTick(h, cs, w) == Joined(trace, SequenceTick(h, cs[i..], world))
        {
          assert cs[i..][0] == cs[i] && cs[i..][1..] == cs[i + 1..];
          var child := Evaluate(h, cs[i], world);
          if child.state != Success {
            return Joined(trace, child);
          }
          trace, world := trace + child.trace, child.world;
          i := i + 1;
        }
        r := Outcome(Success, trace, world);
      case Fallback(cs) =>
        var i, trace, world := 0, [], w;
        while i < |cs|
          invariant 0 <= i <= |cs|
          invariant FallbackTick(h, cs, w) == Joined(trace, FallbackTick(h, cs[i..], world))
        {
          assert cs[i..][0] == cs[i] && cs[i..][1..] == cs[i + 1..];
          var child := Evaluate(h, cs[i], world);
          if child.state != Failure {
            return Joined(trace, child);
          }
          trace, world := trace + child.trace, child.world;
          i := i + 1;
        }
        r := Outcome(Failure, trace, world);
      case Condition(p) =>
        var holds := h.test(p, w);
        r := Outcome(if holds then Success else Failure, [Tested(p, holds)], h.sensed(p, w));
      case Action(e) =>
        r := Outcome(Success, [Ran(e)], h.run(e, w));
    }
  }

  /** `o` with the events of earlier siblings in front of its trace. */
  function Joined<W>(earlier: seq<Event>, o: Outcome<W>): Outcome<W>
  {
    Outcome(o.state, earlier + o.trace, o.world)
  }
}
