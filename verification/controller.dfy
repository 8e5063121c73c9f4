/** The tree driver: it owns the root, a running flag and a timer, and
    ticks the root at most once per call, once enough time has built up.
    The frame's elapsed time and the world the leaves act on are parameters. */
module Controller {
  import opened BehaviorTree

  class BehaviorTreeController<W> {
    /** The root and the closures its leaves wrap, fixed at construction. */
    const root: Node
    const host: Host<W>
    /** Seconds that must build up between two ticks of the root. */
    const tickInterval: real := 0.5
    var isRunning: bool
    var timer: real

    /** The timer is below the interval between calls: a call that reaches
        the interval ticks the root and starts over. */
    ghost predicate Valid()
      reads this
    {
      0.0 <= timer < tickInterval
    }

    /** A new controller holds its root, is not running and has no time built up. */
    constructor (root: Node, host: Host<W>)
      ensures this.root == root && this.host == host
      ensures !isRunning && timer == 0.0
      ensures Valid()
    {
      this.root := root;
      this.host := host;
      isRunning := false;
      timer := 0.0;
    }

    /** Sets the running flag; the timer keeps what it had built up. */
    method StartBehaviorTree()
      modifies this`isRunning
      ensures isRunning && timer == old(timer)
      ensures old(Valid()) ==> Valid()
    {
      isRunning := true;
    }

    /** Clears the running flag; the timer keeps what it had built up. */
    method StopBehaviorTree()
      modifies this`isRunning
      ensures !isRunning && timer == old(timer)
      ensures old(Valid()) ==> Valid()
    {
      isRunning := false;
    }

    /** One frame of `delta` seconds in world `w`. When stopped, nothing
        changes. When running, the time builds up, and the root is ticked
        exactly once, and the timer reset, iff the built-up time reaches the
        interval. `fired` says whether the root was ticked; `w'` is the world
        afterwards. With a non-negative delta the timer stays below the
        interval. */
    method Tick(delta: real, w: W) returns (fired: bool, w': W)
      modifies this`timer
      ensures !isRunning ==> !fired && timer == old(timer) && w' == w
      ensures isRunning ==> (fired <==> old(timer) + delta >= tickInterval)
      ensures fired ==> timer == 0.0 && w' == BehaviorTree.Tick(host, root, w).world
      ensures isRunning && !fired ==> timer == old(timer) + delta && w' == w
      ensures old(Valid()) && delta >= 0.0 ==> Valid()
    {
      fired, w' := false, w;
      if isRunning {
        timer := timer + delta;
        if timer >= tickInterval {
          var outcome := Evaluate(host, root, w);
          fired, w' := true, outcome.world;
          timer := 0.0;
        }
      }
    }
  }

  /** The driver's cadence and gating on a tree with one Action
      that counts its runs in the world. */
  method CadenceScenario() {
    var counting := Host((p: nat, w: int) => w > 0, (p: nat, w: int) => w, (e: nat, w: int) => w + 1);
    var c := new BehaviorTreeController(Action(0), counting);
    var fired, w := c.Tick(0.6, 0);
    assert !fired && w == 0 && c.timer == 0.0;       // not started: nothing happens

    c.StartBehaviorTree();
    fired, w := c.Tick(0.2, w);
    assert !fired;
    fired, w := c.Tick(0.2, w);
    assert !fired && w == 0;
    fired, w := c.Tick(0.2, w);
    assert fired && w == 1 && c.timer == 0.0;        // 0.6 >= 0.5: one tick, timer reset

    fired, w := c.Tick(0.3, w);
    c.StopBehaviorTree();
    fired, w := c.Tick(0.3, w);
    assert !fired && c.timer == 0.3;                 // stopped: the timer is kept
    c.StartBehaviorTree();
    c.StartBehaviorTree();
    fired, w := c.Tick(0.3, w);
    assert fired && w == 2;                          // restart resumes the old timer
  }
}
