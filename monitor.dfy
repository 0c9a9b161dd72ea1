/**
 * The input monitor: the debounce state machine run on every mouse-button
 * notification, and the FIFO of double-click coordinates it feeds.
 *
 * Timestamps are integer milliseconds; the wall clock is a parameter.
 */
module Monitor {
  import opened Platform

  /** DOUBLE_CLICK_THRESHOLD, 0.25 seconds, in milliseconds. */
  const DoubleClickThreshold: int := 250

  datatype Button = Left | Right | Middle | Unknown

  /** One notification from the mouse hook, with the clock reading taken when it arrived. */
  datatype Notification = Notification(x: int, y: int, button: Button, pressed: bool, time: int)

  /** Only a press (not a release) of the left button drives the state machine. */
  predicate IsLeftPress(n: Notification) {
    n.button == Left && n.pressed
  }

  /** The two fields of the monitor. `clickCount` is written but never read. */
  datatype MonitorState = MonitorState(lastClickTime: int, clickCount: int)

  /** The state the monitor is created in. */
  const Initial := MonitorState(0, 0)

  /** What one notification does: the next state and what, if anything, is enqueued. */
  datatype Reaction = Reaction(next: MonitorState, enqueued: Option<Point>)

  /**
   * The transition rule. A left press less than the threshold after the
   * previous left press enqueues its own coordinates. Every left press, paired
   * or not, becomes the new previous press. Anything else changes nothing.
   */
  function Step(st: MonitorState, n: Notification): (r: Reaction)
    ensures !IsLeftPress(n) ==> r == Reaction(st, None)
    ensures IsLeftPress(n) ==> r.next.lastClickTime == n.time
    ensures IsLeftPress(n) ==> (r.enqueued.Some? <==> n.time - st.lastClickTime < DoubleClickThreshold)
    ensures r.enqueued.Some? ==> r.enqueued.value == Point(n.x, n.y)
  {
    if !IsLeftPress(n) then Reaction(st, None)
    else if n.time - st.lastClickTime < DoubleClickThreshold then
      Reaction(MonitorState(n.time, 0), Some(Point(n.x, n.y)))
    else
      Reaction(MonitorState(n.time, 1), None)
  }

  function Enqueued(p: Option<Point>): seq<Point> {
    if p.Some? then [p.value] else []
  }

  /** The end state of a notification stream and everything it enqueued, in order. */
  datatype Trace = Trace(final: MonitorState, queued: seq<Point>)

  function Run(st: MonitorState, ns: seq<Notification>): (t: Trace)
    ensures |t.queued| <= |LeftPresses(ns)|
    decreases |ns|
  {
    if ns == [] then Trace(st, [])
    else
      var r := Step(st, ns[0]);
      var rest := Run(r.next, ns[1..]);
      Trace(rest.final, Enqueued(r.enqueued) + rest.queued)
  }

  /** The left presses of a stream, in order. */
  function LeftPresses(ns: seq<Notification>): (ps: seq<Notification>)
    ensures |ps| <= |ns|
    ensures forall i :: 0 <= i < |ps| ==> IsLeftPress(ps[i])
  {
    if ns == [] then []
    else if IsLeftPress(ns[0]) then [ns[0]] + LeftPresses(ns[1..])
    else LeftPresses(ns[1..])
  }

  /** The time of the latest left press of a stream, or `default` if it has none. */
  function LatestPressTime(ns: seq<Notification>, default: int): int
    decreases |ns|
  {
    if ns == [] then default
    else if IsLeftPress(ns[|ns| - 1]) then ns[|ns| - 1].time
    else LatestPressTime(ns[..|ns| - 1], default)
  }

  /** Running a stream in two pieces is running it whole: the queue only ever grows at its tail. */
  lemma {:induction false} RunAppend(st: MonitorState, a: seq<Notification>, b: seq<Notification>)
    ensures Run(st, a + b).final == Run(Run(st, a).final, b).final
    ensures Run(st, a + b).queued == Run(st, a).queued + Run(Run(st, a).final, b).queued
    decreases |a|
  {
    if a == [] {
      assert a + b == b;
    } else {
      assert (a + b)[0] == a[0];
      assert (a + b)[1..] == a[1..] + b;
      RunAppend(Step(st, a[0]).next, a[1..], b);
    }
  }

  /**
   * A left press appends exactly its own coordinates iff it comes less than the
   * threshold after the previous left press, and appends nothing otherwise;
   * either way the entries already queued stay as they were and the press
   * becomes the new previous press.
   */
  lemma {:induction false} LeftPressAppendsIffWithinThreshold(st: MonitorState, ns: seq<Notification>, n: Notification)
    requires IsLeftPress(n)
    ensures Run(st, ns + [n]).final.lastClickTime == n.time
    ensures n.time - Run(st, ns).final.lastClickTime < DoubleClickThreshold ==>
              Run(st, ns + [n]).queued == Run(st, ns).queued + [Point(n.x, n.y)]
    ensures n.time - Run(st, ns).final.lastClickTime >= DoubleClickThreshold ==>
              Run(st, ns + [n]).queued == Run(st, ns).queued
  {
    RunAppend(st, ns, [n]);
    var mid := Run(st, ns).final;
    assert Run(mid, [n]) == Trace(Step(mid, n).next, Enqueued(Step(mid, n).enqueued) + Run(Step(mid, n).next, []).queued);
  }

  /** A release, or any button other than the left one, changes neither the state nor the queue. */
  lemma {:induction false} OtherNotificationIgnored(st: MonitorState, ns: seq<Notification>, n: Notification)
    requires !IsLeftPress(n)
    ensures Run(st, ns + [n]) == Run(st, ns)
  {
    RunAppend(st, ns, [n]);
    assert Run(Run(st, ns).final, [n]) == Trace(Run(st, ns).final, []);
    assert Run(st, ns).queued + [] == Run(st, ns).queued;
  }

  /** Only the left presses of a stream matter: dropping everything else changes nothing. */
  lemma {:induction false} OnlyLeftPressesMatter(st: MonitorState, ns: seq<Notification>)
    ensures Run(st, ns) == Run(st, LeftPresses(ns))
    decreases |ns|
  {
    if ns != [] {
      OnlyLeftPressesMatter(Step(st, ns[0]).next, ns[1..]);
      if IsLeftPress(ns[0]) {
        var ps := [ns[0]] + LeftPresses(ns[1..]);
        assert ps[0] == ns[0] && ps[1..] == LeftPresses(ns[1..]);
      }
    }
  }

  /**
   * After any stream, `lastClickTime` is the time of its latest left press,
   * whether or not that press was paired; it is never cleared.
   */
  lemma {:induction false} LastClickTimeIsLatestPress(st: MonitorState, ns: seq<Notification>)
    ensures Run(st, ns).final.lastClickTime == LatestPressTime(ns, st.lastClickTime)
    decreases |ns|
  {
    if ns != [] {
      var init, n := ns[..|ns| - 1], ns[|ns| - 1];
      assert ns == init + [n];
      LastClickTimeIsLatestPress(st, init);
      if IsLeftPress(n) {
        LeftPressAppendsIffWithinThreshold(st, init, n);
      } else {
        OtherNotificationIgnored(st, init, n);
      }
    }
  }

  /**
   * Three left presses whose two gaps are both under the threshold enqueue two
   * entries, the second and the third press's coordinates: the third press
   * pairs with the second because the state is not reset after a pair.
   */
  lemma {:induction false} ThirdRapidPressPairsWithSecond(st: MonitorState, a: Notification, b: Notification, c: Notification)
    requires IsLeftPress(a) && IsLeftPress(b) && IsLeftPress(c)
    requires a.time - st.lastClickTime >= DoubleClickThreshold
    requires b.time - a.time < DoubleClickThreshold && c.time - b.time < DoubleClickThreshold
    ensures Run(st, [a, b, c]).queued == [Point(b.x, b.y), Point(c.x, c.y)]
    ensures Run(st, [a, b, c]).final.lastClickTime == c.time
  {
    LeftPressAppendsIffWithinThreshold(st, [], a);
    LeftPressAppendsIffWithinThreshold(st, [a], b);
    LeftPressAppendsIffWithinThreshold(st, [a, b], c);
    assert [] + [a] == [a] && [a] + [b] == [a, b] && [a, b] + [c] == [a, b, c];
  }

  /** `clickCount` has no observable effect: it never changes what is enqueued or when. */
  lemma {:induction false} ClickCountUnobservable(t: int, c1: int, c2: int, ns: seq<Notification>)
    ensures Run(MonitorState(t, c1), ns).queued == Run(MonitorState(t, c2), ns).queued
    ensures Run(MonitorState(t, c1), ns).final.lastClickTime == Run(MonitorState(t, c2), ns).final.lastClickTime
    decreases |ns|
  {
    if ns != [] {
      var r1, r2 := Step(MonitorState(t, c1), ns[0]), Step(MonitorState(t, c2), ns[0]);
      if IsLeftPress(ns[0]) {
        assert r1 == r2;
      } else {
        ClickCountUnobservable(t, c1, c2, ns[1..]);
      }
    }
  }

  /** `action_queue`: a FIFO of double-click coordinates, put by the monitor and taken by the worker. */
  class ActionQueue {
    var items: seq<Point>

    constructor ()
      ensures items == []
    {
      items := [];
    }

    /** Appends at the tail; earlier entries are untouched. */
    method Put(p: Point)
      modifies this
      ensures items == old(items) + [p]
    {
      items := items + [p];
    }

    /** Takes the oldest entry, or reports an empty queue (the timed-out get). */
    method Get() returns (p: Option<Point>)
      modifies this
      ensures old(items) == [] ==> p == None && items == []
      ensures old(items) != [] ==> p == Some(old(items)[0]) && items == old(items)[1..]
    {
      if items == [] {
        p := None;
      } else {
        p := Some(items[0]);
        items := items[1..];
      }
    }
  }

  class MouseMonitor {
    var lastClickTime: int
    var clickCount: int
    /** The queue double-clicks are put on. */
    const actions: ActionQueue

    function State(): MonitorState
      reads this
    {
      MonitorState(lastClickTime, clickCount)
    }

    constructor (actions: ActionQueue)
      ensures State() == Initial && this.actions == actions
    {
      lastClickTime := 0;
      clickCount := 0;
      this.actions := actions;
    }

    /**
     * The hook callback. `now` is the clock reading the source takes inside
     * the callback. The new fields and the queue are those of one `Step`.
     */
    method OnClick(x: int, y: int, button: Button, pressed: bool, now: int)
      modifies this, actions
      ensures State() == Step(old(State()), Notification(x, y, button, pressed, now)).next
      ensures actions.items == old(actions.items) + Enqueued(Step(old(State()), Notification(x, y, button, pressed, now)).enqueued)
    {
      if button == Left && pressed {
        var currentTime := now;
        if currentTime - lastClickTime < DoubleClickThreshold {
          actions.Put(Point(x, y));
          clickCount := 0;
        } else {
          clickCount := 1;
        }
        lastClickTime := currentTime;
      }
    }
  }
}
