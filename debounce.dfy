/**
 * The debounce helper of the browser client (static/app.js:339-349) and the
 * window-resize handler built on it (lines 352-368). `setTimeout` and
 * `clearTimeout` become a single pending timer; the passing of time is a
 * `Tick(at)` event at which a timer whose deadline has come fires.
 */
module Debounce {
  import opened Wrappers
  import opened Protocol

  /** A scheduled call of the wrapped function with the arguments given. */
  datatype Timer<A> = Timer(deadline: int, args: A)

  /** A call of the debounced function, or the clock reaching `at`. */
  datatype Event<A> = Call(args: A, at: int) | Tick(at: int)

  /** The timer a call schedules. */
  function TimerFor<A>(c: Event<A>, wait: int): Timer<A>
    requires c.Call?
  {
    Timer(c.at + wait, c.args)
  }

  /**
   * One event: a call clears the pending timer and schedules a new one; a
   * tick fires the pending timer if its deadline has come. The second
   * component is the call of the wrapped function that happens, if any.
   */
  function Step<A>(pending: Option<Timer<A>>, ev: Event<A>, wait: int): (Option<Timer<A>>, Option<A>) {
    match ev
    case Call(args, at) => (Some(Timer(at + wait, args)), None)
    case Tick(at) =>
      if pending.Some? && pending.value.deadline <= at then (None, Some(pending.value.args))
      else (pending, None)
  }

  /** The pending timer after a sequence of events, and the calls of the wrapped function it made, in order. */
  function Run<A>(pending: Option<Timer<A>>, evs: seq<Event<A>>, wait: int): (Option<Timer<A>>, seq<A>) {
    if evs == [] then (pending, [])
    else
      var (p, done) := Run(pending, evs[..|evs| - 1], wait);
      var (p', fired) := Step(p, evs[|evs| - 1], wait);
      (p', done + (if fired.Some? then [fired.value] else []))
  }

  /** The most recent call in a sequence of events. */
  function LastCall<A>(evs: seq<Event<A>>): (c: Option<Event<A>>)
    ensures c.Some? ==> c.value.Call? && c.value in evs
  {
    if evs == [] then None
    else if evs[|evs| - 1].Call? then Some(evs[|evs| - 1])
    else LastCall(evs[..|evs| - 1])
  }

  /** From an idle start, whatever is pending is the timer of the most recent call. */
  lemma {:induction false} PendingIsLastCall<A>(evs: seq<Event<A>>, wait: int)
    ensures Run(None, evs, wait).0.Some? ==>
              LastCall(evs).Some? && Run(None, evs, wait).0.value == TimerFor(LastCall(evs).value, wait)
  {
    if evs != [] {
      PendingIsLastCall(evs[..|evs| - 1], wait);
    }
  }

  /**
   * A burst: it starts with a call, and every tick in it comes before the
   * deadline of the latest call ahead of it, so no timer is due inside it.
   */
  ghost predicate Burst<A>(evs: seq<Event<A>>, wait: int) {
    && |evs| > 0
    && evs[0].Call?
    && forall i :: 0 < i < |evs| && evs[i].Tick? ==>
         LastCall(evs[..i]).Some? && evs[i].at < LastCall(evs[..i]).value.at + wait
  }

  lemma BurstPrefix<A>(evs: seq<Event<A>>, wait: int)
    requires Burst(evs, wait) && |evs| > 1
    ensures Burst(evs[..|evs| - 1], wait)
  {
    var pre := evs[..|evs| - 1];
    forall i | 0 < i < |pre| && pre[i].Tick?
      ensures LastCall(pre[..i]).Some? && pre[i].at < LastCall(pre[..i]).value.at + wait
    {
      assert pre[..i] == evs[..i];
    }
  }

  /** Inside a burst the wrapped function is never called, and the pending timer is the one of the latest call. */
  lemma {:induction false} BurstQuiet<A>(p: Option<Timer<A>>, evs: seq<Event<A>>, wait: int)
    requires Burst(evs, wait)
    ensures LastCall(evs).Some?
    ensures Run(p, evs, wait) == (Some(TimerFor(LastCall(evs).value, wait)), [])
  {
    var n := |evs|;
    if n == 1 {
      assert evs[..0] == [];
      assert Run(p, evs[..0], wait) == (p, []);
      assert Step(p, evs[0], wait) == (Some(TimerFor(evs[0], wait)), None);
      assert LastCall(evs) == Some(evs[0]);
      assert Run(p, evs, wait).1 == [];
      assert Run(p, evs, wait).0 == Some(TimerFor(evs[0], wait));
    } else {
      BurstPrefix(evs, wait);
      var pre := evs[..n - 1];
      BurstQuiet(p, pre, wait);
      if evs[n - 1].Tick? {
        assert evs[..n - 1] == pre;
      }
    }
  }

  ghost predicate AllTicks<A>(evs: seq<Event<A>>) {
    forall i :: 0 <= i < |evs| ==> evs[i].Tick?
  }

  ghost predicate SomeTickDue<A>(ticks: seq<Event<A>>, deadline: int) {
    exists i :: 0 <= i < |ticks| && ticks[i].at >= deadline
  }

  /** With a timer pending and only ticks after it, the wrapped function runs once if some tick reaches the deadline, and never otherwise. */
  lemma {:induction false} TicksFireOnce<A>(t: Timer<A>, ticks: seq<Event<A>>, wait: int)
    requires AllTicks(ticks)
    ensures Run(Some(t), ticks, wait).1 == if SomeTickDue(ticks, t.deadline) then [t.args] else []
    ensures Run(Some(t), ticks, wait).0 == if SomeTickDue(ticks, t.deadline) then None else Some(t)
  {
    var n := |ticks|;
    if n > 0 {
      var pre := ticks[..n - 1];
      TicksFireOnce(t, pre, wait);
      if SomeTickDue(pre, t.deadline) {
        var i :| 0 <= i < |pre| && pre[i].at >= t.deadline;
        assert ticks[i] == pre[i];
      } else if ticks[n - 1].at >= t.deadline {
        assert SomeTickDue(ticks, t.deadline);
      } else {
        forall i | 0 <= i < n
          ensures ticks[i].at < t.deadline
        {
          if i < n - 1 {
            assert ticks[i] == pre[i];
          }
        }
      }
    }
  }

  lemma {:induction false} RunAppend<A>(p: Option<Timer<A>>, a: seq<Event<A>>, b: seq<Event<A>>, wait: int)
    ensures Run(p, a + b, wait).0 == Run(Run(p, a, wait).0, b, wait).0
    ensures Run(p, a + b, wait).1 == Run(p, a, wait).1 + Run(Run(p, a, wait).0, b, wait).1
  {
    if b == [] {
      assert a + b == a;
    } else {
      var n := |b|;
      RunAppend(p, a, b[..n - 1], wait);
      assert (a + b)[..|a + b| - 1] == a + b[..n - 1];
      assert (a + b)[|a + b| - 1] == b[n - 1];
    }
  }

  /**
   * The debounce promise: a burst of calls followed by a quiet period runs
   * the wrapped function exactly once, with the arguments of the last call,
   * as soon as the clock reaches that call's deadline; and not at all if it
   * never does.
   */
  lemma LastCallWins<A>(p: Option<Timer<A>>, burst: seq<Event<A>>, ticks: seq<Event<A>>, wait: int)
    requires Burst(burst, wait) && AllTicks(ticks)
    ensures LastCall(burst).Some?
    ensures Run(p, burst + ticks, wait).1 ==
              if SomeTickDue(ticks, LastCall(burst).value.at + wait) then [LastCall(burst).value.args] else []
  {
    BurstQuiet(p, burst, wait);
    RunAppend(p, burst, ticks, wait);
    TicksFireOnce(TimerFor(LastCall(burst).value, wait), ticks, wait);
  }

  /** `debounce(func, wait)`: the closure's `timeout` variable is the field `pending`. */
  class Debouncer<A> {
    const wait: int
    var pending: Option<Timer<A>>

    constructor (wait: int)
      ensures this.wait == wait && pending == None
    {
      this.wait := wait;
      pending := None;
    }

    /** `executedFunction(...args)`: the pending call is cancelled and a new one scheduled. */
    method Call(args: A, now: int)
      modifies this
      ensures pending == Step(old(pending), Event.Call(args, now), wait).0
      ensures pending == Some(Timer(now + wait, args))
    {
      pending := Some(Timer(now + wait, args));
    }

    /** The clock reaching `now`: the pending call runs if it is due (`later`). */
    method Tick(now: int) returns (fired: Option<A>)
      modifies this
      ensures (pending, fired) == Step(old(pending), Event.Tick(now), wait)
      ensures fired.Some? <==> old(pending).Some? && old(pending).value.deadline <= now
    {
      fired := None;
      if pending.Some? && pending.value.deadline <= now {
        fired := Some(pending.value.args);
        pending := None;
      }
    }
  }

  /** The wait of `handleResize`, in milliseconds. */
  const ResizeWait: int := 100

  datatype Geometry = Geometry(cols: int, rows: int)

  /**
   * One run of the debounced resize body: with a terminal and its fit
   * addon present, a fit that does not throw yields the terminal's new
   * geometry, which is sent as a `resize` message if the socket is open.
   */
  function ResizeAction(hasTerminal: bool, fitted: Option<Geometry>, socketOpen: bool): (m: Option<ClientMessage>)
    ensures m.Some? <==> hasTerminal && fitted.Some? && socketOpen
    ensures m.Some? ==> m.value == Resize(fitted.value.cols, fitted.value.rows)
    ensures m.Some? ==> m.value.Tag() == ResizeType && Prepare(Ready(m.value)) == Success(m.value)
  {
    if hasTerminal && fitted.Some? && socketOpen then Some(Resize(fitted.value.cols, fitted.value.rows)) else None
  }

  /**
   * A debounced resize sends the same `resize` message the open handler
   * sends for the same geometry.
   */
  lemma ResizeMatchesHandshake(cfg: SessionConfig, g: Geometry)
    requires HandshakeTextsWellFormed(cfg)
    ensures var sent := Handshake(cfg, g.cols, g.rows).sent;
            |sent| >= 2 && ResizeAction(true, Some(g), true) == Some(sent[|sent| - 2])
  {
    HandshakeComplete(cfg, g.cols, g.rows);
  }

  /**
   * A burst of window resize events (no tick in it reaches the deadline of
   * the latest resize before it) followed by ticks only: the body runs once
   * if some tick comes 100 ms or more after the last resize, and never
   * otherwise.
   */
  lemma ResizeBurstRunsOnce(events: seq<Event<()>>, ticks: seq<Event<()>>)
    requires Burst(events, ResizeWait) && AllTicks(ticks)
    ensures LastCall(events).Some?
    ensures |Run(None, events + ticks, ResizeWait).1| == if SomeTickDue(ticks, LastCall(events).value.at + ResizeWait) then 1 else 0
  {
    LastCallWins(None, events, ticks, ResizeWait);
  }
}
