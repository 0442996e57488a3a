/** The stack's visibility and idle tracking: the time of the last activity,
    whether the one-second timer runs, and whether the stack is shown
    (opacity animated towards 1) or hidden (towards 0). Times are
    `DateTime` ticks of 100 ns. */
module IdleClock {

  const TicksPerSecond: int := 10_000_000

  /** `TimeoutToHide`: five seconds of inactivity hide the stack. */
  const TimeoutToHide: int := 5 * TicksPerSecond

  /** The timer's `Interval`, set by the stack's constructor. */
  const TickInterval: int := TicksPerSecond

  datatype State = State(lastMouseMove: int, timerEnabled: bool, visible: bool)

  /** `Show`: restart the idle clock, fade in, start the timer if stopped. */
  function Show(s: State, now: int): State
  {
    State(now, true, true)
  }

  /** `Hide`: fade out and stop the timer if it runs; the idle clock stays. */
  function Hide(s: State): State
  {
    s.(timerEnabled := false, visible := false)
  }

  /** `TimerOnTick`, given whether some progress item is unfinished. */
  function Tick(s: State, now: int, unfinished: bool): State
  {
    if now - s.lastMouseMove >= TimeoutToHide then
      if !unfinished then Hide(s) else s.(lastMouseMove := now)
    else s
  }

  /** The mouse-move handler, given whether the item list is empty. */
  function MouseMove(s: State, now: int, empty: bool): State
  {
    if empty then s else Show(s.(lastMouseMove := now), now)
  }

  /** Timer ticks at the given times, with the unfinished state fixed. */
  function Ticks(s: State, times: seq<int>, unfinished: bool): State
    decreases times
  {
    if times == [] then s else Ticks(Tick(s, times[0], unfinished), times[1..], unfinished)
  }

  /** `n` ticks, one second apart, the first one second after `start`. */
  function PeriodicTimes(start: int, n: nat): seq<int>
  {
    seq(n, k => start + (k + 1) * TickInterval)
  }

  lemma ShowIdempotent(s: State, now: int)
    ensures Show(Show(s, now), now) == Show(s, now)
    ensures Show(s, now).visible && Show(s, now).timerEnabled && Show(s, now).lastMouseMove == now
  {
  }

  lemma HideIdempotent(s: State)
    ensures Hide(Hide(s)) == Hide(s)
    ensures !Hide(s).visible && !Hide(s).timerEnabled
  {
  }

  /** While some progress item is unfinished, no sequence of ticks hides the
      stack or stops its timer: at most the idle clock moves. */
  lemma {:induction false} BusyNeverHides(s: State, times: seq<int>)
    ensures Ticks(s, times, true).visible == s.visible
    ensures Ticks(s, times, true).timerEnabled == s.timerEnabled
    decreases times
  {
    if times != [] {
      BusyNeverHides(Tick(s, times[0], true), times[1..]);
    }
  }

  /** With no unfinished item, a sequence of ticks leaves the stack visible
      exactly when it was visible and no tick came `TimeoutToHide` or more
      after the last activity; when it leaves it visible, nothing changed. */
  lemma {:induction false} IdleHidesIff(s: State, times: seq<int>)
    ensures Ticks(s, times, false).visible
        <==> s.visible && forall k :: 0 <= k < |times| ==> times[k] - s.lastMouseMove < TimeoutToHide
    ensures (forall k :: 0 <= k < |times| ==> times[k] - s.lastMouseMove < TimeoutToHide)
        ==> Ticks(s, times, false) == s
    ensures Ticks(s, times, false).lastMouseMove == s.lastMouseMove
    decreases times
  {
    if times != [] {
      var s' := Tick(s, times[0], false);
      IdleHidesIff(s', times[1..]);
      assert s'.lastMouseMove == s.lastMouseMove;
      assert forall k :: 1 <= k < |times| ==> times[k] == times[1..][k - 1];
    }
  }

  /** Ticking every second after the last activity with nothing unfinished,
      the stack stays visible through the fourth tick and is hidden on the
      fifth. */
  lemma IdleHidesOnFifthTick(s: State, n: nat)
    requires s.visible
    ensures Ticks(s, PeriodicTimes(s.lastMouseMove, n), false).visible <==> n < 5
  {
    var times := PeriodicTimes(s.lastMouseMove, n);
    IdleHidesIff(s, times);
    if n >= 5 {
      assert times[4] - s.lastMouseMove == TimeoutToHide;
    }
  }

  /** Activity resets the idle clock: shown at `t0`, a mouse move four
      seconds later keeps the stack up until five seconds after the move. */
  lemma MouseMoveResetsIdle(s: State, t0: int)
    ensures Tick(Show(s, t0), t0 + 4 * TicksPerSecond, false).visible
    ensures var moved := MouseMove(Tick(Show(s, t0), t0 + 4 * TicksPerSecond, false), t0 + 4 * TicksPerSecond, false);
            Tick(moved, t0 + 8 * TicksPerSecond, false).visible
            && !Tick(Tick(moved, t0 + 8 * TicksPerSecond, false), t0 + 9 * TicksPerSecond, false).visible
  {
  }
}
