/**
 * The study-session timer: four pieces of component state, the three
 * button handlers and the once-a-second interval step.
 *
 * `Step` and `Run` give the meaning of each action and of a whole sequence
 * of actions as values; the class `Component` holds the state as mutable
 * fields and its handlers are proved to follow `Step`. The wall clock is the
 * `now` parameter; the optional completion callback is a flag, and a call of
 * it is the minutes value a handler reports.
 */
module SessionTimer {
  import opened Wrappers
  import TimerDisplay

  /** More than this many milliseconds without a user action stops a running session. */
  const InactivityLimit: int := 120000

  /** The component state: `isActive`, `isPaused`, `time` (seconds), `lastActivity` (ms). */
  datatype Timer = Timer(isActive: bool, isPaused: bool, time: int, lastActivity: int)
  {
    /** The interval is installed, so ticks happen, only in this state. */
    predicate Running() {
      isActive && !isPaused
    }
  }

  /** The invariant every reachable state keeps. */
  predicate Inv(t: Timer) {
    t.time >= 0 && (!t.isActive ==> t.time == 0)
  }

  /** The state on mount: inactive, unpaused, no time, activity stamped now. */
  function Initial(now: int): (t: Timer)
    ensures Inv(t) && !t.Running()
  {
    Timer(false, false, 0, now)
  }

  /** What can happen to the timer: the three buttons and one interval tick. */
  datatype Action = Start(now: int) | Pause(now: int) | Stop | Tick(now: int)

  /** A state after one action, with the minutes handed to the callback, if it was called. */
  datatype StepResult = StepResult(next: Timer, reported: Option<int>)

  /** handleStop: reset, and report whole minutes when there is a callback and time. */
  function StopStep(t: Timer, hasCallback: bool): (r: StepResult)
    ensures !r.next.Running() && !r.next.isActive && r.next.time == 0
    ensures r.next.lastActivity == t.lastActivity
    ensures r.reported.Some? <==> hasCallback && t.time > 0
    ensures r.reported.Some? ==> r.reported.value == t.time / 60
  {
    StepResult(
      t.(isActive := false, isPaused := false, time := 0),
      if hasCallback && t.time > 0 then Some(t.time / 60) else None)
  }

  /** One action applied to a state. */
  function Step(t: Timer, a: Action, hasCallback: bool): (r: StepResult)
    ensures Inv(t) ==> Inv(r.next)
    ensures r.reported.Some? ==>
      (a.Stop? || a.Tick?) && hasCallback && t.time > 0 && r.reported.value == t.time / 60
      && !r.next.isActive && r.next.time == 0
    ensures a.Start? || a.Pause? ==> r.next.lastActivity == a.now && r.next.time == t.time
    ensures a.Tick? ==> r.next.time == 0 || r.next.time == t.time || r.next.time == t.time + 1
  {
    match a
    case Start(now) => StepResult(t.(isActive := true, isPaused := false, lastActivity := now), None)
    case Pause(now) => StepResult(t.(isPaused := !t.isPaused, lastActivity := now), None)
    case Stop => StopStep(t, hasCallback)
    case Tick(now) =>
      if !t.Running() then StepResult(t, None)
      else if now - t.lastActivity > InactivityLimit then StopStep(t, hasCallback)
      else StepResult(t.(time := t.time + 1), None)
  }

  /** The final state of a sequence of actions and every value reported on the way, in order. */
  datatype Trace = Trace(final: Timer, reports: seq<int>)

  function Run(t: Timer, actions: seq<Action>, hasCallback: bool): Trace
    decreases |actions|
  {
    if actions == [] then Trace(t, [])
    else
      var r := Step(t, actions[0], hasCallback);
      var rest := Run(r.next, actions[1..], hasCallback);
      Trace(rest.final, (if r.reported.Some? then [r.reported.value] else []) + rest.reports)
  }

  /** Running two sequences one after the other is running their concatenation. */
  lemma {:induction false} RunAppend(t: Timer, xs: seq<Action>, ys: seq<Action>, hasCallback: bool)
    ensures Run(t, xs + ys, hasCallback).final == Run(Run(t, xs, hasCallback).final, ys, hasCallback).final
    ensures Run(t, xs + ys, hasCallback).reports
         == Run(t, xs, hasCallback).reports + Run(Run(t, xs, hasCallback).final, ys, hasCallback).reports
    decreases |xs|
  {
    if xs != [] {
      var r := Step(t, xs[0], hasCallback);
      var emitted := if r.reported.Some? then [r.reported.value] else [];
      assert (xs + ys)[0] == xs[0] && (xs + ys)[1..] == xs[1..] + ys;
      var mid := Run(r.next, xs[1..], hasCallback);
      var whole := Run(r.next, xs[1..] + ys, hasCallback);
      assert Run(t, xs + ys, hasCallback) == Trace(whole.final, emitted + whole.reports);
      assert Run(t, xs, hasCallback) == Trace(mid.final, emitted + mid.reports);
      RunAppend(r.next, xs[1..], ys, hasCallback);
    } else {
      assert xs + ys == ys;
    }
  }

  // ---------------------------------------------------------------------
  // The invariant and what the callback receives over any run
  // ---------------------------------------------------------------------

  /** The invariant holds after any sequence of actions. */
  lemma {:induction false} RunKeepsInv(t: Timer, actions: seq<Action>, hasCallback: bool)
    requires Inv(t)
    ensures Inv(Run(t, actions, hasCallback).final)
    decreases |actions|
  {
    if actions != [] {
      RunKeepsInv(Step(t, actions[0], hasCallback).next, actions[1..], hasCallback);
    }
  }

  /** Without a callback nothing is ever reported. */
  lemma {:induction false} NoCallbackNoReports(t: Timer, actions: seq<Action>)
    ensures Run(t, actions, false).reports == []
    decreases |actions|
  {
    if actions != [] {
      NoCallbackNoReports(Step(t, actions[0], false).next, actions[1..]);
    }
  }

  function Sum(xs: seq<int>): int {
    if xs == [] then 0 else xs[0] + Sum(xs[1..])
  }

  function TickCount(actions: seq<Action>): (n: nat)
    ensures n <= |actions|
  {
    if actions == [] then 0 else (if actions[0].Tick? then 1 else 0) + TickCount(actions[1..])
  }

  /** One action: seconds reported plus seconds left never exceed seconds before plus a tick. */
  lemma StepReportBound(t: Timer, a: Action, hasCallback: bool)
    requires Inv(t)
    ensures var r := Step(t, a, hasCallback);
      (if r.reported.Some? then r.reported.value * 60 else 0) + r.next.time
        <= t.time + (if a.Tick? then 1 else 0)
      && (r.reported.Some? ==> r.reported.value >= 0)
  {
  }

  lemma SumPrepend(v: int, rest: seq<int>)
    ensures Sum([v] + rest) == v + Sum(rest)
  {
    assert ([v] + rest)[1..] == rest;
  }

  /**
   * The callback never over-reports: the minutes reported, in seconds, plus
   * the seconds still on the clock never exceed the seconds on the clock at
   * the outset plus the ticks that happened; and no report is negative.
   */
  lemma {:induction false} ReportsBoundedByTicks(t: Timer, actions: seq<Action>, hasCallback: bool)
    requires Inv(t)
    ensures Sum(Run(t, actions, hasCallback).reports) * 60 + Run(t, actions, hasCallback).final.time
         <= t.time + TickCount(actions)
    ensures forall v <- Run(t, actions, hasCallback).reports :: v >= 0
    decreases |actions|
  {
    if actions != [] {
      var r := Step(t, actions[0], hasCallback);
      var tail := Run(r.next, actions[1..], hasCallback);
      StepReportBound(t, actions[0], hasCallback);
      ReportsBoundedByTicks(r.next, actions[1..], hasCallback);
      assert TickCount(actions) == (if actions[0].Tick? then 1 else 0) + TickCount(actions[1..]);
      if r.reported.Some? {
        assert Run(t, actions, hasCallback).reports == [r.reported.value] + tail.reports;
        SumPrepend(r.reported.value, tail.reports);
      } else {
        assert Run(t, actions, hasCallback).reports == tail.reports;
      }
    }
  }

  // ---------------------------------------------------------------------
  // Runs of ticks
  // ---------------------------------------------------------------------

  /** A tick at each of the given instants, in order. */
  function Ticks(nows: seq<int>): (actions: seq<Action>)
    ensures |actions| == |nows|
    ensures forall i :: 0 <= i < |nows| ==> actions[i] == Tick(nows[i])
  {
    if nows == [] then [] else [Tick(nows[0])] + Ticks(nows[1..])
  }

  /** Ticks leave a timer that is not running, paused or idle, exactly as it was. */
  lemma {:induction false} IdleTicksChangeNothing(t: Timer, nows: seq<int>, hasCallback: bool)
    requires !t.Running()
    ensures Run(t, Ticks(nows), hasCallback) == Trace(t, [])
    decreases |nows|
  {
    if nows != [] {
      assert Ticks(nows)[1..] == Ticks(nows[1..]);
      IdleTicksChangeNothing(t, nows[1..], hasCallback);
    }
  }

  /**
   * While running, ticks that all come at most `InactivityLimit` ms after
   * the last user action each add exactly one second and report nothing.
   */
  lemma {:induction false} ActiveTicksCount(t: Timer, nows: seq<int>, hasCallback: bool)
    requires t.Running()
    requires forall i :: 0 <= i < |nows| ==> nows[i] - t.lastActivity <= InactivityLimit
    ensures Run(t, Ticks(nows), hasCallback) == Trace(t.(time := t.time + |nows|), [])
    decreases |nows|
  {
    if nows != [] {
      assert Ticks(nows)[1..] == Ticks(nows[1..]);
      ActiveTicksCount(t.(time := t.time + 1), nows[1..], hasCallback);
    }
  }

  /** Ticks one second apart: at `from + 1000 * k` for k = first, first + 1, ..., first + n - 1. */
  function EverySecond(from: int, first: nat, n: nat): (nows: seq<int>)
    ensures |nows| == n
    ensures forall i :: 0 <= i < n ==> nows[i] == from + 1000 * (first + i)
    decreases n
  {
    if n == 0 then [] else [from + 1000 * first] + EverySecond(from, first + 1, n - 1)
  }

  /** How many ticks, from the first, come at most `InactivityLimit` ms after `last`. */
  function OnTimeCount(nows: seq<int>, last: int): (j: nat)
    ensures j <= |nows|
    ensures forall i :: 0 <= i < j ==> nows[i] - last <= InactivityLimit
    ensures j < |nows| ==> nows[j] - last > InactivityLimit
  {
    if nows == [] || nows[0] - last > InactivityLimit then 0
    else 1 + OnTimeCount(nows[1..], last)
  }

  /**
   * Any run of ticks on a running timer: the on-time ticks each add a second;
   * the first late tick, if there is one, stops the timer and reports the
   * minutes counted, and the ticks after it change nothing.
   */
  lemma {:induction false} TicksUntilLate(t: Timer, nows: seq<int>, hasCallback: bool)
    requires t.Running()
    ensures var j := OnTimeCount(nows, t.lastActivity);
      Run(t, Ticks(nows), hasCallback)
        == if j == |nows| then Trace(t.(time := t.time + j), [])
           else Trace(t.(isActive := false, isPaused := false, time := 0),
                      if hasCallback && t.time + j > 0 then [(t.time + j) / 60] else [])
    decreases |nows|
  {
    if nows != [] {
      assert Ticks(nows)[0] == Tick(nows[0]);
      assert Ticks(nows)[1..] == Ticks(nows[1..]);
      if nows[0] - t.lastActivity > InactivityLimit {
        IdleTicksChangeNothing(t.(isActive := false, isPaused := false, time := 0), nows[1..], hasCallback);
      } else {
        TicksUntilLate(t.(time := t.time + 1), nows[1..], hasCallback);
      }
    }
  }

  /**
   * The interval is installed only after the state that starts or resumes
   * the timer has been rendered, and again after every tick, so the k-th
   * tick comes no earlier than `1000 * k` ms after the last user action.
   */
  predicate NoEarlyTicks(nows: seq<int>, last: int) {
    forall k :: 0 <= k < |nows| ==> nows[k] >= last + 1000 * (k + 1)
  }

  /**
   * However late the ticks come, a running timer left alone for more than
   * 120 ticks has stopped: it counted at most 120 of them, reported those
   * minutes once (when there is a callback and time), and is idle at 0.
   * So no session runs on for 600 uninterrupted ticks.
   */
  lemma AutoStopWithinTwoMinutes(t: Timer, nows: seq<int>, hasCallback: bool)
    requires t.Running() && t.time >= 0
    requires |nows| > 120 && NoEarlyTicks(nows, t.lastActivity)
    ensures var tr, j := Run(t, Ticks(nows), hasCallback), OnTimeCount(nows, t.lastActivity);
      j <= 120
      && tr.final == t.(isActive := false, isPaused := false, time := 0)
      && tr.reports == (if hasCallback && t.time + j > 0 then [(t.time + j) / 60] else [])
    ensures forall v <- Run(t, Ticks(nows), hasCallback).reports :: t.time / 60 <= v <= (t.time + 120) / 60
  {
    var j := OnTimeCount(nows, t.lastActivity);
    assert nows[120] - t.lastActivity > InactivityLimit;
    assert j <= 120;
    TicksUntilLate(t, nows, hasCallback);
  }

  /** `OnTimeCount` is the index of the first late tick. */
  lemma {:induction false} OnTimeCountAt(nows: seq<int>, last: int, j: nat)
    requires j < |nows|
    requires forall i :: 0 <= i < j ==> nows[i] - last <= InactivityLimit
    requires nows[j] - last > InactivityLimit
    ensures OnTimeCount(nows, last) == j
    decreases j
  {
    if j > 0 {
      OnTimeCountAt(nows[1..], last, j - 1);
    }
  }

  /**
   * Ticks exactly on schedule, at `lastActivity + 1000 * k`, the earliest
   * they can come: the limit is strict, so the tick at exactly 120000 ms
   * still counts; the session counts 120 ticks, stops at the 121st and
   * reports once, and then ticks change nothing.
   */
  lemma AutoStopAfterTwoMinutes(t: Timer, n: nat, hasCallback: bool)
    requires t.Running() && t.time >= 0
    requires n > 120
    ensures var tr := Run(t, Ticks(EverySecond(t.lastActivity, 1, n)), hasCallback);
      tr.final == t.(isActive := false, isPaused := false, time := 0)
      && tr.reports == if hasCallback then [(t.time + 120) / 60] else []
  {
    var nows := EverySecond(t.lastActivity, 1, n);
    OnTimeCountAt(nows, t.lastActivity, 120);
    TicksUntilLate(t, nows, hasCallback);
  }

  /**
   * One millisecond of lateness is enough to lose a tick: ticks at
   * `lastActivity + 1000 * k + 1` count 119 seconds and stop at the 120th.
   */
  lemma LateTicksStopAtTheHundredTwentieth(t: Timer, n: nat, hasCallback: bool)
    requires t.Running() && t.time >= 0
    requires n > 120
    ensures var tr := Run(t, Ticks(EverySecond(t.lastActivity + 1, 1, n)), hasCallback);
      tr.final == t.(isActive := false, isPaused := false, time := 0)
      && tr.reports == if hasCallback then [(t.time + 119) / 60] else []
  {
    var nows := EverySecond(t.lastActivity + 1, 1, n);
    OnTimeCountAt(nows, t.lastActivity, 119);
    TicksUntilLate(t, nows, hasCallback);
  }

  /**
   * Start, 119 one-second ticks, Stop: the callback receives 1 (119 seconds
   * truncate to one minute), and the timer is back at 0 and idle.
   */
  lemma StopTruncatesToMinutes(mounted: int, startedAt: int)
    ensures var tr := Run(Initial(mounted), [Start(startedAt)] + Ticks(EverySecond(startedAt, 1, 119)) + [Stop], true);
      tr.reports == [1] && tr.final == Timer(false, false, 0, startedAt)
  {
    var ticks := Ticks(EverySecond(startedAt, 1, 119));
    var started := Timer(true, false, 0, startedAt);
    ActiveTicksCount(started, EverySecond(startedAt, 1, 119), true);
    RunAppend(Initial(mounted), [Start(startedAt)], ticks, true);
    RunAppend(Initial(mounted), [Start(startedAt)] + ticks, [Stop], true);
  }

  // ---------------------------------------------------------------------
  // The component, state held in fields as the source holds it
  // ---------------------------------------------------------------------

  class Component {
    /** Whether an `onSessionComplete` callback was supplied. */
    const hasCallback: bool
    /** The goal in minutes; only the progress figures use it. */
    const targetDuration: int

    var isActive: bool
    var isPaused: bool
    var time: int
    var lastActivity: int

    function State(): Timer
      reads this
    {
      Timer(isActive, isPaused, time, lastActivity)
    }

    ghost predicate Valid()
      reads this
    {
      Inv(State())
    }

    /** Mounting: `targetDuration` defaults to 45 minutes; the activity stamp is the mount time. */
    constructor (onSessionComplete: bool, targetDuration: Option<int>, now: int)
      ensures Valid()
      ensures State() == Initial(now)
      ensures hasCallback == onSessionComplete
      ensures this.targetDuration == targetDuration.GetOr(TimerDisplay.DefaultTargetDuration)
    {
      hasCallback := onSessionComplete;
      this.targetDuration := targetDuration.GetOr(TimerDisplay.DefaultTargetDuration);
      isActive := false;
      isPaused := false;
      time := 0;
      lastActivity := now;
    }

    /** handleStart: active and unpaused, stamped now; `time` is left as it is. */
    method HandleStart(now: int)
      requires Valid()
      modifies this
      ensures Valid()
      ensures isActive && !isPaused && lastActivity == now && time == old(time)
      ensures !old(isActive) ==> time == 0
      ensures State() == Step(old(State()), Start(now), hasCallback).next
    {
      isActive := true;
      isPaused := false;
      lastActivity := now;
    }

    /** handlePause: flips `isPaused` and stamps now, in any state. */
    method HandlePause(now: int)
      requires Valid()
      modifies this
      ensures Valid()
      ensures isPaused == !old(isPaused) && lastActivity == now
      ensures isActive == old(isActive) && time == old(time)
      ensures State() == Step(old(State()), Pause(now), hasCallback).next
    {
      isPaused := !isPaused;
      lastActivity := now;
    }

    /**
     * handleStop: inactive, unpaused, `time` 0, whatever the state; the
     * callback gets the whole minutes exactly when it exists and `time > 0`.
     */
    method HandleStop() returns (reported: Option<int>)
      requires Valid()
      modifies this
      ensures Valid()
      ensures !isActive && !isPaused && time == 0 && lastActivity == old(lastActivity)
      ensures reported.Some? <==> hasCallback && old(time) > 0
      ensures reported.Some? ==> reported.value == old(time) / 60
      ensures StepResult(State(), reported) == Step(old(State()), Stop, hasCallback)
    {
      isActive := false;
      isPaused := false;
      if hasCallback && time > 0 {
        reported := Some(time / 60);
      } else {
        reported := None;
      }
      time := 0;
    }

    /**
     * One interval callback. Only a running timer has an interval; more than
     * `InactivityLimit` ms since the last user action stops it as handleStop
     * does, otherwise one second is added.
     */
    method Tick(now: int) returns (reported: Option<int>)
      requires Valid()
      modifies this
      ensures Valid()
      ensures !old(State().Running()) ==> State() == old(State()) && reported == None
      ensures old(State().Running()) && now - old(lastActivity) > InactivityLimit ==>
        !isActive && !isPaused && time == 0 && lastActivity == old(lastActivity)
        && reported == (if hasCallback && old(time) > 0 then Some(old(time) / 60) else None)
      ensures old(State().Running()) && now - old(lastActivity) <= InactivityLimit ==>
        time == old(time) + 1 && isActive && !isPaused && lastActivity == old(lastActivity)
        && reported == None
      ensures StepResult(State(), reported) == Step(old(State()), Action.Tick(now), hasCallback)
    {
      reported := None;
      if isActive && !isPaused {
        if now - lastActivity > InactivityLimit {
          reported := HandleStop();
          return;
        }
        time := time + 1;
      }
    }

    /** The fraction of the progress bar that is filled. */
    function Progress(): (p: real)
      reads this
      requires Valid() && targetDuration > 0
      ensures 0.0 <= p <= 1.0
      ensures p == 1.0 <==> time >= 60 * targetDuration
    {
      TimerDisplay.Progress(time, targetDuration)
    }

    /** The "N% of target completed" figure. */
    function PercentComplete(): (pct: nat)
      reads this
      requires Valid() && targetDuration > 0
      ensures pct * (60 * targetDuration) <= time * 100 < (pct + 1) * (60 * targetDuration)
      ensures pct >= 100 <==> time >= 60 * targetDuration
    {
      TimerDisplay.PercentReachesHundred(time, targetDuration);
      TimerDisplay.PercentComplete(time, targetDuration)
    }

    /** The clock text shown for the current `time`. */
    function Clock(): (text: string)
      reads this
      requires Valid()
      ensures TimerDisplay.ParseClock(text) == Some(time)
    {
      TimerDisplay.FormatTimeRoundTrip(time);
      TimerDisplay.FormatTime(time)
    }
  }
}
