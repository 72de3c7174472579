/** The stopwatch's state and the effect of each of its operations, as values.
    The class in `StopwatchEngine` performs these updates in place; the
    properties of the stopwatch are proved here about the values. */
module StopwatchSpec {
  import TF = TimeFormat

  /** One row of the splits list. */
  datatype Lap = Lap(number: int, duration: int, total: int)

  /** The module-level variables of the stopwatch. Times are integer
      milliseconds of a wall clock; an elapsed time is a difference of two of
      them and may be negative if the clock steps back. */
  datatype State = State(
    stopwatchStartTime: int,
    lapStartTime: int,
    stopwatchElapsedTime: int,
    lapElapsedTime: int,
    isRunning: bool,
    laps: seq<Lap>)

  /** The state when the page loads, and again after a reset. */
  function Initial(): (r: State)
    ensures !r.isRunning && r.laps == []
    ensures r.stopwatchStartTime == r.lapStartTime == r.stopwatchElapsedTime == r.lapElapsedTime == 0
  {
    State(0, 0, 0, 0, false, [])
  }

  /** One display frame at instant `now`: while running, both elapsed times
      are measured from their start instants to `now`; otherwise nothing
      changes. The start instants, the mode and the laps never change. */
  function Tick(s: State, now: int): (r: State)
    ensures !s.isRunning ==> r == s
    ensures r.isRunning == s.isRunning && r.laps == s.laps
    ensures r.stopwatchStartTime == s.stopwatchStartTime && r.lapStartTime == s.lapStartTime
    ensures s.isRunning ==> r.stopwatchElapsedTime == now - s.stopwatchStartTime
    ensures s.isRunning ==> r.lapElapsedTime == now - s.lapStartTime
  {
    if s.isRunning then
      s.(stopwatchElapsedTime := now - s.stopwatchStartTime, lapElapsedTime := now - s.lapStartTime)
    else
      s
  }

  /** Start or resume at `now`: both start instants are moved back by the
      elapsed times already banked, so measuring from them continues where
      the stopwatch stopped. */
  function Start(s: State, now: int): (r: State)
    ensures r.isRunning && r.laps == s.laps
    ensures r.stopwatchElapsedTime == s.stopwatchElapsedTime && r.lapElapsedTime == s.lapElapsedTime
    ensures now - r.stopwatchStartTime == s.stopwatchElapsedTime
    ensures now - r.lapStartTime == s.lapElapsedTime
  {
    s.(stopwatchStartTime := now - s.stopwatchElapsedTime,
       lapStartTime := now - s.lapElapsedTime,
       isRunning := true)
  }

  /** Pause: the mode is cleared and nothing else changes; in particular
      the clock is not read, so the elapsed times stay those of the last frame. */
  function Pause(s: State): (r: State)
    ensures !r.isRunning
    ensures r.(isRunning := s.isRunning) == s
  {
    s.(isRunning := false)
  }

  /** The start/pause button. Starting is followed by a first frame, which
      reads the clock again, at `frameNow`. */
  function Toggle(s: State, now: int, frameNow: int): (r: State)
    ensures s.isRunning ==> r == Pause(s)
    ensures !s.isRunning ==> r.isRunning && r.laps == s.laps
    ensures !s.isRunning ==> r.stopwatchStartTime == now - s.stopwatchElapsedTime
    ensures !s.isRunning ==> r.lapStartTime == now - s.lapElapsedTime
    ensures !s.isRunning ==> r.stopwatchElapsedTime == s.stopwatchElapsedTime + (frameNow - now)
    ensures !s.isRunning ==> r.lapElapsedTime == s.lapElapsedTime + (frameNow - now)
  {
    if s.isRunning then Pause(s) else Tick(Start(s, now), frameNow)
  }

  /** The row a lap press appends: numbered after the rows already there,
      holding the elapsed times of the last frame. */
  function NewLap(s: State): (r: Lap)
    ensures r.number == |s.laps| + 1
    ensures r.duration == s.lapElapsedTime && r.total == s.stopwatchElapsedTime
    ensures Numbered(s.laps) ==> Numbered(s.laps + [r])
  {
    Lap(|s.laps| + 1, s.lapElapsedTime, s.stopwatchElapsedTime)
  }

  /** The lap button at `now`, followed by a frame at `frameNow`. While
      running, exactly one row is appended after the earlier ones, which are
      untouched; the lap clock restarts at `now`; the total clock's start
      instant is kept. While not running, nothing happens. */
  function RecordLap(s: State, now: int, frameNow: int): (r: State)
    ensures !s.isRunning ==> r == s
    ensures s.isRunning ==> r.isRunning && r.laps == s.laps + [NewLap(s)]
    ensures s.isRunning ==> r.lapStartTime == now && r.lapElapsedTime == frameNow - now
    ensures s.isRunning ==> r.stopwatchStartTime == s.stopwatchStartTime
    ensures s.isRunning ==> r.stopwatchElapsedTime == frameNow - s.stopwatchStartTime
  {
    if !s.isRunning then s
    else
      var recorded := s.(laps := s.laps + [NewLap(s)], lapStartTime := now, lapElapsedTime := 0);
      Tick(recorded, frameNow)
  }

  /** The reset button, from any state: stopped, all four times zero, no laps. */
  function Stop(s: State): (r: State)
    ensures r == Initial()
  {
    State(0, 0, 0, 0, false, [])
  }

  /** The frames of the display loop, the last one being the latest. */
  function Frames(s: State, frames: seq<int>): State
  {
    if frames == [] then s else Tick(Frames(s, frames[..|frames| - 1]), frames[|frames| - 1])
  }

  /** While running, only the latest frame matters. */
  lemma {:induction false} FramesLatest(s: State, frames: seq<int>)
    requires frames != []
    ensures Frames(s, frames) == Tick(s, frames[|frames| - 1])
  {
    if |frames| > 1 {
      FramesLatest(s, frames[..|frames| - 1]);
    }
  }

  /** A frame repeated at the same instant changes nothing more. */
  lemma TickIdempotent(s: State, now: int)
    ensures Tick(Tick(s, now), now) == Tick(s, now)
  {
  }

  /** A frame at the very instant of a start or resume shows exactly the
      banked elapsed times, and a later frame adds only the time since. */
  lemma ResumeContinues(s: State, now: int, later: int)
    ensures Tick(Start(s, now), now).stopwatchElapsedTime == s.stopwatchElapsedTime
    ensures Tick(Start(s, now), now).lapElapsedTime == s.lapElapsedTime
    ensures Tick(Start(s, now), later).stopwatchElapsedTime == s.stopwatchElapsedTime + (later - now)
    ensures Tick(Start(s, now), later).lapElapsedTime == s.lapElapsedTime + (later - now)
  {
  }

  // ----- Sequences of user actions -----

  /** What can happen to the stopwatch: a display frame, a press of one of
      the three buttons, each with the clock readings it takes. */
  datatype Event =
    | Frame(now: int)
    | StartPause(now: int, frameNow: int)
    | LapPress(now: int, frameNow: int)
    | Reset

  function Step(s: State, e: Event): State
  {
    match e
    case Frame(now) => Tick(s, now)
    case StartPause(now, frameNow) => Toggle(s, now, frameNow)
    case LapPress(now, frameNow) => RecordLap(s, now, frameNow)
    case Reset => Stop(s)
  }

  /** The state after the events, the last one being the latest. */
  function Run(s: State, events: seq<Event>): State
  {
    if events == [] then s else Step(Run(s, events[..|events| - 1]), events[|events| - 1])
  }

  /** The rows are numbered 1, 2, 3, ... in the order they were recorded. */
  ghost predicate Numbered(laps: seq<Lap>) {
    forall i :: 0 <= i < |laps| ==> laps[i].number == i + 1
  }

  lemma StepNumbered(s: State, e: Event)
    requires Numbered(s.laps)
    ensures Numbered(Step(s, e).laps)
  {
    match e
    case Frame(_) =>
    case StartPause(_, _) =>
    case LapPress(now, frameNow) =>
      var r := RecordLap(s, now, frameNow);
      if s.isRunning {
        assert r.laps == s.laps + [NewLap(s)];
      }
    case Reset =>
  }

  /** After any sequence of actions from page load, the N rows of the splits
      list are numbered exactly 1..N. */
  lemma {:induction false} RunNumbered(events: seq<Event>)
    ensures Numbered(Run(Initial(), events).laps)
  {
    if events != [] {
      RunNumbered(events[..|events| - 1]);
      StepNumbered(Run(Initial(), events[..|events| - 1]), events[|events| - 1]);
    }
  }

  // ----- With a clock that does not go back -----

  function SumDurations(laps: seq<Lap>): int
  {
    if laps == [] then 0 else SumDurations(laps[..|laps| - 1]) + laps[|laps| - 1].duration
  }

  /** What holds of the stopwatch as long as the clock never goes back, the
      latest reading being `clock`: no duration is negative; the recorded lap
      durations plus the current lap never exceed the total (they fall short
      by the time between the last frame and each lap press); totals never
      decrease from one row to the next nor from the last row to the current
      total. While running, both start instants plus their elapsed times lie
      at the same instant, no later than the clock. */
  ghost predicate Consistent(s: State, clock: int) {
    && 0 <= s.lapElapsedTime
    && SumDurations(s.laps) + s.lapElapsedTime <= s.stopwatchElapsedTime
    && (forall i :: 0 <= i < |s.laps| ==> 0 <= s.laps[i].duration <= s.laps[i].total)
    && (forall i, j :: 0 <= i < j < |s.laps| ==> s.laps[i].total <= s.laps[j].total)
    && (s.laps != [] ==> s.laps[|s.laps| - 1].total <= s.stopwatchElapsedTime)
    && (s.isRunning ==>
          && s.stopwatchStartTime + s.stopwatchElapsedTime == s.lapStartTime + s.lapElapsedTime
          && s.stopwatchStartTime + s.stopwatchElapsedTime <= clock)
  }

  /** The event reads the clock no earlier than `clock`, and a button's
      frame comes no earlier than the button's own reading. */
  predicate NotBefore(clock: int, e: Event) {
    match e
    case Frame(now) => clock <= now
    case StartPause(now, frameNow) => clock <= now <= frameNow
    case LapPress(now, frameNow) => clock <= now <= frameNow
    case Reset => true
  }

  /** The latest clock reading once the event has happened. */
  function ClockAfter(clock: int, e: Event): int
  {
    match e
    case Frame(now) => now
    case StartPause(_, frameNow) => frameNow
    case LapPress(_, frameNow) => frameNow
    case Reset => clock
  }

  predicate NonDecreasing(clock: int, events: seq<Event>)
  {
    events == [] ||
    (NonDecreasing(clock, events[..|events| - 1]) &&
     NotBefore(LastClock(clock, events[..|events| - 1]), events[|events| - 1]))
  }

  function LastClock(clock: int, events: seq<Event>): int
  {
    if events == [] then clock
    else ClockAfter(LastClock(clock, events[..|events| - 1]), events[|events| - 1])
  }

  lemma SumAppend(laps: seq<Lap>, lap: Lap)
    ensures SumDurations(laps + [lap]) == SumDurations(laps) + lap.duration
  {
    assert (laps + [lap])[..|laps|] == laps;
  }

  lemma SumNonNegative(laps: seq<Lap>)
    requires forall i :: 0 <= i < |laps| ==> 0 <= laps[i].duration
    ensures 0 <= SumDurations(laps)
  {
    if laps != [] {
      SumNonNegative(laps[..|laps| - 1]);
    }
  }

  lemma RecordLapConsistent(s: State, clock: int, now: int, frameNow: int)
    requires Consistent(s, clock) && s.isRunning && clock <= now <= frameNow
    ensures Consistent(RecordLap(s, now, frameNow), frameNow)
  {
    var r := RecordLap(s, now, frameNow);
    SumAppend(s.laps, NewLap(s));
    SumNonNegative(s.laps);
    assert r.laps == s.laps + [NewLap(s)];
  }

  lemma StepConsistent(s: State, clock: int, e: Event)
    requires Consistent(s, clock) && NotBefore(clock, e)
    ensures Consistent(Step(s, e), ClockAfter(clock, e))
  {
    match e
    case Frame(now) =>
    case StartPause(now, frameNow) =>
    case LapPress(now, frameNow) =>
      if s.isRunning {
        RecordLapConsistent(s, clock, now, frameNow);
      }
    case Reset =>
  }

  lemma {:induction false} RunConsistent(clock: int, events: seq<Event>)
    requires NonDecreasing(clock, events)
    ensures Consistent(Run(Initial(), events), LastClock(clock, events))
  {
    if events != [] {
      var before := events[..|events| - 1];
      RunConsistent(clock, before);
      StepConsistent(Run(Initial(), before), LastClock(clock, before), events[|events| - 1]);
    }
  }

  /** From page load, with a clock that never goes back: every recorded lap
      lasts between zero and its running total, the totals of the rows never
      decrease, and the recorded lap durations add up to no more than the
      total elapsed time. */
  lemma LapsWellOrdered(clock: int, events: seq<Event>)
    requires NonDecreasing(clock, events)
    ensures var s := Run(Initial(), events);
            && (forall i :: 0 <= i < |s.laps| ==> 0 <= s.laps[i].duration <= s.laps[i].total)
            && (forall i, j :: 0 <= i < j < |s.laps| ==> s.laps[i].total <= s.laps[j].total)
            && SumDurations(s.laps) <= s.stopwatchElapsedTime
  {
    RunConsistent(clock, events);
  }

  /** From page load, with a clock that does not go back, neither time on
      the display is negative and the lap time never exceeds the total: a
      negative duration reaches `formatTime` only when the clock steps back. */
  lemma DisplayedTimesNonNegative(clock: int, events: seq<Event>)
    requires NonDecreasing(clock, events)
    ensures var s := Run(Initial(), events);
            0 <= s.lapElapsedTime <= s.stopwatchElapsedTime
  {
    var s := Run(Initial(), events);
    RunConsistent(clock, events);
    SumNonNegative(s.laps);
  }

  /** Hence both texts of the display read back as the elapsed times in
      whole seconds. */
  lemma DisplayReadsBack(clock: int, events: seq<Event>)
    requires NonDecreasing(clock, events)
    ensures var s := Run(Initial(), events);
            && s.lapElapsedTime >= 0 && s.stopwatchElapsedTime >= 0
            && TF.WellFormed(TF.FormatTime(s.lapElapsedTime))
            && TF.ParseTime(TF.FormatTime(s.lapElapsedTime)) == s.lapElapsedTime / 1000
            && TF.WellFormed(TF.FormatTime(s.stopwatchElapsedTime))
            && TF.ParseTime(TF.FormatTime(s.stopwatchElapsedTime)) == s.stopwatchElapsedTime / 1000
  {
    var s := Run(Initial(), events);
    DisplayedTimesNonNegative(clock, events);
    TF.ParseFormatTime(s.lapElapsedTime);
    TF.ParseFormatTime(s.stopwatchElapsedTime);
  }

  // ----- Scenarios -----

  /** Start at `t0`, then at `t1` and again at `t2` a frame followed by a lap
      press: the two rows hold the lap times and the running totals. */
  lemma TwoLapsScenario(t0: int, t1: int, t2: int)
    ensures var s1 := Toggle(Initial(), t0, t0);
            var s2 := RecordLap(Tick(s1, t1), t1, t1);
            var s3 := RecordLap(Tick(s2, t2), t2, t2);
            s3.laps == [Lap(1, t1 - t0, t1 - t0), Lap(2, t2 - t1, t2 - t0)]
  {
    var s1 := Toggle(Initial(), t0, t0);
    var s2 := RecordLap(Tick(s1, t1), t1, t1);
    assert s2.laps == [Lap(1, t1 - t0, t1 - t0)];
  }

  /** Start at `a`, a frame and a pause at `b`, resume at `c`, a frame at
      `d`: the time between `b` and `c`, spent paused, is not counted. */
  lemma PauseScenario(a: int, b: int, c: int, d: int)
    ensures var s1 := Toggle(Tick(Toggle(Initial(), a, a), b), b, b);
            var s2 := Tick(Toggle(s1, c, c), d);
            s2.stopwatchElapsedTime == (b - a) + (d - c) && s2.lapElapsedTime == (b - a) + (d - c)
  {
  }

  /** Start at `a`, a frame at `f`, a lap press at `p`, a frame at `g`: the
      row holds what the frame at `f` showed, not the time of the press, and
      the next lap is measured from the press. */
  lemma LapUsesLastFrame(a: int, f: int, p: int, g: int)
    ensures var s := Tick(RecordLap(Tick(Toggle(Initial(), a, a), f), p, p), g);
            s.laps == [Lap(1, f - a, f - a)] && s.lapElapsedTime == g - p && s.stopwatchElapsedTime == g - a
  {
  }
}
