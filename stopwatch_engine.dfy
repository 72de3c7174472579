/** The stopwatch as the page keeps it: module-level variables that the
    button handlers and the display loop assign in place. Every method is
    proved to leave the state that the corresponding function of
    `StopwatchSpec` computes from the state before it. */
module StopwatchEngine {
  import S = StopwatchSpec

  class Stopwatch {
    var stopwatchStartTime: int
    var lapStartTime: int
    var stopwatchElapsedTime: int
    var lapElapsedTime: int
    var isRunning: bool
    var laps: seq<S.Lap>

    /** The variables as one value. */
    function Model(): S.State
      reads this
    {
      S.State(stopwatchStartTime, lapStartTime, stopwatchElapsedTime, lapElapsedTime, isRunning, laps)
    }

    /** The rows are numbered 1..N in the order they were recorded. */
    ghost predicate Valid()
      reads this
    {
      S.Numbered(laps)
    }

    /** The page load: stopped, every time zero, no laps. */
    constructor ()
      ensures Model() == S.Initial() && Valid()
    {
      stopwatchStartTime := 0;
      lapStartTime := 0;
      stopwatchElapsedTime := 0;
      lapElapsedTime := 0;
      isRunning := false;
      laps := [];
    }

    /** `updateDisplay` at the instant `now`: while running, both elapsed
        times are measured up to `now`; otherwise nothing changes. */
    method Tick(now: nat)
      requires Valid()
      modifies this
      ensures Model() == S.Tick(old(Model()), now)
      ensures Valid()
    {
      if isRunning {
        stopwatchElapsedTime := now - stopwatchStartTime;
        lapElapsedTime := now - lapStartTime;
      }
    }

    /** `toggleStopwatch`: pause when running, otherwise start or resume at
        `now` and show a first frame, which reads the clock at `frameNow`. */
    method Toggle(now: nat, frameNow: nat)
      requires Valid()
      modifies this
      ensures Model() == S.Toggle(old(Model()), now, frameNow)
      ensures Valid()
    {
      if isRunning {
        isRunning := false;
      } else {
        stopwatchStartTime := now - stopwatchElapsedTime;
        lapStartTime := now - lapElapsedTime;
        isRunning := true;
        Tick(frameNow);
      }
    }

    /** `recordLap`: while running, append the row of the last frame, restart
        the lap clock at `now` and show a frame read at `frameNow`. */
    method RecordLap(now: nat, frameNow: nat)
      requires Valid()
      modifies this
      ensures Model() == S.RecordLap(old(Model()), now, frameNow)
      ensures Valid()
    {
      if !isRunning {
        return;
      }
      laps := laps + [S.Lap(|laps| + 1, lapElapsedTime, stopwatchElapsedTime)];
      lapStartTime := now;
      lapElapsedTime := 0;
      Tick(frameNow);
    }

    /** `stopStopwatch`: back to the page-load state, from any state. */
    method Stop()
      modifies this
      ensures Model() == S.Stop(old(Model())) && Valid()
    {
      isRunning := false;
      stopwatchStartTime := 0;
      lapStartTime := 0;
      stopwatchElapsedTime := 0;
      lapElapsedTime := 0;
      laps := [];
    }
  }
}
