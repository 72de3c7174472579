# smpl-timer stopwatch, modelled in Dafny

smpl-timer is a browser stopwatch: a start/pause button, a lap button that
adds rows to a splits list, a reset button, and colour themes cycled with the
arrow keys. All its logic lives in `script.js`. This project models the three
parts of it that make decisions:

- **The stopwatch state**:
  - `stopwatch_spec.dfy` holds the module-level variables as a `State` value.
    Each handler (`updateDisplay`, `toggleStopwatch`, `recordLap`,
    `stopStopwatch`) becomes a function from the state before to the state
    after. The properties of the stopwatch are proved about these functions.
  - `stopwatch_engine.dfy` holds the same variables as the fields of a class
    `Stopwatch`. Its methods assign them in place as the handlers do, and each
    method is proved to leave exactly the state the matching function computes.
  - `Date.now()` is a parameter. `toggleStopwatch` (when starting) and
    `recordLap` read the clock once themselves. They then call
    `updateDisplay()`, which reads it a second time. So those operations take
    two instants: `now` and `frameNow`.
- **`formatTime`** (`time_format.dfy`, on top of `decimal.dfy`): milliseconds
  rendered as `mm:ss`, with JavaScript's flooring division, truncating `%`,
  `String(n)` and `padStart(2, '0')` written out. The minutes are not capped.
- **Theme cycling** (`themes.dfy`): the seven-entry theme table and the index
  arithmetic of the left and right arrow keys.

Where the code and a plain description of a stopwatch differ, the model
follows the code:

- Pausing only clears `isRunning` (script.js:216-218). It does not read the
  clock, so the banked elapsed times are those of the last display frame.
- A lap row holds the elapsed times of the last display frame (script.js:247-251),
  not times measured at the moment of the press. The lap clock then restarts
  at the press (script.js:254-255).
- There is no separate "idle" and "paused" mode, only `isRunning`. A reset
  zeroes everything (script.js:283-290), and a start after a reset resumes
  from zero.

## Model

| member | source | states |
|---|---|---|
| StopwatchSpec.Initial | script.js:157-163 | the page-load state: stopped, all four times 0, no laps |
| StopwatchSpec.Tick | script.js:187-191 | a frame changes nothing while stopped; while running it sets both elapsed times to `now` minus their start instants and leaves the start instants, the mode and the laps alone |
| StopwatchSpec.Start | script.js:226-230 | after a start or resume at `now`, measuring from the new start instants gives back the banked elapsed times; the mode becomes running and the laps are kept |
| StopwatchSpec.Pause | script.js:216-218 | a pause clears `isRunning` and changes nothing else |
| StopwatchSpec.Toggle | script.js:210-239 | when running the button pauses; otherwise the start instants become `now` minus the banked times and the stopwatch runs afterwards with both elapsed times advanced by exactly the time between the button's clock reading and the first frame's |
| StopwatchSpec.NewLap | script.js:247-251 | the pushed row is numbered one after the existing rows and holds the last frame's lap and total times, so appending it keeps the rows numbered 1..N |
| StopwatchSpec.RecordLap | script.js:242-258 | nothing changes when not running; otherwise exactly one row is appended after the untouched earlier rows, the lap clock restarts at `now`, the total's start instant is kept and the frame at `frameNow` measures both times |
| StopwatchSpec.Stop | script.js:280-290 | a reset from any state gives the page-load state |
| StopwatchSpec.FramesLatest | script.js:187-206 | over any series of display frames only the latest one determines the state |
| StopwatchSpec.TickIdempotent | script.js:187-191 | a second frame at the same instant changes nothing |
| StopwatchSpec.ResumeContinues | script.js:226-232 | a frame at the instant of a resume shows exactly the banked times, and a later frame adds only the time since the resume to both the total and the lap time |
| StopwatchSpec.StepNumbered | script.js:247-251 | every event keeps the rows numbered 1..N |
| StopwatchSpec.RunNumbered | script.js:247-251 | after any sequence of frames and button presses from page load, the N rows are numbered exactly 1..N |
| StopwatchSpec.RecordLapConsistent | script.js:242-258 | with a clock that does not go back, a lap press keeps every duration between 0 and its total, the totals non-decreasing and the sum of durations within the total |
| StopwatchSpec.StepConsistent | script.js:187-306 | the same invariant is kept by every frame and every button press |
| StopwatchSpec.RunConsistent | script.js:187-306 | the invariant holds after any sequence of events from page load whose clock readings never decrease |
| StopwatchSpec.LapsWellOrdered | script.js:247-251 | from page load, with a clock that does not go back: each lap lasts between 0 and its total, the totals never decrease from row to row, and the durations add up to no more than the total elapsed time |
| StopwatchSpec.DisplayedTimesNonNegative | script.js:187-306 | from page load, with a clock that does not go back, the lap time and the total are never negative and the lap time never exceeds the total |
| StopwatchSpec.DisplayReadsBack | script.js:193-194 | from page load, with a clock that does not go back, both texts of the display read back as the elapsed times in whole seconds |
| StopwatchSpec.TwoLapsScenario | script.js:226-258 | start at `t0` and lap at `t1` then at `t2`: the rows are (1, t1-t0, t1-t0) and (2, t2-t1, t2-t0) |
| StopwatchSpec.PauseScenario | script.js:216-230 | start at `a`, pause at `b`, resume at `c`, frame at `d`: the elapsed time is (b-a)+(d-c), so the paused interval is excluded |
| StopwatchSpec.LapUsesLastFrame | script.js:247-255 | a lap press records what the last frame showed, not the time of the press, and the next lap is timed from the press |
| StopwatchEngine.Stopwatch.constructor | script.js:157-163 | the fields start as the page-load state, with the rows numbered (the class invariant `Valid`) |
| StopwatchEngine.Stopwatch.Tick | script.js:187-191 | `updateDisplay` assigns the fields to exactly the state `StopwatchSpec.Tick` computes, and keeps the rows numbered |
| StopwatchEngine.Stopwatch.Toggle | script.js:210-239 | `toggleStopwatch` assigns the fields to exactly the state `StopwatchSpec.Toggle` computes, and keeps the rows numbered |
| StopwatchEngine.Stopwatch.RecordLap | script.js:242-258 | `recordLap` pushes onto the laps in place and leaves exactly the state `StopwatchSpec.RecordLap` computes, and keeps the rows numbered |
| StopwatchEngine.Stopwatch.Stop | script.js:280-290 | `stopStopwatch` leaves exactly the page-load state |
| TimeFormat.JsRem | script.js:181 | JavaScript's `%`: the dividend is `b` times the quotient rounded toward zero plus the remainder; the ordinary remainder for a non-negative dividend, and one between `-b` and 0 for a negative one |
| TimeFormat.FormatTime | script.js:178-184 | the text is never shorter than `mm:ss`, and for a non-negative duration the colon is third from the end; its meaning is stated by `TimeFormat.FormatTimeFields`, `TimeFormat.ParseFormatTime` and `TimeFormat.FormatTimeSameSecond` |
| TimeFormat.Padded | script.js:183 | `String(n).padStart(2, '0')` has at least two characters, only digits when `n` is not negative, and exactly two from 0 to 99 |
| TimeFormat.Seconds | script.js:179-181 | the seconds field lies in 0..59 |
| TimeFormat.MinutesFromWholeSeconds | script.js:179-180 | flooring the whole seconds by 60 gives the milliseconds divided by 60000 |
| TimeFormat.WholeSecondsFromFields | script.js:179-181 | the whole seconds are 60 times the minutes plus the seconds |
| TimeFormat.FormatTimeNonNegative | script.js:179-181 | for a non-negative duration the two computed fields are the minutes and the seconds |
| TimeFormat.PaddedField | script.js:183 | a padded field has at least two digits, reads back as the number, has a leading zero only when exactly two digits long, and is exactly two digits below 100 |
| TimeFormat.FormatTimeFields | script.js:178-184 | the text is digits, a colon third from the end, two digits; the last two read as the seconds and everything before the colon as the uncapped minutes |
| TimeFormat.ParseFormatTime | script.js:178-184 | reading the text back gives the duration in whole seconds |
| TimeFormat.FormatTimeSameSecond | script.js:178-184 | two durations show the same text exactly when they agree in whole seconds |
| TimeFormat.PaddedTwoDigits | script.js:183 | a number below 100 pads to its tens digit and its units digit |
| TimeFormat.FormatTimeFiveChars | script.js:178-184 | below 100 minutes the text is exactly the five characters `mm:ss` |
| TimeFormat.ShowsAs | script.js:178-184 | below 100 minutes the text is the one spelled out digit by digit |
| TimeFormat.FormatTimeZero | script.js:302-303 | zero is shown as `00:00`, as after a reset |
| TimeFormat.FormatTimeOneMinuteFive | script.js:178-184 | 65000 ms is shown as `01:05` |
| TimeFormat.FormatTimeOneHour | script.js:178-184 | one hour is shown as `60:00`: minutes are not wrapped |
| TimeFormat.FormatTimeNegative | script.js:179-183 | -1 ms, reachable only if the clock steps back (`StopwatchSpec.DisplayedTimesNonNegative`), is shown as `-1:-1` |
| Decimal.DigitChar | script.js:183 | a digit below 10 gives a digit character that reads back as itself |
| Decimal.NatToString | script.js:183 | `String(n)` for `n >= 0` is a non-empty string of digits without a leading zero |
| Decimal.NatToStringLength | script.js:183 | `String(n)` has one digit exactly below 10 and at most two below 100 |
| Decimal.IntToString | script.js:183 | `String(i)` is digits, preceded by a minus sign exactly when `i` is negative |
| Decimal.IntToStringValue | script.js:183 | `String(i)` spells `i` for `i >= 0`, and `-i` after the minus sign for `i < 0` |
| Decimal.ParseNatToString | script.js:183 | reading `String(n)` back gives `n` |
| Decimal.NatToStringInjective | script.js:183 | two numbers render alike exactly when they are equal |
| Decimal.PadStart | script.js:183 | `padStart` reaches the width only when the string is shorter, keeps the string as the suffix and fills the rest |
| Decimal.ParseLeadingZero | script.js:183 | a leading zero does not change the value of a digit string |
| Decimal.ParseZeroPadded | script.js:183 | zero padding keeps a digit string's digits and value |
| Themes.DefaultTheme | script.js:87-89 | the default index selects the sky-blue theme, named "Sky Blue", and every theme has a name |
| Themes.NextTheme | script.js:386-388 | the right arrow moves one place forward round the seven themes, from the last to the first |
| Themes.PrevTheme | script.js:383-385 | the left arrow moves one place back round the seven themes, from the first to the last |
| Themes.PrevUndoesNext | script.js:383-388 | left after right, and right after left, give back the starting theme |
| Themes.PressRightMoves | script.js:386-388 | `k` right presses move `k` places round the table and stay in range |
| Themes.PressLeftMoves | script.js:383-385 | `k` left presses move `k` places back round the table and stay in range |
| Themes.FullCycle | script.js:87 | seven presses in either direction come back to the starting theme |

## Left out

- Haptic and sound feedback (`TactileFeedback`, script.js:2-44) and the
  screen wake lock (`WakeLockManager`, script.js:47-81). These are browser
  I/O with no effect on the timing state.
- The `await`s in `toggleStopwatch` and `stopStopwatch`. A click or key
  press handled while one of them is pending could interleave with the rest
  of the handler. Each operation is modelled as atomic.
- The `requestAnimationFrame` scheduling and `cancelAnimationFrame`. A
  frame is an explicit call of `Tick(now)`, and the series of frames is the
  caller's choice (`StopwatchSpec.Frames`, `StopwatchSpec.Run`).
- All DOM work: button labels and icons, `disabled` flags, writing the
  formatted texts, the newest-first splits list (`updateSplits`,
  script.js:268-277), the help modal, the `pressButton` animation, and
  the key-event dispatch.
- Theme persistence (`saveTheme`/`loadTheme`, script.js:93-151): browser
  storage, the `parseInt` of a stored value and the theme-name pill timer.
  Only the index arithmetic is modelled.
- `TimeFormat.FormatTimeFields`, `TimeFormat.ParseFormatTime` and
  `TimeFormat.FormatTimeSameSecond` are stated for durations of 0 ms and
  more only. A negative duration shows a sign in both fields
  (`TimeFormat.FormatTimeNegative`); it occurs only if the clock steps back
  (`StopwatchSpec.DisplayedTimesNonNegative`).
- JavaScript numbers are doubles. The model uses unbounded integers, so
  precision loss beyond 2^53 ms is not modelled.
- Stopwatch methods: `Date.now()` is a `nat` parameter, and the clock is
  not assumed monotonic. The invariants about laps
  (`StopwatchSpec.LapsWellOrdered`) are proved under the hypothesis that
  successive readings never decrease.
