# Pomodoro timer: a verified model of the timer state machine

This project models the timer inside the `PomodoroTimer` component of
thatOneTimer (`src/App.tsx`). The component keeps five pieces of state.
These are the elapsed `seconds`, the `isRunning` flag, the `isBreak` flag,
the break countdown `breakTimeLeft`, and the `nextBreakTime` threshold
(0 means none is set). While the timer runs, a one-second interval advances
the clock. When the clock reaches the threshold, a 10-second break starts.
Four seconds before that, a countdown sound plays and a rain loop starts
fading in. When a break ends, a new threshold is drawn from 180 to 300
seconds ahead.

The model has three modules:

- `TimeFormat` (`time_format.dfy`) is the `HH:MM:SS` display. It covers
  decimal rendering, `padStart`, the real-division `Math.floor` fields of
  the source, and a parser that reads a display string back.
- `Timer` (`timer.dfy`) holds the session record and the operations
  `Toggle`, `Reset` and `Tick`. Each is a pure function that returns the
  next record and the list of audio effects it triggers. The effects are
  `StartCueAndAmbient` and `StopAmbient`. The tick is built from the two
  state updaters the interval callback queues. The random draw is the
  parameter `r` of type `BreakInterval`, an integer from 180 to 300.
- `TimerRuns` (`timer_runs.dfy`) covers runs of ticks. It shows how long
  the work phase and the break last, where the cue falls, and the cycle
  between two breaks.

## How the tick reads state

The effect that sets up the interval depends on `isRunning`, `isBreak`,
`nextBreakTime` and `seconds`. It is therefore set up again after every
change to any of them. So each tick sees the state as it was before that
tick. `Tick(s, r)` reads `s.isBreak`, `s.seconds` and `s.nextBreakTime`
from the pre-tick record. This has three consequences:

- The tick that enters a break does not also count it down. The countdown
  updater is queued only if the pre-tick `isBreak` is true.
- On a tick that starts during a break, the cue check and the break-entry
  check are both skipped.
- When a break ends, the new threshold is the pre-tick `seconds` plus the
  drawn interval. A plain reading would add the interval to the
  incremented `seconds`, but the code does not. So between two breaks the
  work phase lasts one tick less than the drawn interval
  (`TimerRuns.BreakCycle`). After a fresh start it lasts the full interval
  (`TimerRuns.FirstBreak`). The model follows the code here.

Elapsed seconds keep counting during a break, as in the code.

## Model

| member | source | states |
|---|---|---|
| TimeFormat.ToDecimal | src/App.tsx:27-29 | `toString()` of a non-negative integer gives at least one digit and no leading zero; it gives one digit exactly below 10 and at most two exactly below 100 |
| TimeFormat.ToDecimalValue | src/App.tsx:27-29 | the rendered digits read back as the number they render |
| TimeFormat.PadStart | src/App.tsx:27-29 | `padStart(width, fill)` gives length `max(width, len)`, ends with the original string, and has only `fill` before it |
| TimeFormat.ZeroPadKeepsValue | src/App.tsx:27-29 | padding with '0' does not change the number a string denotes |
| TimeFormat.HoursFieldAsWritten | src/App.tsx:24 | `JsHours`, the hours field `Math.floor(t / 3600)` over real division, equals integer `t / 3600` |
| TimeFormat.JsRemainder | src/App.tsx:25 | JavaScript's `%` on a non-negative dividend and positive divisor lies in `[0, divisor)` |
| TimeFormat.MinutesFieldAsWritten | src/App.tsx:25 | `JsMinutes`, the minutes field `Math.floor((t / 60) % 60)` with real division and JavaScript's remainder, equals integer `(t / 60) % 60` |
| TimeFormat.ClockArithmetic | src/App.tsx:24-26 | hours, minutes and seconds recompose `t`: `3600*h + 60*m + s == t` |
| TimeFormat.JoinClockShape | src/App.tsx:27-29 | `JoinClock`, the template literal joining the three padded fields with ':', has two-digit minute and second fields when both are below 60: it is the hours field plus 6 characters, at least 8 in all, with colons 6 and 3 from the end |
| TimeFormat.FormatTime | src/App.tsx:23-30 | the display joins hours, minutes-of-hour and seconds-of-minute, each zero-padded to two digits, with ':'; it has at least 8 characters, exactly 8 iff `t < 360000`, with colons 6 and 3 from the end |
| TimeFormat.JoinClockParses | src/App.tsx:27-29 | with minutes and seconds below 60, parsing the joined fields gives `3600*h + 60*m + s` |
| TimeFormat.FormatTimeRoundTrip | src/App.tsx:23-30 | parsing the display string of `t` gives back `t` |
| TimeFormat.FormatTimeInjective | src/App.tsx:23-30 | different elapsed times are displayed differently |
| Timer.GenerateBreakTime | src/App.tsx:18-20 | with exact arithmetic, `Math.floor(u * 121 + 180)` for `u` in [0, 1) lies in [180, 300]; the IEEE-754 exception is under "Left out" |
| Timer.EveryIntervalDrawable | src/App.tsx:19 | every integer in [180, 300], both ends included, is drawn for some `u` in [0, 1) |
| Timer.InitialValid | src/App.tsx:8-12 | the mount state satisfies the full invariant `Valid` |
| Timer.Toggle | src/App.tsx:33-41 | flips `isRunning`; sets `nextBreakTime := r` iff not running, not on break and at 0 seconds, else leaves it; never touches `seconds`, `isBreak` or `breakTimeLeft`; no effect |
| Timer.ToggleKeepsValid | src/App.tsx:33-41 | toggling keeps the countdown within 1..10 and keeps the threshold ahead outside a break, as well as the full invariant, even on break |
| Timer.ToggleTwice | src/App.tsx:33-41 | two presses with no tick between restore the state iff not a fresh start, or the drawn threshold equals the old one |
| Timer.ToggleTwiceResumes | src/App.tsx:34-40 | with `seconds > 0`, two presses are the identity with no effects |
| Timer.Reset | src/App.tsx:55-65 | from any state, gives the mount state `{0, false, false, 10, 0}`, which is valid, and the single effect `StopAmbient` |
| Timer.ResetIdempotent | src/App.tsx:55-65 | resetting twice equals resetting once |
| Timer.SecondsUpdater | src/App.tsx:87-114 | the `setSeconds` updater, given the captured `isBreak` and `nextBreakTime`, adds 1 to the seconds; it plays the cue iff not on break, threshold set and the new value is `threshold - 4`; it starts a break iff not on break, threshold set and the new value reaches it; both are off during a break, and never both on one tick |
| Timer.CountdownUpdater | src/App.tsx:118-130 | the `setBreakTimeLeft` updater ends the break iff one second or less is left, then restarts at 10; otherwise it subtracts 1; from a countdown within 1..10 it stays within 1..10 |
| Timer.Tick | src/App.tsx:86-131 | `seconds` + 1 on every tick, break or not; cue iff not on break, threshold set and `seconds + 1 == threshold - 4`; from no break, the effects are exactly that cue or nothing, and the state is the old one with `seconds` + 1, plus `isBreak` and countdown 10 iff `seconds + 1 >= threshold > 0` (no decrement); on break with more than 1 left, only decrements; with 1 or less, ends the break, countdown 10, threshold `old seconds + r`, which is ahead of the new seconds, and `StopAmbient` |
| Timer.TickKeepsValid | src/App.tsx:86-131 | a tick keeps `1 <= breakTimeLeft <= 10` and `!isBreak && nextBreakTime > 0 ==> seconds < nextBreakTime`, and the full invariant |
| TimerRuns.Run | src/App.tsx:86-132 | n ticks keep the timer running and advance `seconds` by exactly n |
| TimerRuns.RunKeepsValid | src/App.tsx:86-131 | any run of ticks keeps both invariants |
| TimerRuns.BreakCountsDown | src/App.tsx:117-130 | ticks short of a break's end only count down: `breakTimeLeft` minus n, `seconds` plus n, no effect |
| TimerRuns.BreakEnds | src/App.tsx:117-128 | the tick that finds one second left ends the break, resets the countdown to 10, sets the threshold from the seconds it read plus its draw, and stops the ambient loop |
| TimerRuns.BreakLastsTenTicks | src/App.tsx:108-130 | a break entered at 10 is still on after 0..9 ticks and over after exactly 10, with one `StopAmbient` |
| TimerRuns.WorkTicks | src/App.tsx:87-105 | work ticks short of the threshold only count seconds and play the cue once iff `threshold - 4` is among the seconds reached |
| TimerRuns.BreakStarts | src/App.tsx:87-111 | the tick reaching the threshold enters the break at exactly the threshold with countdown 10; the cue played once iff the phase began before `threshold - 4` |
| TimerRuns.FirstBreak | src/App.tsx:33-111 | from reset, start then `r` ticks: cue once, break entered at `r` seconds |
| TimerRuns.BreakThenWork | src/App.tsx:108-130 | from any point of a break, the remaining break ticks then `d - 1` work ticks reach the next break at the threshold, where `d` is the draw at break end; effects are `StopAmbient` then the cue |
| TimerRuns.BreakCycle | src/App.tsx:108-128 | from break entry, 10 break ticks then `d - 1` work ticks reach the next break, where `d` is the draw at break end; effects are `StopAmbient` then the cue |

## Left out

- `fadeInAudio` (the 50 ms volume ramp) works on floating-point volume and
  a timer. It appears only as part of the `StartCueAndAmbient` effect.
- The `HTMLAudioElement` calls (`play`, `pause`, `volume`, `currentTime`)
  and the `if (ref.current)` guards around them are browser I/O. They
  become the two abstract effects, which the model always emits.
- `setInterval` / `clearInterval` and the effect cleanup are runtime
  scheduling. The model applies one `Tick` per call. `Tick` requires
  `isRunning` because the interval exists only while the timer runs.
- `Math.random()` is a parameter. `GenerateBreakTime` takes its value `u`,
  and `Toggle` and `Tick` take the drawn interval `r`.
- `toggleTheme` (DOM classes and `localStorage`) is not part of the timer.
- The JSX rendering, break overlay, buttons and icons are left out. The
  exception is the start button's `disabled={isBreak}` guard. The model
  does not need it: `Timer.ToggleKeepsValid` holds even on a break.
- React StrictMode may run an updater twice, which could draw two
  intervals. This is not modelled: each updater runs once.
- Timer.GenerateBreakTime: computes with exact reals, and so leaves out
  the top values of `Math.random()`. For u = 1 - 2^-52, the largest value
  with 52 random bits, and for 1 - 2^-53 with 53 bits, IEEE-754 rounds
  `u * 121` to 121 - 2^-45. Adding 180 then lands halfway between two
  doubles, and round-half-to-even gives 301.0. So line 19 can return 301,
  one above the 300 its own comment names. The [180, 300] bound holds
  only for exact arithmetic.
- TimeFormat.HoursFieldAsWritten: uses exact real division rather than
  IEEE doubles. The two agree for counts the timer can reach.
- TimeFormat.MinutesFieldAsWritten: uses exact real division rather than
  IEEE doubles, for the same reason.
- Counts above 2^53, where JavaScript numbers lose integer precision, are
  not modelled. `seconds` is an unbounded natural.
