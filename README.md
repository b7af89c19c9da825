# Pomodoro timer — a verified model of its state machine

The page is a Pomodoro countdown timer: a focus interval and two kinds of
break, user-set durations, start/pause, reset, and an alarm when an interval
completes. Its core is a global `State` object (`mode`, `timeLeft`,
`isRunning`, `settings`) and the handle `timerInterval` of a one-second
`setInterval`, changed in place by `toggleTimer`, the interval callback,
`completeTimer`, `resetTimer`, `setMode` and `updateCustomTimes`, plus the
`MM:SS` text that `updateTimerDisplay` computes.

The model has four modules:

- `Wrappers` (`wrappers.dfy`): `Option`, used for NaN from `parseInt` and for a
  display text that does not read back.
- `TimerSpec` (`timer_spec.dfy`): the state as a value, `TimerState`, and one
  transition function per handler. The state also holds two parts of the
  browser: `live`, the ids of the intervals the browser will still fire, and
  `alarms`, how many times the alarm has played. `Inv` is the interval
  invariant: an interval is live exactly while `isRunning`, and it is the one
  `timerInterval` names. Every transition keeps `Inv`. Lemmas relate several
  steps (countdown, completion, pause/start, reset, mode switch, durations).
- `PomodoroTimer` (`timer.dfy`): `class Timer` with the state's fields, updated
  in place. `live` and `alarms` are ghost fields. Each method ensures that the
  new `Snapshot()` is the matching `TimerSpec` function of the old one, and
  keeps `Valid()` (which is `Inv`). `ShortBreakSession` drives the class
  through a whole short break.
- `ClockDisplay` (`clock_display.dfy`): `Format(t)`, the display text, with
  JavaScript's rules (minutes floored, `%` truncating, `String`, `padStart`),
  defined on every integer. `ParseDisplay` reads a display text back.

Environment inputs become parameters. `Toggle` takes the id that `setInterval`
would return. `Tick(h)` requires `h` to be live, which stands for "the browser
fires interval `h`". `UpdateCustomTimes` takes the three `parseInt` results,
with `None` for NaN.

Three behaviours of the code are worth knowing, and the model keeps them:

- Durations. Each input is stored as `parseInt(v)` or-ed with its default.
  Only NaN and 0 are falsy, so only they fall back, and a negative number is
  kept: the inputs `(-5, NaN, 20)` give `(-5, 5, 20)` (`NegativeDurationKept`).
- Seconds left. A negative duration followed by a reset makes `timeLeft`
  negative (-300 for -5 minutes). The display then shows `-5:00`
  (`NegativeDisplay`), and start does nothing. A running timer never has
  negative time (part of `Inv`).
- Completion. Completion is detected on the tick after `timeLeft` reaches 0,
  so `00:00` is shown for one full second while the timer is still running.
  If the user pauses in that second, the alarm never plays, and start then
  does nothing (`PauseAtZeroSilencesAlarm`).

## Model

| member | source | states |
|---|---|---|
| `TimerSpec.StoppedTimerNeverTicks` | script.js:131-132 | while the timer is stopped no interval is live, so a cleared interval's callback never runs after a pause, reset or completion |
| `TimerSpec.Initial` | script.js:2-14 | the page starts in focus mode, stopped, with 25/5/15-minute settings, 25 * 60 seconds left and no interval; the interval invariant holds |
| `TimerSpec.ParsedOr` | script.js:182-184 | JavaScript's `parseInt(v) or d` (logical or): a parsed value other than 0 is kept, negatives included; NaN (None) and 0 give the default |
| `TimerSpec.CustomSettings` | script.js:182-184 | the stored settings are never 0; each is negative exactly when its input parsed to a negative number |
| `TimerSpec.ClearInterval` | script.js:131 | `clearInterval(timerInterval)` stops exactly the interval the handle names, and changes nothing else |
| `TimerSpec.Toggled` | script.js:129-145 | pausing stops the timer and clears its interval; starting happens only with time left, and only by creating the interval the handle names; with no time left nothing changes; `timeLeft`, mode, settings and alarms never change; the invariant is kept |
| `TimerSpec.Ticked` | script.js:136-143 | with time left, a tick takes exactly one second off and leaves running state, the interval and alarms alone; at 0 or below it is completion; under the invariant the result is never below 0 |
| `TimerSpec.Completed` | script.js:150-155 | completion stops the timer, plays the alarm exactly once and leaves no live interval; time, mode and settings stay |
| `TimerSpec.AfterReset` | script.js:158-171 | after a reset the timer is stopped with no live interval and `settings[mode] * 60` seconds left; mode, settings and alarms stay |
| `TimerSpec.AfterSetMode` | script.js:174-178 | after `setMode(m)` the mode is `m`, the timer is stopped with no live interval, and the new mode's duration is loaded |
| `TimerSpec.AfterUpdateCustomTimes` | script.js:181-190 | the settings become the parsed-or-default values; when stopped the timer resets with the new duration; when running, time, interval and running state are unchanged; the invariant is kept |
| `TimerSpec.Run` | script.js:136-143 | any number of ticks of the live interval keep the invariant, mode and settings, play the alarm at most once, and never add time |
| `TimerSpec.RunCountsDown` | script.js:137-138 | after k ticks of a running timer with at least k seconds left, the timer still runs with exactly k seconds fewer |
| `TimerSpec.RunCompletes` | script.js:137-153 | a running timer with T seconds left completes after exactly T + 1 ticks: it stops at 0, the alarm has played exactly once more, and no interval is live |
| `TimerSpec.ZeroLingersOneTick` | script.js:137-141 | after T ticks the timer shows 0 and is still running, and the alarm has not played |
| `TimerSpec.CountdownFromTwo` | script.js:137-141 | from 2 seconds while running, the ticks give 1 then 0, both still running, then completion with one alarm |
| `TimerSpec.PauseThenStartResumes` | script.js:129-136 | pause then start resumes from the same `timeLeft`, mode and settings, under the new interval only |
| `TimerSpec.StartThenPauseRestores` | script.js:129-136 | start then pause gives back the stopped state; only the stale handle differs |
| `TimerSpec.PauseAtZeroSilencesAlarm` | script.js:130-134 | pausing while 0 is shown stops the timer with no live interval and no alarm, and start then changes nothing |
| `TimerSpec.ResetIdempotent` | script.js:158-168 | resetting twice gives the same state as resetting once |
| `TimerSpec.SetModeWhileRunning` | script.js:174-176 | switching mode while running stops the countdown, clears the interval and loads the new mode's duration |
| `TimerSpec.NegativeDurationKept` | script.js:182-189 | inputs (-5, NaN, 20) give settings (-5, 5, 20); a stopped focus timer then holds -300 seconds, and start does nothing |
| `TimerSpec.ZeroFallsBack` | script.js:182-184 | inputs of 0 give the default settings 25/5/15 |
| `TimerSpec.UpdateWhileRunningAppliesAtReset` | script.js:186-189 | changing durations while running keeps the countdown running unchanged; the next reset loads the new duration |
| `PomodoroTimer.Timer.constructor` | script.js:2-14 | the fields start as the initial state, with no interval and no alarm |
| `PomodoroTimer.Timer.ClearInterval` | script.js:151 | only the interval the handle names stops firing |
| `PomodoroTimer.Timer.Toggle` | script.js:129-145 | the new state is `Toggled` of the old one for the handle `setInterval` returns; the interval invariant is kept |
| `PomodoroTimer.Timer.Tick` | script.js:136-143 | when live interval h fires, the new state is `Ticked` of the old one; the invariant is kept |
| `PomodoroTimer.Timer.Complete` | script.js:150-155 | the new state is `Completed` of the old one: stopped, interval cleared, one more alarm |
| `PomodoroTimer.Timer.Reset` | script.js:158-171 | the new state is `AfterReset` of the old one; the invariant is kept |
| `PomodoroTimer.Timer.SetMode` | script.js:174-178 | the new state is `AfterSetMode` of the old one; the invariant is kept |
| `PomodoroTimer.Timer.UpdateCustomTimes` | script.js:181-190 | the new state is `AfterUpdateCustomTimes` of the old one for the three parsed inputs; the invariant is kept |
| `PomodoroTimer.ShortBreakSession` | script.js:136-153 | a new timer switched to a short break and started stops after exactly 5 * 60 + 1 ticks, showing 0, with exactly one alarm |
| `ClockDisplay.NatToString` | script.js:200 | `String(n)` for n >= 0 is one or more decimal digits with no leading zero for n > 0; one digit exactly when n < 10, at most two exactly when n < 100 |
| `ClockDisplay.IntToString` | script.js:200 | `String(i)` starts with '-' exactly when i < 0, and is all digits otherwise |
| `ClockDisplay.PadStart2` | script.js:200 | `padStart(2, "0")` gives length 2 for a shorter string, keeps a longer one's length, and what it adds is '0' |
| `ClockDisplay.PadStart2Suffix` | script.js:200 | `padStart` never truncates: the padded string is the end of the result, and a string of two or more characters comes back unchanged |
| `ClockDisplay.SecondsField` | script.js:199 | `t % 60` is congruent to t modulo 60, below 60 in magnitude, and has the sign of t |
| `ClockDisplay.IntToStringValue` | script.js:200 | `String(i)` reads back as i: a non-negative number is its digits, and after the '-' of a negative number come the digits of -i |
| `ClockDisplay.NatToStringValue` | script.js:200 | the digits of `String(n)` read back as n |
| `ClockDisplay.PaddedValue` | script.js:200 | a padded number reads back as itself and is exactly two digits below 100 |
| `ClockDisplay.FormatShape` | script.js:197-200 | for t >= 0 the text is the padded minutes, a colon and the seconds in exactly two digits |
| `ClockDisplay.FormatRoundTrip` | script.js:197-200 | for every t >= 0, reading the display back gives t: `minutes * 60 + seconds == t` with seconds below 60, whatever the number of minute digits |
| `ClockDisplay.FormatInjective` | script.js:197-200 | two different non-negative times never show the same text |
| `ClockDisplay.FormatLength` | script.js:197-200 | below 6000 seconds the text is exactly 5 characters with ':' in the middle; from 6000 on it is 6 or more, since padding never truncates |
| `ClockDisplay.NegativeDisplay` | script.js:197-200 | -300 seconds shows as `-5:00` and -90 as `-2:-30` (floored minutes, truncated seconds) |

## Left out

- `SoundEngine` (Web Audio calls with floating-point frequencies and gain ramps): playing the alarm is modelled only as the ghost counter `alarms`.
- `render`, `el`/`elems`, `lucide.createIcons`, the CSS class strings and the `document.title` write: presentation only; they read the state and never change it.
- `toggleTheme`, `updateThemeIcon` and `isDarkMode`: a cosmetic flag outside the timer.
- The context-menu and keydown suppression and the event wiring in `init`: browser event plumbing.
- Real time: the one-second period of `setInterval` is not modelled; each firing is an explicit `Tick` of a live interval, and `Run` counts firings.
- `parseInt` itself (whitespace, sign, digit prefix, radix): the inputs arrive already parsed, as `Option<int>`. `parseInt("-0")` gives -0, which is falsy like 0, so `Some(0)` covers it.
- JavaScript numbers are doubles: the model uses unbounded integers, so durations beyond 2^53 seconds are not modelled.
- Modes outside the three values: `Mode` has three values, so the `mins = 25` default of `resetTimer` cannot be reached. A string outside them passed to `setMode` would make `render` throw; that is not modelled.
- ClockDisplay.FormatRoundTrip: the round trip is proved for t >= 0 only; for negative times only the two examples of `NegativeDisplay` are stated.
