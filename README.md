# Pomodoro timer: session state machine, time label and settings clamp

This project models the core of the Pomodoro page of the Olas-blog widgets in Dafny.

The `useTimer` hook runs a countdown through three modes: work, short break and long break. Its state is four fields: `mode`, `secondsLeft`, `isRunning` and `roundsCompleted`. A `TimerConfig` gives each mode's length in whole minutes and says after how many work rounds a long break replaces a short one. Seven steps change the state:
- the one-second interval tick;
- the expiry handler, which advances to the next mode once the countdown reaches zero and then starts it;
- the commands `start`, `pause`, `reset`, `skip` and `setConfig`.

The page around the hook adds three things:
- it renders the countdown as `mm:ss`;
- it starts from a default configuration;
- it clamps every number typed into the settings form to a whole number of at least 1 before handing the configuration to the timer.

Files:

- `Wrappers.dfy`: `Option`, which stands for a field of the restored state that may be missing (`x ?? default`).
- `UseTimer.dfy` (module `UseTimer`) models `src/hooks/useTimer.ts` in two layers:
  - The specification is a set of pure functions over a `Session` value.
    - `Advance` is the advance rule together with the auto-start.
    - `Elapse` is one second of a running timer.
    - `AdvanceN` and `ElapseN` are runs of these.
  - The class `Timer` holds the five state fields the hook updates and has one method per command. Each method is proved to produce the session the specification gives.
    - `Skip` and `Expire` each carry their own copy of the advance rule, as the hook does.
    - Both are proved equal to `Advance`, so the two copies agree.
- `App.dfy` (module `PomodoroApp`) models the pure parts of `src/App.tsx`:
  - `FormatTime`, with `String(n)` and `padStart` written out on characters;
  - `ParseTime`, an inverse of `FormatTime` used to state the round trip;
  - the default configuration;
  - the clamp `Math.max(1, Math.floor(x))` and the Save handler that applies it.

Behaviour of the model:

- The hook's delayed callbacks are modelled as atomic steps at the end of their operation: the 400 ms callback of the expiry handler and the 100 ms restart of `skip`. So after `Expire` or `Skip` the timer is already running in the next mode.
- `ElapseSecond` is the interval tick followed by the expiry handler that the new `secondsLeft` triggers.
- The JavaScript test `nextRounds % roundsBeforeLongBreak === 0` is modelled exactly for whole numbers:
  - with a zero divisor, JavaScript gives `NaN`, which equals nothing, so no long break is ever due;
  - otherwise the test holds exactly when the divisor divides `nextRounds`.
- The hook does not check the configuration it is given. Only the Save handler's clamp guarantees `ConfigValid`, meaning every field is at least 1, and `HandleSaveConfig` proves that a save leaves the timer in a valid state when its round count is not negative.

Two details of how the hook restores its state:
- The `pomodoro-state` record is read back only for `mode`, `isRunning`, `secondsLeft` and `roundsCompleted` (`useTimer.ts:35-38`). The configuration always comes from the hook's argument, not from that record.
- Without a saved `secondsLeft`, the saved `mode` (if any) picks the initial duration (`useTimer.ts:37`). The constructor takes the restored fields as a `SavedState` of options.

## Model

| member | source | states |
|---|---|---|
| `UseTimer.SecondsForMode` | Olas-blog/Pomodoro-projecttt/src/hooks/useTimer.ts:24-28 | a mode's duration is a whole number of minutes in seconds, and at least one minute when that mode's minutes are positive |
| `UseTimer.LongBreakDueMultiple` | Olas-blog/Pomodoro-projecttt/src/hooks/useTimer.ts:107 | the `nextRounds % roundsBeforeLongBreak === 0` test, also at line 139, is true exactly when the divisor is non-zero and divides the count, as the `=== 0` test is for whole numbers; with a zero divisor JavaScript's `NaN` makes it false |
| `UseTimer.Advance` | Olas-blog/Pomodoro-projecttt/src/hooks/useTimer.ts:103-120 | from work: one more round, and the next mode is long exactly when the new count is a multiple of `roundsBeforeLongBreak`, otherwise short; from a break: work with rounds unchanged; in every case the countdown is the new mode's full duration and the timer runs; a valid session stays valid |
| `UseTimer.Elapse` | Olas-blog/Pomodoro-projecttt/src/hooks/useTimer.ts:79-120 | a second with more than one second left only decrements the countdown; the second that brings it to zero is one advance, as in the hook whenever the next mode lasts at least a second; validity is kept and the countdown never ends the second at zero |
| `UseTimer.WorkCycle` | Olas-blog/Pomodoro-projecttt/src/hooks/useTimer.ts:104-117 | after `2n` advances from work the timer is at work again, `n` rounds later, with a full work countdown, whatever breaks came between |
| `UseTimer.BreakAfterWorkSession` | Olas-blog/Pomodoro-projecttt/src/hooks/useTimer.ts:104-113 | the break after the `(n+1)`-th work session is long exactly when the round count it reaches is a multiple of `roundsBeforeLongBreak` (so the 4th, 8th, 12th… with 4), otherwise short, and it starts at full length |
| `UseTimer.CountdownTicks` | Olas-blog/Pomodoro-projecttt/src/hooks/useTimer.ts:79-97 | while time is left, `k` seconds only take `k` off the countdown; nothing else changes |
| `UseTimer.CountdownExpires` | Olas-blog/Pomodoro-projecttt/src/hooks/useTimer.ts:96-120 | a countdown of `d` seconds keeps its mode and round count for `d - 1` seconds and has advanced at second `d`, which matches the hook when the next mode lasts at least a second |
| `UseTimer.Timer.constructor` | Olas-blog/Pomodoro-projecttt/src/hooks/useTimer.ts:34-38 | each field comes from the restored record, else its default (work, stopped, the mode's full duration, no rounds); with nothing restored and a valid configuration the timer is valid |
| `UseTimer.Timer.Start` | Olas-blog/Pomodoro-projecttt/src/hooks/useTimer.ts:125 | only `isRunning` changes, to true |
| `UseTimer.Timer.Pause` | Olas-blog/Pomodoro-projecttt/src/hooks/useTimer.ts:126 | only `isRunning` changes, to false |
| `UseTimer.Timer.Reset` | Olas-blog/Pomodoro-projecttt/src/hooks/useTimer.ts:127-132 | whatever the prior state: mode work, full work countdown, no rounds, stopped, configuration kept |
| `UseTimer.Timer.Skip` | Olas-blog/Pomodoro-projecttt/src/hooks/useTimer.ts:133-152 | the new session is `Advance` of the old one (running), with the configuration kept and validity preserved |
| `UseTimer.Timer.SetCfg` | Olas-blog/Pomodoro-projecttt/src/hooks/useTimer.ts:154-158 | the configuration is replaced and the countdown restarts at the current mode's duration under it; mode, rounds and running flag are unchanged |
| `UseTimer.Timer.Tick` | Olas-blog/Pomodoro-projecttt/src/hooks/useTimer.ts:79 | the countdown drops by exactly one and nothing else changes |
| `UseTimer.Timer.Expire` | Olas-blog/Pomodoro-projecttt/src/hooks/useTimer.ts:96-122 | nothing happens while time is left; at zero or below, the new session is `Advance` of the old one |
| `UseTimer.Timer.ElapseSecond` | Olas-blog/Pomodoro-projecttt/src/hooks/useTimer.ts:75-122 | a tick followed by the expiry handler produces `Elapse` of the old session and keeps the timer valid |
| `UseTimer.SkipAgreesWithExpiry` | Olas-blog/Pomodoro-projecttt/src/hooks/useTimer.ts:133-152 | skip and natural expiry from the same mode, rounds and configuration reach the same session, both running |
| `UseTimer.PauseIsIdempotent` | Olas-blog/Pomodoro-projecttt/src/hooks/useTimer.ts:126 | pausing twice leaves the same state as pausing once |
| `PomodoroApp.NatToString` | Olas-blog/Pomodoro-projecttt/src/App.tsx:8 | `String(n)` gives at least one digit, with no leading zero except for 0; one digit exactly below 10 and at most two below 100 |
| `PomodoroApp.NatToStringValue` | Olas-blog/Pomodoro-projecttt/src/App.tsx:8 | the digits `String(n)` gives denote `n` |
| `PomodoroApp.PadStart` | Olas-blog/Pomodoro-projecttt/src/App.tsx:8 | `padStart` gives the input, preceded by fill characters up to the requested width, and never shortens it |
| `PomodoroApp.ZeroPaddedValue` | Olas-blog/Pomodoro-projecttt/src/App.tsx:8 | padding digits with '0' keeps the number they denote |
| `PomodoroApp.FieldDigits` | Olas-blog/Pomodoro-projecttt/src/App.tsx:8 | one field `String(x).padStart(2, '0')` is all digits and denotes `x`; it is exactly two characters below 100, never shorter than two, and has no zero in front from 10 upwards |
| `PomodoroApp.FormatTime` | Olas-blog/Pomodoro-projecttt/src/App.tsx:5-9 | the label has a colon three characters from the end, and its minutes field is two characters wide for fewer than 100 minutes and as wide as the minute count otherwise |
| `PomodoroApp.FormatTimeFields` | Olas-blog/Pomodoro-projecttt/src/App.tsx:5-8 | the minutes field is all digits and denotes `seconds / 60`, with no zero in front beyond the padding; the seconds field is exactly two digits denoting `seconds % 60 < 60` |
| `PomodoroApp.FormatTimeRoundTrip` | Olas-blog/Pomodoro-projecttt/src/App.tsx:5-8 | reading the label's two fields back as `m * 60 + s` gives the seconds shown |
| `PomodoroApp.FormatTimeInjective` | Olas-blog/Pomodoro-projecttt/src/App.tsx:5-8 | two different countdowns never show the same label |
| `PomodoroApp.DefaultConfig` | Olas-blog/Pomodoro-projecttt/src/App.tsx:13-18 | the default is valid: 25-minute work sessions (1500 s), 5- and 15-minute breaks (300 s, 900 s), a long break every 4 rounds |
| `PomodoroApp.Clamp` | Olas-blog/Pomodoro-projecttt/src/App.tsx:120-123 | the result is at least 1; it is 1 below 1 and otherwise the largest whole number not above the input |
| `PomodoroApp.ClampOfWhole` | Olas-blog/Pomodoro-projecttt/src/App.tsx:120-123 | the clamp leaves whole numbers of at least 1 unchanged |
| `PomodoroApp.ClampIdempotent` | Olas-blog/Pomodoro-projecttt/src/App.tsx:120-123 | clamping twice is clamping once |
| `PomodoroApp.FormOf` | Olas-blog/Pomodoro-projecttt/src/App.tsx:46-49 | the settings form filled in from a configuration (when the page first renders, and again on Cancel at lines 133-136) has each field's floor equal to the configuration's number, which is all the clamp reads, and every field is at least 1 when the configuration is valid |
| `PomodoroApp.SavedConfig` | Olas-blog/Pomodoro-projecttt/src/App.tsx:119-124 | whatever the form holds, the saved configuration has every field at least 1, so `roundsBeforeLongBreak` is a safe modulus |
| `PomodoroApp.SavedConfigOfValid` | Olas-blog/Pomodoro-projecttt/src/App.tsx:119-136 | saving the unedited form of a valid configuration (as filled in on Cancel) gives back that configuration |
| `PomodoroApp.SavedConfigIdempotent` | Olas-blog/Pomodoro-projecttt/src/App.tsx:119-124 | saving the form of a saved configuration again changes nothing |
| `PomodoroApp.HandleSaveConfig` | Olas-blog/Pomodoro-projecttt/src/App.tsx:39-43 | the timer takes the clamped configuration and restarts its current mode under it; with a non-negative round count the timer ends in a valid state |
| `PomodoroApp.DefaultConfigSchedule` | Olas-blog/Pomodoro-projecttt/src/App.tsx:13-18 | with the default configuration and a fresh session, the first three work sessions lead to short breaks and the fourth to a 15-minute long break with 4 rounds completed |

## Left out

- `playBeep` (`useTimer.ts:43-62`) is WebAudio, a browser API. The model keeps only its place in the expiry handler: `Expire` returns true exactly in the run where the hook beeps (`useTimer.ts:101`).
- Reading and writing `localStorage` and the JSON encoding of `pomodoro-state` and `pomodoro-config` are left out as I/O. The restored fields enter the constructor as a `SavedState` of options. Values of the wrong JSON type are not modelled.
- The persistence round trip (serialise, then restore) is not modelled, because the JSON encoding is left out.
- `setInterval`, `clearInterval`, `setTimeout` and the React effect order are timing and callback concurrency, so they are left out. This covers the `intervalRef` guard and a possible second run of the expiry effect. A skip or pause landing inside the 400 ms settle delay is not modelled either, because each delayed callback is taken to fire at once.
- `Elapse`: one expiry is one advance. In the hook, if the next mode lasts 0 seconds or less (a configuration with a minute count below 1, which the hook accepts unchecked but the Save handler's clamp never produces), the expiry effect (`useTimer.ts:96-122`) fires again on the new `mode`, stops, beeps and advances a second time, 400 ms later. The model does not capture that second run or its beep. When every mode lasts 0 seconds the hook never settles, which a terminating step function cannot express.
- `CountdownExpires`: "advanced at second `d`" is one advance, for the same reason as `Elapse`. With a next mode of 0 seconds or less the hook advances more than once.
- `Timer.Skip`, `Timer.Reset`, `Timer.SetCfg`: a command that leaves the countdown at 0 or below also triggers the expiry effect in the hook (its test at `useTimer.ts:97`, its dependencies at `useTimer.ts:122`). An example is `skip` into a break of 0 minutes, or `reset` with 0 work minutes. There the hook stops, beeps and advances again 400 ms later. The model represents that run as a separate `Expire` call after the command. The command's own contract does not include it.
- `Timer.ElapseSecond`: makes one call of `Expire`, which is one run of the expiry effect. The hook's re-run after a next mode of 0 seconds or less would be a second call of `Expire` on the countdown of 0 it leaves, and `ElapseSecond` does not make it.
- The interval only fires while `isRunning` is true. That is a fact about the scheduler, which is not modelled, so `Tick` and `ElapseSecond` do not require it.
- The effect that copies `initialConfig` into the hook's configuration (`useTimer.ts:71-73`) is React re-render plumbing. It only passes on the configuration the Save handler also passes to `setConfig`.
- Numbers are modelled as mathematical integers (configuration and state fields) and reals (form inputs).
  - Fractional or non-finite minutes read from storage are not modelled.
  - `NaN` and `Infinity` in the form are not modelled.
  - Floating-point rounding of `Math.floor` is not modelled.
- `Clamp`: stated for mathematical reals. For `NaN`, JavaScript's `Math.max(1, Math.floor(NaN))` is `NaN`, which the model does not capture.
- `FormatTime`: defined for non-negative seconds only. JavaScript would render a negative count as, for example, `-1:-1`. A valid timer never has a negative countdown.
- The progress bar (`App.tsx:68`) is floating-point division and is left out.
- JSX rendering and the settings form's UI state (`App.tsx:45-151`) are left out. The one exception is that the form's numbers feed `SavedConfig`.
- The Save handler's own `setConfig` and `localStorage` write (`App.tsx:40-41`) are left out as UI state and I/O.
- The expense tracker and the task board are separate widgets, outside the Pomodoro page. Their list updates and their storage are not modelled. These are a prepend, a filter, and the task board's drag-and-drop move (`Task Manager/src/App.tsx:37-52`).
