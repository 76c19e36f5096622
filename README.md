# Pomodoro dial timer — countdown model

A model of the countdown inside the Pomodoro widget's `MainWindow`
(Pomodoro/MainWindow.xaml.cs). The user drags round a circular dial to
choose a duration; every drag step commits that duration and (re)starts a
one-second timer; each timer elapse renders the remaining time on the dial
as `MM:SS` and counts one second; the tick that counts past the total stops
the timer, shows `DONE!`, plays a sound and brings the window to the front.
Beside the countdown sit two boolean gates: the mouse-button flag that lets
drag moves through, and the minimized flag flipped by the Minimize button
and the tray icon.

The project has three modules:

- `ClockText` (clock_text.dfy) — the dial text: `TimeSpan.FromSeconds(s)`'s
  `Minutes` and `Seconds` components (truncating .NET division, so negative
  values print a minus sign) each printed with `D2`, and a reference parser
  `ParseClock` used to state the round trip.
- `Countdown` (countdown.dfy) — the countdown as a value `Clock(total,
  count, running)` with the commit (`SetTimer`) and one tick
  (`OnTimerElapsed`) as functions, runs of ticks, and the lemmas about the
  expiry schedule.
- `PomodoroWindow` (main_window.dfy) — the class `MainWindow` whose
  methods update its fields in place exactly as the event handlers do, each
  proved against the `Countdown` and `ClockText` functions, plus the
  minimize/show window flags.

Timing of expiry: the count is compared with the total after it is
incremented, so a 330-second countdown is still running after 330 ticks
(the next tick shows `00:00`) and expires on the 331st
(`Countdown.FiveAndAHalfMinutes`). A stopped timer after expiry and a
window where no countdown was ever committed are the same state: timer
stopped, count zero.

## Model

| member | source | states |
|---|---|---|
| `ClockText.SpanMinutes` | Pomodoro/MainWindow.xaml.cs:166-167 | The minutes component lies strictly between -60 and 60 and, for a non-negative time, is (s / 60) mod 60 |
| `ClockText.SpanSeconds` | Pomodoro/MainWindow.xaml.cs:166-167 | The seconds component lies strictly between -60 and 60 and, for a non-negative time, is s mod 60 |
| `ClockText.D2` | Pomodoro/MainWindow.xaml.cs:167 | Two digits worth the value for a non-negative value; a minus sign followed by two digits worth its magnitude for a negative one |
| `ClockText.FormatClock` | Pomodoro/MainWindow.xaml.cs:166-167 | For remaining >= 0 the text is MM ":" SS with MM = (remaining/60) mod 60 and SS = remaining mod 60, zero-padded; a minus sign appears exactly when a component is negative |
| `ClockText.FormatClockFields` | Pomodoro/MainWindow.xaml.cs:163-168 | Below an hour MM is the whole number of minutes and 60*MM + SS = remaining |
| `ClockText.FormatClockRoundTrip` | Pomodoro/MainWindow.xaml.cs:163-168 | Below one hour, reading the dial text back as MM:SS gives the remaining seconds |
| `ClockText.FormatClockDropsHours` | Pomodoro/MainWindow.xaml.cs:166-167 | Whole hours are not shown: the text of s equals the text of s mod 3600 |
| `ClockText.NegativeClockText` | Pomodoro/MainWindow.xaml.cs:165-167 | A negative remaining time within an hour prints a minus sign and is not an MM:SS clock |
| `Countdown.Commit` | Pomodoro/MainWindow.xaml.cs:117-129 | A commit sets the total and runs the timer; from a reachable state with a non-negative total it keeps the invariant with count zero |
| `Countdown.Tick` | Pomodoro/MainWindow.xaml.cs:131-148 | A tick keeps the total and the invariant; a running timer keeps running exactly when the tick does not expire |
| `Countdown.TickAdvances` | Pomodoro/MainWindow.xaml.cs:133-136 | A tick that does not expire adds exactly one to the count and keeps the total and the timer |
| `Countdown.TickExpires` | Pomodoro/MainWindow.xaml.cs:136-139 | The tick that counts past the total resets the count to zero and stops the timer |
| `Countdown.RemainingInRange` | Pomodoro/MainWindow.xaml.cs:165 | While running, the remaining time rendered at a tick is between 0 and the total |
| `Countdown.CommitResets` | Pomodoro/MainWindow.xaml.cs:119-124 | From any reachable state a commit leaves exactly one countdown of the new total at count zero |
| `Countdown.TicksKeepInv` | Pomodoro/MainWindow.xaml.cs:131-139 | The invariant (running: 0 <= count <= total; stopped: count = 0) holds after any number of ticks |
| `Countdown.StoppedIsFinal` | Pomodoro/MainWindow.xaml.cs:139 | Once the timer is stopped, further ticks change nothing and never expire |
| `Countdown.CountingPhase` | Pomodoro/MainWindow.xaml.cs:133-136 | Up to the remaining time, n ticks add exactly n to the count with no expiry |
| `Countdown.ExpiredPhase` | Pomodoro/MainWindow.xaml.cs:136-139 | Any run longer than the remaining time expires exactly once and ends stopped at count zero |
| `Countdown.CountdownFromCommit` | Pomodoro/MainWindow.xaml.cs:117-139 | After committing t >= 0, ticks 1..t count up showing t..1, tick t+1 expires, and there is exactly one expiry in any longer run |
| `Countdown.Preempt` | Pomodoro/MainWindow.xaml.cs:117-124 | A commit during a running countdown replaces it: one countdown of the new total at count zero |
| `Countdown.FiveAndAHalfMinutes` | Pomodoro/MainWindow.xaml.cs:131-139 | A 330-second countdown is still running after 330 ticks and is expired, once, after 331 |
| `PomodoroWindow.Toggle` | Pomodoro/MainWindow.xaml.cs:56-68 | Toggling flips the minimized flag and leaves the window visible exactly when it is no longer minimized |
| `PomodoroWindow.ToggleTwice` | Pomodoro/MainWindow.xaml.cs:56-68 | Two toggles restore the minimized flag, and the whole window state exactly when visibility agreed with the flag |
| `PomodoroWindow.ToggleAfterPopUp` | Pomodoro/MainWindow.xaml.cs:140-146 | After expiry shows a minimized window, the next Minimize click hides nothing and only the second one hides it |
| `PomodoroWindow.StaleDragText` | Pomodoro/MainWindow.xaml.cs:110-112 | A drag to a total below the running count renders a negative, non-clock text before the commit resets the count |
| `PomodoroWindow.MainWindow.constructor` | Pomodoro/MainWindow.xaml.cs:15-28 | A new window is idle (no total, no count, no timer), not dragging and not minimized; it is taken as shown by the application's startup |
| `PomodoroWindow.MainWindow.ToggleMinimize` | Pomodoro/MainWindow.xaml.cs:56-68 | The window flags become `Toggle` of the old ones; nothing else changes |
| `PomodoroWindow.MainWindow.MouseDown` | Pomodoro/MainWindow.xaml.cs:72-75 | Sets the drag gate |
| `PomodoroWindow.MainWindow.MouseUp` | Pomodoro/MainWindow.xaml.cs:77-80 | Clears the drag gate |
| `PomodoroWindow.MainWindow.MouseLeave` | Pomodoro/MainWindow.xaml.cs:82-85 | Clears the drag gate |
| `PomodoroWindow.MainWindow.SetDialText` | Pomodoro/MainWindow.xaml.cs:163-168 | The text becomes the clock text of the given total minus the current count |
| `PomodoroWindow.MainWindow.SetTimer` | Pomodoro/MainWindow.xaml.cs:117-129 | The new countdown is `Commit` of the old one: total t, count zero, timer running, invariant kept |
| `PomodoroWindow.MainWindow.MouseMove` | Pomodoro/MainWindow.xaml.cs:87-113 | Without the button held nothing changes; with it the text shows the new total against the old count, then the total is committed |
| `PomodoroWindow.MainWindow.OnTimerElapsed` | Pomodoro/MainWindow.xaml.cs:131-148 | The countdown becomes `Tick` of the old one; the text is the (non-negative) remaining time or DONE! on expiry, when exactly one sound and one activation happen and the window is shown |

## Left out

- Pointer geometry: the angle from the mouse position (square root, arc
  cosine, the NaN fallback), the angle-to-minutes mapping and the
  conversion of fractional minutes to a `TimeSpan` are floating-point
  numerics. `MouseMove` and `SetTimer` take the resulting whole number of
  seconds instead; in the program it is between 0 and 1800.
- The dial's rotation angle set by `RotateDial` (a floating-point number of
  degrees); only the text part of `RotateDial` is modelled.
- Threading: the `System.Timers.Timer` callbacks on pool threads, the
  shared static timer and the marshalling onto the UI thread. Ticks are
  sequential method calls and the timer is the single `running` flag; a
  late elapse racing with `Stop` is not modelled.
- `PomodoroWindow.MainWindow.SetTimer`: takes a non-negative total, since
  its only caller derives it from a non-negative duration; 32-bit overflow
  of `totalSeconds - count` is not modelled for the same reason.
- The sound, `Show`, `Hide` and `Activate` host calls are represented by
  the ghost counters `sounds` and `activations` and the `shown` flag.
- Window positioning on load, title-bar dragging and application exit are
  window chrome with no state of the model.
- The initial dial text comes from the view definition, which is not part
  of this model; the constructor takes it as a parameter.
- `PomodoroWindow.MainWindow.constructor`: takes the window as already
  shown by the application's startup, which is not part of this model;
  lines 23-28 only build the view and set the data context.
- `ClockText.D2`: prints the minus sign as `-`; .NET prints the current
  culture's negative sign, which only matters for the negative text of a
  stale drag step.
