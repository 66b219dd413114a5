# Countdown timer controller, modelled in Dafny

This project models the core of a single-screen countdown timer. The user
dials hours, minutes and seconds. Pressing Start snapshots that duration and
launches a loop that lowers the remaining time by one second per step. When
the time reaches zero the loop resets the controller. The screen shows the
remaining time as hours, minutes and seconds, and as the filled fraction of a
progress ring.

Two modules follow the two source files:

- `Timer` (timer.dfy) models `MainViewModel`. The state is the value
  `TimerState`: `started`, `totalClock`, `clock`, `hours`, `minutes`,
  `seconds`, and `hasJob` for the `job` field. Each operation is a pure
  transition function (`AfterReset`, `AfterStart`, `AfterTick`, `AfterInc`,
  `AfterDec`). The loop run to its end is `AfterCountdown`. The class
  `MainViewModel` has the same fields and one method per operation; each
  method updates its fields in place and is proved to make exactly the
  matching transition. `Consistent` is the invariant of every reachable
  state: the edit fields are never negative, `0 <= clock <= totalClock`, a
  loop is live exactly while `started` holds, and a controller at rest has
  `totalClock == 0`.
- `Display` (display.dfy) models what `MainActivity` derives from that state:
  the hours, minutes and seconds digits (`div 3600`, `rem 3600 div 60`,
  `rem 60`) and the progress fraction `clock / totalClock`, which is 0 for a
  zero total. Kotlin's `Int.div` and `Int.rem` round toward zero. They are
  written out as `TruncDiv` and `TruncRem`, so the split is modelled for
  every integer, not only for the non-negative times the controller produces.

Two modelling decisions:

- A second `startCountdown` while running does not cancel the first loop:
  MainViewModel.kt:55 overwrites `job` without cancelling it, so the old
  loop would keep ticking. The screen offers Start only while `started` is
  false (MainActivity.kt:373), so `MainViewModel.StartCountdown` requires
  `!started`, and the model makes no claim about two live loops.
- Cancelling `job` is modelled by clearing `hasJob`. In Kotlin the
  cancelled job stays referenced, so `job != null` remains true. `job` is
  read only inside `reset` (MainViewModel.kt:40-41), by a guard that also
  needs `started`. `started` is false after every reset that cancels, and
  only a start sets it, which also sets `hasJob`. The guard therefore
  decides the same way in both.

## Model

| member | source | states |
|---|---|---|
| `Timer.Duration` | app/src/main/java/com/example/androiddevchallenge/MainViewModel.kt:53 | the dialled duration is non-negative when the fields are, and zero only when all three are zero |
| `Timer.AfterInc` | app/src/main/java/com/example/androiddevchallenge/MainViewModel.kt:64-82 | an increment raises exactly its own field by 1; the other two fields, `started`, `hasJob`, `totalClock` and `clock` are unchanged; the invariant is kept |
| `Timer.AfterDec` | app/src/main/java/com/example/androiddevchallenge/MainViewModel.kt:68-86 | a decrement never leaves its field negative, lowers a positive field by 1, changes nothing at 0, and touches no other field |
| `Timer.AfterReset` | app/src/main/java/com/example/androiddevchallenge/MainViewModel.kt:39-49 | the edit fields are always cleared; with a started countdown and a live job the whole state is the initial one; otherwise `started`, `hasJob`, `totalClock` and `clock` are untouched |
| `Timer.AfterStart` | app/src/main/java/com/example/androiddevchallenge/MainViewModel.kt:51-55 | after a start the countdown is started with a live loop, `totalClock` is `hours*3600 + minutes*60 + seconds`, `clock == totalClock`, and the edit fields are unchanged |
| `Timer.AfterTick` | app/src/main/java/com/example/androiddevchallenge/MainViewModel.kt:56-59 | a tick happens only while `clock > 0`, lowers `clock` by exactly 1, changes nothing else, and keeps `0 <= clock <= totalClock` |
| `Timer.AfterTicks` | app/src/main/java/com/example/androiddevchallenge/MainViewModel.kt:56-59 | `k` ticks lower `clock` by `k` and leave every other field, `totalClock` included, as it was |
| `Timer.AfterCountdown` | app/src/main/java/com/example/androiddevchallenge/MainViewModel.kt:55-61 | the loop run to its end leaves the edit fields cleared, and from any started consistent state it ends in the initial state |
| `Timer.IncTimes` | app/src/main/java/com/example/androiddevchallenge/MainViewModel.kt:64-82 | `n` increments raise their field by exactly `n` and touch nothing else |
| `Timer.DecTimes` | app/src/main/java/com/example/androiddevchallenge/MainViewModel.kt:68-86 | `n` decrements lower a non-negative field to `max(x - n, 0)` and touch nothing else |
| `Timer.IncThenDec` | app/src/main/java/com/example/androiddevchallenge/MainViewModel.kt:64-86 | an increment followed by the matching decrement restores the state |
| `Timer.DecThenInc` | app/src/main/java/com/example/androiddevchallenge/MainViewModel.kt:64-86 | for a field above 0, a decrement followed by the matching increment restores the state |
| `Timer.DecTimesUndoesIncTimes` | app/src/main/java/com/example/androiddevchallenge/MainViewModel.kt:64-86 | `n` increments followed by `n` decrements restore the state, for every `n` |
| `Timer.DecTimesAtZero` | app/src/main/java/com/example/androiddevchallenge/MainViewModel.kt:68-86 | decrementing a field at 0 any number of times leaves the state unchanged |
| `Timer.ResetRestoresInitial` | app/src/main/java/com/example/androiddevchallenge/MainViewModel.kt:39-49 | from every consistent state, reset yields the initial state |
| `Timer.ResetIdempotent` | app/src/main/java/com/example/androiddevchallenge/MainViewModel.kt:39-49 | resetting twice is the same as resetting once |
| `Timer.CountdownIsTicksThenReset` | app/src/main/java/com/example/androiddevchallenge/MainViewModel.kt:55-61 | the loop takes exactly `clock` ticks and then runs reset |
| `Timer.TicksAfterStart` | app/src/main/java/com/example/androiddevchallenge/MainViewModel.kt:51-59 | after a start and `k` ticks, `totalClock` still holds the dialled duration, `clock` is that duration minus `k`, and `0 <= clock <= totalClock` |
| `Timer.StartThenCountdown` | app/src/main/java/com/example/androiddevchallenge/MainViewModel.kt:51-61 | a start followed by the complete countdown returns the controller to its initial state, a zero duration included |
| `Timer.MainViewModel.constructor` | app/src/main/java/com/example/androiddevchallenge/MainViewModel.kt:30-37 | a new controller is not started, holds no job, and all its counters are 0 |
| `Timer.MainViewModel.Reset` | app/src/main/java/com/example/androiddevchallenge/MainViewModel.kt:39-49 | the fields after `reset` are `AfterReset` of the fields before; the invariant is kept |
| `Timer.MainViewModel.StartCountdown` | app/src/main/java/com/example/androiddevchallenge/MainViewModel.kt:51-55 | when not started, the fields after `startCountdown` are `AfterStart` of the fields before |
| `Timer.MainViewModel.Tick` | app/src/main/java/com/example/androiddevchallenge/MainViewModel.kt:56-59 | one loop iteration with `clock > 0` and a live job performs `AfterTick` |
| `Timer.MainViewModel.RunCountdown` | app/src/main/java/com/example/androiddevchallenge/MainViewModel.kt:55-61 | the loop runs exactly `clock` iterations, then resets; the controller ends in the initial state |
| `Timer.MainViewModel.IncHour` | app/src/main/java/com/example/androiddevchallenge/MainViewModel.kt:64-66 | performs `AfterInc` on the hours |
| `Timer.MainViewModel.DecHour` | app/src/main/java/com/example/androiddevchallenge/MainViewModel.kt:68-70 | performs `AfterDec` on the hours |
| `Timer.MainViewModel.IncMinute` | app/src/main/java/com/example/androiddevchallenge/MainViewModel.kt:72-74 | performs `AfterInc` on the minutes |
| `Timer.MainViewModel.DecMinute` | app/src/main/java/com/example/androiddevchallenge/MainViewModel.kt:76-78 | performs `AfterDec` on the minutes |
| `Timer.MainViewModel.IncSecond` | app/src/main/java/com/example/androiddevchallenge/MainViewModel.kt:80-82 | performs `AfterInc` on the seconds |
| `Timer.MainViewModel.DecSecond` | app/src/main/java/com/example/androiddevchallenge/MainViewModel.kt:84-86 | performs `AfterDec` on the seconds |
| `Display.TruncDiv` | app/src/main/java/com/example/androiddevchallenge/MainActivity.kt:145 | Kotlin's `Int.div` rounds toward zero: `q*b` lies between 0 and `a` and less than `b` away from `a`, for a dividend of either sign |
| `Display.TruncRem` | app/src/main/java/com/example/androiddevchallenge/MainActivity.kt:173 | Kotlin's `Int.rem` completes the truncating division (`a == q*b + r`), has the sign of `a`, and is below `b` in size |
| `Display.DisplayHours` | app/src/main/java/com/example/androiddevchallenge/MainActivity.kt:145 | for a non-negative time, the hours shown are the whole hours it contains |
| `Display.DisplayMinutes` | app/src/main/java/com/example/androiddevchallenge/MainActivity.kt:159 | the minutes shown lie in 0..59 for a non-negative time, and in -59..59 for any time |
| `Display.DisplaySeconds` | app/src/main/java/com/example/androiddevchallenge/MainActivity.kt:173 | the seconds shown lie in 0..59 for a non-negative time, and in -59..59 for any time |
| `Display.Progress` | app/src/main/java/com/example/androiddevchallenge/MainActivity.kt:185 | the fraction is 0 for a zero total; otherwise it times the total gives the remaining time |
| `Display.SecondsWithinHour` | app/src/main/java/com/example/androiddevchallenge/MainActivity.kt:159-173 | the seconds digit of a time equals that of its remainder within the hour |
| `Display.Recombine` | app/src/main/java/com/example/androiddevchallenge/MainActivity.kt:145-173 | the three digits shown, put through the start formula, give back the remaining time, for every integer |
| `Display.DisplayOfDuration` | app/src/main/java/com/example/androiddevchallenge/MainActivity.kt:145-173 | a duration dialled with minutes and seconds below 60 is shown as exactly those hours, minutes and seconds (for example 1:02:03 and 3723) |
| `Display.ScreenAfterStart` | app/src/main/java/com/example/androiddevchallenge/MainActivity.kt:145-185 | right after a start the clock shows the dialled hours, minutes and seconds, and the ring is full (empty for a zero duration) |
| `Display.ProgressWhenNothingElapsed` | app/src/main/java/com/example/androiddevchallenge/MainActivity.kt:185 | with the remaining time equal to the total the ring is full, and empty for a zero total |
| `Display.ProgressInUnitInterval` | app/src/main/java/com/example/androiddevchallenge/MainActivity.kt:185 | the fraction lies in [0, 1] whenever `0 <= countdownSeconds <= totalSeconds` |
| `Display.ProgressOfConsistent` | app/src/main/java/com/example/androiddevchallenge/MainActivity.kt:185 | in every reachable controller state the ring lies between empty and full |
| `Display.ProgressFallsOnTick` | app/src/main/java/com/example/androiddevchallenge/MainActivity.kt:185 | every tick strictly lowers the fraction |

## Left out

- Timer.MainViewModel.StartCountdown: requires `!started`, which the code does not check. The screen only shows Start when the countdown is not started (MainActivity.kt:373). A second start while running would leave the first loop alive next to the new one, and the model does not describe two loops.
- Timer.MainViewModel.RunCountdown: assumes the loop runs without interruption, with `job` assigned before its first step. In the source, a user reset can cancel the loop between ticks; that case is modelled by calling `Tick` step by step and then `Reset`. The race in which a zero-duration loop calls `reset` before `job` is assigned is a threading artifact and is not modelled.
- Coroutine scheduling, `Dispatchers.IO`, `delay(1000)` and the wall-clock timing of ticks: the loop is modelled as sequential steps. `Job.cancel()` is modelled as clearing `hasJob`.
- Kotlin `Int` overflow: fields and times are unbounded integers. Unbounded increments, or `hours*3600`, would wrap at 2^31 in the source.
- The progress fraction is a `Float` in the source and an exact `real` here. Its spring animation is floating-point animation and is not modelled.
- The `mutableStateOf` observation that re-renders the screen is framework plumbing; plain fields stand for it.
- All Compose layout and rendering (`MyApp`, `timePicker`, `bottomMenu`, the progress indicator widget, icons, theming, previews) is not part of this model.
