# TimerWorker countdown, modelled in Dafny

This project models the countdown worker of the stress-management Android app
(`TimerWorker.kt`):

- `createTimerWorkRequest` packs a duration in minutes and a title into a
  one-time work request.
- `doWork` reads them back, falling back to 5 minutes and the default title.
  It runs the countdown and maps a normal return to success and any
  exception to failure.
- `startTimer` runs one step per second over `secondsElapsed` in
  `0..totalSeconds`. At each step it checks `isActive`, rewrites the ongoing
  notification (id 100) with the elapsed and remaining time (`formatTime`)
  and the progress percentage, and every 30 steps logs the time left. Then it
  waits one second. After the loop it posts the completion notification
  (id 101).

What the worker does becomes an event trace: a notification post under an id,
or a countdown log record. Kotlin `Int`/`Long` arithmetic is modelled exactly:
products wrap around, `toInt()` keeps the low 32 bits, `/` and `%` truncate
toward zero, and `/` by zero throws.

Cancellation is an input: a single moment, placed relative to the steps.
- If it falls before the `isActive` check of step `s` (`BeforeCheck(s)`),
  the loop breaks there.
- If it falls after that check (`InDelay(s)`), the step still posts its
  update. Then `delay(1000)` throws CancellationException, which `doWork`
  catches as a failure.

`TimerRun` is the closed-form specification of a run. `StartTimer` (the loop)
and `DoWork` are verified against it. The lemmas in `TimerProperties` state
what a run posts, logs and leaves on the notification surface.

Files:
- `options.dfy`: the `Option` type.
- `jvm_int.dfy`: JVM integer arithmetic.
- `time_format.dfy`: `formatTime` and its inverse.
- `work_data.dfy`: the request payload.
- `timer_worker.dfy`: the worker.
- `traces.dfy`: observations of a trace.
- `timer_properties.dfy`: properties of a run.

Two behaviours of the code are worth noting:
- When the `isActive` check breaks the loop, the completion notification is
  still posted and `doWork` reports success (`CheckCancellationBreaks`). Only
  a cancellation seen by `delay` ends the run without a completion
  notification (`DelayCancellationFails`). The `BeforeCheck` path assumes
  that the `isActive` the loop reads sees the work's cancellation; if it does
  not, only the `InDelay` path occurs.
- The progress value is computed in 32-bit `Int` arithmetic. From
  `totalSeconds > 21474836` (more than 357913 minutes), `secondsElapsed * 100`
  wraps and the progress bar receives negative values (`ProgressOverflows`).

## Model

| member | source | states |
|---|---|---|
| WorkData.CreateTimerWorkRequest | app/src/main/java/com/example/lab10_indp/TimerWorker.kt:25-35 | the request runs TimerWorker, carries the "timer_work" tag, and its payload holds exactly the duration and title keys, which `doWork` reads back as the given duration and title |
| WorkData.GetLong | app/src/main/java/com/example/lab10_indp/TimerWorker.kt:40 | `getLong(key, default)`: the stored value when the key holds a `Long`, the default when the key is absent or holds another type |
| WorkData.GetString | app/src/main/java/com/example/lab10_indp/TimerWorker.kt:41 | `getString(key)`: a value exactly when the key holds a `String`, and then that string; null otherwise |
| WorkData.ReadDuration | app/src/main/java/com/example/lab10_indp/TimerWorker.kt:40 | the stored `Long` under "timer_duration" when there is one, 5 when the key is absent or holds another type |
| WorkData.ReadTitle | app/src/main/java/com/example/lab10_indp/TimerWorker.kt:41 | the stored `String` under "timer_title" when there is one, "Temporizador Estrés" when the key is absent or holds another type |
| JvmInt.WrapInt | app/src/main/java/com/example/lab10_indp/TimerWorker.kt:56 | `toInt()` and `Int` results: a value in the 32-bit range is kept unchanged |
| JvmInt.WrapIntPeriodic | app/src/main/java/com/example/lab10_indp/TimerWorker.kt:56 | adding any multiple of 2^32 does not change the `Int` a value converts to |
| JvmInt.WrapLong | app/src/main/java/com/example/lab10_indp/TimerWorker.kt:56 | `Long` results: a value in the 64-bit range is kept unchanged |
| JvmInt.WrapLongPeriodic | app/src/main/java/com/example/lab10_indp/TimerWorker.kt:56 | adding any multiple of 2^64 does not change the `Long` a product yields, so together with `WrapLong` it is the product modulo 2^64 |
| JvmInt.Quot | app/src/main/java/com/example/lab10_indp/TimerWorker.kt:72 | JVM `/` by a positive divisor keeps the sign of the dividend: never negative for a non-negative dividend, never positive for a non-positive one |
| JvmInt.Rem | app/src/main/java/com/example/lab10_indp/TimerWorker.kt:73 | JVM `%` by a positive divisor: in `0..b-1` for a non-negative dividend, in `-(b-1)..0` for a negative one |
| JvmInt.QuotRem | app/src/main/java/com/example/lab10_indp/TimerWorker.kt:72-73 | JVM `/` and `%` by a positive divisor: quotient and remainder recompose the dividend, the remainder has the dividend's sign and is smaller than the divisor |
| JvmInt.DivInt | app/src/main/java/com/example/lab10_indp/TimerWorker.kt:68 | `Int` division throws exactly when the divisor is zero, and by a positive divisor truncates toward zero |
| TimeFormat.Pad2 | app/src/main/java/com/example/lab10_indp/TimerWorker.kt:148 | a "%02d" field is at least two characters wide; a non-negative one is all digits, exactly two below 100, reads back as its value, and starts with no padding zero from 10 on; a negative one is a minus sign and the digits of the magnitude |
| TimeFormat.FormatTimeShape | app/src/main/java/com/example/lab10_indp/TimerWorker.kt:145-149 | for a non-negative count: minute digits, a colon, then exactly two second digits holding the count mod 60; five characters exactly below 100 minutes |
| TimeFormat.FormatTime | app/src/main/java/com/example/lab10_indp/TimerWorker.kt:145-149 | for a non-negative count, parsing the text `formatTime` writes gives back the count of seconds |
| TimeFormat.ParseTime | app/src/main/java/com/example/lab10_indp/TimerWorker.kt:145-149 | reads the "minutes:seconds" layout `formatTime` writes (digits, a colon, two digits) as a non-negative count of seconds, and nothing else |
| TimerWorker.TotalSeconds | app/src/main/java/com/example/lab10_indp/TimerWorker.kt:56 | `(durationMinutes * 60).toInt()` is the exact number of seconds for 0 to IntMax / 60 minutes, and the exact, negative count for -(IntMax / 60) to -1 minutes; further out the `Int` cut wraps around (`ZeroTotalFails`) |
| TimerWorker.IsActive | app/src/main/java/com/example/lab10_indp/TimerWorker.kt:60 | the `isActive` check of a step is false exactly when the work was cancelled before it: at an earlier step, or just before this check (not within this step's delay) |
| TimerWorker.DelayReturns | app/src/main/java/com/example/lab10_indp/TimerWorker.kt:77 | `delay(1000)` of a step returns only while the coroutine is active, and throws exactly when the work was cancelled at or before that step |
| TimerWorker.StepCount | app/src/main/java/com/example/lab10_indp/TimerWorker.kt:58 | `0..totalSeconds` has `totalSeconds + 1` steps, none when the total is negative |
| TimerWorker.Progress | app/src/main/java/com/example/lab10_indp/TimerWorker.kt:68 | while `secondsElapsed * 100` fits in an `Int` and the total is positive, the progress is the exact quotient `secondsElapsed * 100 / totalSeconds` |
| TimerWorker.OngoingAt | app/src/main/java/com/example/lab10_indp/TimerWorker.kt:62-68 | the update of a step carries the title, the seconds elapsed and a non-negative time left, adding up to the total, and that step's `Progress` value |
| TimerWorker.LogAt | app/src/main/java/com/example/lab10_indp/TimerWorker.kt:71-73 | the log record of a step splits the time left into whole minutes and 0..59 seconds |
| TimerWorker.StepEvents | app/src/main/java/com/example/lab10_indp/TimerWorker.kt:62-75 | a step emits the progress update under id 100 first, then a log record exactly when the step is a multiple of 30 |
| TimerWorker.StepsTaken | app/src/main/java/com/example/lab10_indp/TimerWorker.kt:58-60 | the loop reaches the checks of all steps before the first inactive one, which it breaks at, or of every step |
| TimerWorker.TimerRun | app/src/main/java/com/example/lab10_indp/TimerWorker.kt:55-82 | a run completes unless a zero total meets an active first step or a delay throws; a completed run ends with the completion notification; a failed one is empty (zero total) or ends with the step whose delay threw |
| TimerWorker.RunDividesByZero | app/src/main/java/com/example/lab10_indp/TimerWorker.kt:68 | a zero total throws at step 0, before anything is posted, when the first `isActive` check passes |
| TimerWorker.RunThrowsInDelay | app/src/main/java/com/example/lab10_indp/TimerWorker.kt:77 | cancelled within step `k`: the run fails after emitting steps `0..k` |
| TimerWorker.RunLeavesLoop | app/src/main/java/com/example/lab10_indp/TimerWorker.kt:58-81 | a loop left after `k` steps, all before the cancellation, emits them and then the completion notification |
| TimerWorker.StartTimer | app/src/main/java/com/example/lab10_indp/TimerWorker.kt:55-82 | the loop's trace and outcome are exactly `TimerRun` |
| TimerWorker.DoWork | app/src/main/java/com/example/lab10_indp/TimerWorker.kt:38-53 | runs the timer on the payload's duration and title (or their defaults); success exactly when the run did not throw |
| TimerProperties.StepEventsFilters | app/src/main/java/com/example/lab10_indp/TimerWorker.kt:62-75 | one step posts one progress update under id 100, nothing under id 101, and a log record only when the step is a multiple of 30 |
| TimerProperties.StepsPostUpdates | app/src/main/java/com/example/lab10_indp/TimerWorker.kt:58-69 | the first `k` steps post exactly the updates of steps `0..k-1`, in order, and no completion notification |
| TimerProperties.StepsLogs | app/src/main/java/com/example/lab10_indp/TimerWorker.kt:71-75 | the first `k` steps log exactly what each step logs, in order |
| TimerProperties.LogsEvery30 | app/src/main/java/com/example/lab10_indp/TimerWorker.kt:71-75 | `k` steps log `(k + 29) / 30` records, the `i`-th one for step `30 * i` |
| TimerProperties.CompletedRunPosts | app/src/main/java/com/example/lab10_indp/TimerWorker.kt:58-81 | a completed run posts one update per step taken, in step order, exactly one completion notification, and the logs of the steps taken |
| TimerProperties.UncancelledRunSteps | app/src/main/java/com/example/lab10_indp/TimerWorker.kt:58-69 | a never-cancelled run of at least one second posts exactly `totalSeconds + 1` updates, for elapsed 0 to `totalSeconds` in order, then the completion notification last |
| TimerProperties.UncancelledRunLogs | app/src/main/java/com/example/lab10_indp/TimerWorker.kt:71-75 | a never-cancelled run logs `(totalSeconds + 30) / 30` records, for steps 0, 30, 60, ... |
| TimerProperties.NegativeDurationRun | app/src/main/java/com/example/lab10_indp/TimerWorker.kt:58-80 | with a negative total the loop is empty and only the completion notification is posted |
| TimerProperties.ZeroTotalFails | app/src/main/java/com/example/lab10_indp/TimerWorker.kt:68 | 0 minutes, and also 2^30 and -2^30 minutes, give a zero total; such a run, when the first `isActive` check passes, throws with nothing posted |
| TimerProperties.CheckCancellationBreaks | app/src/main/java/com/example/lab10_indp/TimerWorker.kt:58-60 | cancellation seen by the check of step `k`: exactly the updates of steps `0..k-1` are posted, and the completion notification is still posted |
| TimerProperties.DelayCancellationFails | app/src/main/java/com/example/lab10_indp/TimerWorker.kt:77 | cancellation within step `k`: the run fails with exactly the updates of steps `0..k` and no completion notification; the ongoing notification stays at step `k` |
| TimerProperties.CancellationIsFinal | app/src/main/java/com/example/lab10_indp/TimerWorker.kt:58-77 | once the `isActive` check fails, or a delay throws, it does so at every later step too |
| TimerWorker.Notification.ElapsedText | app/src/main/java/com/example/lab10_indp/TimerWorker.kt:66 | `formatTime(secondsElapsed.toLong())`: the elapsed text reads back as the elapsed count when it is non-negative |
| TimerWorker.Notification.LeftText | app/src/main/java/com/example/lab10_indp/TimerWorker.kt:67 | `formatTime(timeLeft.toLong())`: the remaining text reads back as the time left when it is non-negative |
| TimerProperties.OngoingTextsReadBack | app/src/main/java/com/example/lab10_indp/TimerWorker.kt:66-67 | the elapsed and remaining texts of an update read back as its two counts |
| TimerProperties.TimeLeftDecreases | app/src/main/java/com/example/lab10_indp/TimerWorker.kt:62 | a later step shows strictly less time left |
| TimerProperties.ProgressInRange | app/src/main/java/com/example/lab10_indp/TimerWorker.kt:68 | for totals up to IntMax / 100 the progress is the exact `j * 100 / total`, within 0..100, 0 at the first step and 100 at the last |
| TimerProperties.ProgressMonotone | app/src/main/java/com/example/lab10_indp/TimerWorker.kt:68 | for such totals the progress never goes down from one step to a later one |
| TimerProperties.UncancelledRunProgress | app/src/main/java/com/example/lab10_indp/TimerWorker.kt:68 | in a never-cancelled run with total up to IntMax / 100, every posted update shows progress in 0..100, the first 0, the last 100, never decreasing |
| TimerProperties.ProgressOverflows | app/src/main/java/com/example/lab10_indp/TimerWorker.kt:68 | a never-cancelled run of 357914 minutes posts 21474841 updates, and the one for step 21474837 shows progress -99 |
| TimerProperties.SurfaceAfterUpdate | app/src/main/java/com/example/lab10_indp/TimerWorker.kt:122 | posting under id 100 replaces whatever was shown under that id and leaves the other ids alone |
| TimerProperties.StepsSurface | app/src/main/java/com/example/lab10_indp/TimerWorker.kt:122 | after `k > 0` steps only one notification is shown: the update of step `k - 1` |
| TimerProperties.CompletionKeepsProgress | app/src/main/java/com/example/lab10_indp/TimerWorker.kt:142 | the completion notification goes under id 101, so after a completed run the last progress update and the completion notification are both shown |

## Left out

- MainActivity.kt and StressMonitoringWorker are not part of this model. They are UI glue and a random sampler.
- `createNotificationChannel` is left out. It is a platform call with no effect on the trace.
- The notification builders keep only what varies: the title, the two second counts with their `formatTime` texts (`ElapsedText`, `LeftText`), the progress, and the duration of the completion notification. Fixed texts, icons, priority, ongoing and auto-cancel flags and the big-text style are left out.
- Log lines other than the 30-step record are left out (start, completion, error message). The record keeps the two numbers, not the message text.
- The one-second wait of `delay(1000)` is not modelled. Only its outcome is: it returns, or throws CancellationException when the work was cancelled.
- Exceptions other than division by zero and cancellation are not modelled, for example a failing notification manager.
- The work request's generated id and the scheduler's queueing are left out. A request holds the worker class, the payload and the tags.
- `String.format` uses the default locale. The model writes ASCII digits.
- The notification manager and the log are platform services. The model returns what would be posted and logged as a trace value.
