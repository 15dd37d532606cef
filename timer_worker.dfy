/**
 * TimerWorker: `doWork` reads the timer parameters from its payload and runs
 * `startTimer`, a one-step-per-second countdown that rewrites an ongoing
 * notification at every step, logs the time left every 30 steps and finally
 * posts a completion notification.
 *
 * The notification posts and the countdown log lines become the records of
 * an event trace. When the work is cancelled, relative to the steps of the
 * countdown, is an input.
 */
module TimerWorker {
  import opened Options
  import opened JvmInt
  import opened TimeFormat
  import opened WorkData

  /** The id of the ongoing progress notification. */
  const NotificationId: int := 100
  /** The completion notification is posted under the next id, beside the progress one. */
  const CompletionNotificationId: int := NotificationId + 1

  /** The countdown logs the time left at every step that is a multiple of this. */
  const LogInterval: int := 30

  /**
   * A posted notification. The ongoing one keeps the two second counts whose
   * `formatTime` texts it shows (`ElapsedText`, `LeftText`) and the progress
   * bar value.
   */
  datatype Notification =
    | Ongoing(title: string, elapsedSeconds: Int32, leftSeconds: Int32, progress: Int32)
    | Finished(title: string, durationMinutes: Int64)
  {
    /** The "Transcurrido" text: `formatTime(secondsElapsed)`. */
    function ElapsedText(): (text: string)
      requires Ongoing?
      ensures elapsedSeconds >= 0 ==> ParseTime(text) == Some(elapsedSeconds as int)
    {
      FormatTime(elapsedSeconds)
    }

    /** The "Restante" text: `formatTime(timeLeft)`. */
    function LeftText(): (text: string)
      requires Ongoing?
      ensures leftSeconds >= 0 ==> ParseTime(text) == Some(leftSeconds as int)
    {
      FormatTime(leftSeconds)
    }
  }

  datatype Event =
    | Notify(id: int, notification: Notification)
    | LogRemaining(minutesLeft: int, secondsLeft: int)

  /** What `startTimer` did: its trace and whether it returned normally rather than throwing. */
  datatype Run = Run(trace: seq<Event>, completed: bool)

  datatype WorkResult = Success | Failure

  /**
   * The moment the work is cancelled, as the countdown sees it; from then on
   * the coroutine stays inactive. `BeforeCheck(s)`: after the delay of step
   * `s - 1` returned and before the `isActive` check of step `s`, which then
   * breaks the loop. `InDelay(s)`: after that check and before the delay of
   * step `s` returns, so that `delay` throws CancellationException.
   */
  datatype Cancellation = BeforeCheck(step: nat) | InDelay(step: nat)

  /**
   * `(durationMinutes * 60).toInt()`: a `Long` product cut down to an `Int`.
   * The exact number of seconds for durations up to IntMax / 60 minutes, and
   * the exact, negative count for durations from -(IntMax / 60) to -1
   * minutes; further out the cut to an `Int` wraps around.
   */
  function TotalSeconds(durationMinutes: Int64): (total: Int32)
    ensures 0 <= durationMinutes <= IntMax / 60 ==> total == durationMinutes * 60
    ensures -(IntMax / 60) <= durationMinutes < 0 ==> total == durationMinutes * 60 < 0
  {
    WrapInt(WrapLong(durationMinutes * 60))
  }

  /**
   * The value of `coroutineContext.isActive` at the check of step `step`
   * (`None`: never cancelled). It is false exactly when the work was
   * cancelled before that check: at an earlier step, or just before this one.
   */
  function IsActive(cancel: Option<Cancellation>, step: nat): (active: bool)
    ensures cancel.None? ==> active
    ensures !active <==>
      cancel.Some? && (cancel.value.step < step || (cancel.value.BeforeCheck? && cancel.value.step == step))
  {
    match cancel
    case None => true
    case Some(BeforeCheck(s)) => step < s
    case Some(InDelay(s)) => step <= s
  }

  /**
   * Whether `delay(1000)` of step `step` returns rather than throwing
   * CancellationException: it returns only while the coroutine is active,
   * and throws once the work was cancelled at or before that step.
   */
  function DelayReturns(cancel: Option<Cancellation>, step: nat): (returned: bool)
    ensures returned ==> IsActive(cancel, step)
    ensures !returned <==> cancel.Some? && cancel.value.step <= step
  {
    cancel.None? || step < cancel.value.step
  }

  /** The number of steps of `0..total`: none when `total` is negative. */
  function StepCount(total: Int32): (n: nat)
    ensures total >= 0 ==> n == total + 1
    ensures total < 0 ==> n == 0
  {
    if total < 0 then 0 else total + 1
  }

  /**
   * `secondsElapsed * 100 / totalSeconds`, in `Int` arithmetic: the exact
   * quotient while the product fits in an `Int`.
   */
  function Progress(elapsed: Int32, total: Int32): (p: Int32)
    requires total != 0
    ensures total > 0 && 0 <= elapsed * 100 <= IntMax ==> p == elapsed * 100 / total
  {
    DivInt(WrapInt(elapsed * 100), total).value
  }

  /**
   * The ongoing notification posted at step `elapsed`: it carries the title,
   * `elapsed` seconds elapsed and a non-negative time left, adding up to the
   * total, and the progress of that step.
   */
  function OngoingAt(total: Int32, title: string, elapsed: int): (n: Notification)
    requires 0 <= elapsed <= total && total != 0
    ensures n.Ongoing? && n.title == title
    ensures n.elapsedSeconds == elapsed && n.leftSeconds >= 0
    ensures n.elapsedSeconds + n.leftSeconds == total
    ensures n.progress == Progress(elapsed, total)
  {
    Ongoing(title, elapsed, total - elapsed, Progress(elapsed, total))
  }

  /** The log record of step `elapsed`: the time left split into whole minutes and 0..59 seconds. */
  function LogAt(total: Int32, elapsed: int): (log: Event)
    requires 0 <= elapsed <= total
    ensures log.LogRemaining?
    ensures log.minutesLeft >= 0 && 0 <= log.secondsLeft < 60
    ensures log.minutesLeft * 60 + log.secondsLeft == total - elapsed
  {
    QuotRem(total - elapsed, 60);
    LogRemaining(Quot(total - elapsed, 60), Rem(total - elapsed, 60))
  }

  /** What one step of the countdown emits: the notification, then the log record every 30 steps. */
  function StepEvents(total: Int32, title: string, elapsed: int): (events: seq<Event>)
    requires 0 <= elapsed <= total && total != 0
    ensures 1 <= |events| <= 2
    ensures events[0] == Notify(NotificationId, OngoingAt(total, title, elapsed))
    ensures |events| == 2 <==> elapsed % LogInterval == 0
    ensures |events| == 2 ==> events[1] == LogAt(total, elapsed)
  {
    [Notify(NotificationId, OngoingAt(total, title, elapsed))]
      + (if Rem(elapsed, LogInterval) == 0 then [LogAt(total, elapsed)] else [])
  }

  /** What steps `0 .. k - 1` emit, in order. */
  function StepsTrace(total: Int32, title: string, k: nat): seq<Event>
    requires k <= StepCount(total) && (k == 0 || total != 0)
  {
    if k == 0 then [] else StepsTrace(total, title, k - 1) + StepEvents(total, title, k - 1)
  }

  /** Steps `0 .. k` are steps `0 .. k - 1` followed by step `k`. */
  lemma StepsTraceSnoc(total: Int32, title: string, k: nat)
    requires k < StepCount(total) && total != 0
    ensures StepsTrace(total, title, k + 1) == StepsTrace(total, title, k) + StepEvents(total, title, k)
  {
  }

  /**
   * How many steps pass the `isActive` check: the loop reaches the check of
   * every step of `0..totalSeconds` up to the first one that sees a
   * cancelled coroutine, or all of them.
   */
  function StepsTaken(durationMinutes: Int64, cancel: Option<Cancellation>): (k: nat)
    ensures k <= StepCount(TotalSeconds(durationMinutes))
    ensures forall j :: 0 <= j < k ==> IsActive(cancel, j)
    ensures k < StepCount(TotalSeconds(durationMinutes)) ==> !IsActive(cancel, k)
  {
    var n := StepCount(TotalSeconds(durationMinutes));
    match cancel
    case None => n
    case Some(BeforeCheck(s)) => if s < n then s else n
    case Some(InDelay(s)) => if s < n then s + 1 else n
  }

  /** Whether the cancellation falls within a step of `0..totalSeconds`, so that its delay throws. */
  predicate DelayThrows(durationMinutes: Int64, cancel: Option<Cancellation>)
  {
    cancel.Some? && cancel.value.InDelay? && cancel.value.step < StepCount(TotalSeconds(durationMinutes))
  }

  /**
   * The run of `startTimer`, stated step-wise. It throws in two ways: the
   * division by zero computing the progress of step 0 when the total is
   * zero, before anything is posted; and the CancellationException of the
   * delay of the step the work is cancelled in, after that step's posts.
   * Otherwise it emits the steps that pass the `isActive` check and then,
   * whether the loop ended or broke off, the completion notification.
   */
  function TimerRun(durationMinutes: Int64, title: string, cancel: Option<Cancellation>): (run: Run)
    ensures run.completed <==>
      !(TotalSeconds(durationMinutes) == 0 && IsActive(cancel, 0)) && !DelayThrows(durationMinutes, cancel)
    ensures run.completed ==>
      |run.trace| > 0 && run.trace[|run.trace| - 1] == Notify(CompletionNotificationId, Finished(title, durationMinutes))
    ensures !run.completed && TotalSeconds(durationMinutes) == 0 ==> run.trace == []
    ensures !run.completed && TotalSeconds(durationMinutes) != 0 ==>
      DelayThrows(durationMinutes, cancel) && run.trace == StepsTrace(TotalSeconds(durationMinutes), title, cancel.value.step + 1)
  {
    var total := TotalSeconds(durationMinutes);
    var k := StepsTaken(durationMinutes, cancel);
    if total == 0 && k > 0 then Run([], false)
    else if DelayThrows(durationMinutes, cancel) then
      Run(StepsTrace(total, title, cancel.value.step + 1), false)
    else
      var steps := StepsTrace(total, title, k);
      var completion := Notify(CompletionNotificationId, Finished(title, durationMinutes));
      assert (steps + [completion])[|steps|] == completion;
      Run(steps + [completion], true)
  }

  /** A zero total throws at step 0 when that step passes its check. */
  lemma RunDividesByZero(durationMinutes: Int64, title: string, cancel: Option<Cancellation>)
    requires TotalSeconds(durationMinutes) == 0 && IsActive(cancel, 0)
    ensures TimerRun(durationMinutes, title, cancel) == Run([], false)
  {
    assert StepsTaken(durationMinutes, cancel) > 0;
  }

  /** Cancelled within step `k`: the run throws after emitting steps `0 .. k`. */
  lemma RunThrowsInDelay(durationMinutes: Int64, title: string, cancel: Option<Cancellation>, k: nat)
    requires k < StepCount(TotalSeconds(durationMinutes)) && TotalSeconds(durationMinutes) != 0
    requires cancel == Some(InDelay(k))
    ensures TimerRun(durationMinutes, title, cancel) == Run(StepsTrace(TotalSeconds(durationMinutes), title, k + 1), false)
  {
  }

  /**
   * When the loop leaves after `k` steps, all before the cancellation, the
   * run completes after emitting them.
   */
  lemma RunLeavesLoop(durationMinutes: Int64, title: string, cancel: Option<Cancellation>, k: nat)
    requires k <= StepCount(TotalSeconds(durationMinutes)) && (k == 0 || TotalSeconds(durationMinutes) != 0)
    requires k < StepCount(TotalSeconds(durationMinutes)) ==> !IsActive(cancel, k)
    requires cancel.Some? ==> k <= cancel.value.step
    ensures TimerRun(durationMinutes, title, cancel)
      == Run(StepsTrace(TotalSeconds(durationMinutes), title, k)
        + [Notify(CompletionNotificationId, Finished(title, durationMinutes))], true)
  {
    assert StepsTaken(durationMinutes, cancel) == k;
  }

  /**
   * `startTimer`: the countdown loop over `secondsElapsed` in `0..totalSeconds`.
   * `completed` is false when it threw (division by zero, or cancellation
   * seen by `delay`).
   */
  method StartTimer(durationMinutes: Int64, title: string, cancel: Option<Cancellation>)
    returns (trace: seq<Event>, completed: bool)
    ensures Run(trace, completed) == TimerRun(durationMinutes, title, cancel)
  {
    var totalSeconds := TotalSeconds(durationMinutes);
    trace := [];
    var secondsElapsed := 0;
    while secondsElapsed <= totalSeconds
      invariant 0 <= secondsElapsed <= StepCount(totalSeconds)
      invariant secondsElapsed == 0 || totalSeconds != 0
      invariant cancel.Some? ==> secondsElapsed <= cancel.value.step
      invariant trace == StepsTrace(totalSeconds, title, secondsElapsed)
    {
      if !IsActive(cancel, secondsElapsed) {
        break;
      }
      var timeLeft := totalSeconds - secondsElapsed;
      var progress := DivInt(WrapInt(secondsElapsed * 100), totalSeconds);
      if progress.None? {
        // ArithmeticException: it leaves the loop and startTimer
        RunDividesByZero(durationMinutes, title, cancel);
        completed := false;
        return;
      }
      var update := Notify(NotificationId, Ongoing(title, secondsElapsed, timeLeft, progress.value));
      var log := [];
      if Rem(secondsElapsed, LogInterval) == 0 {
        log := [LogRemaining(Quot(timeLeft, 60), Rem(timeLeft, 60))];
      }
      assert [update] + log == StepEvents(totalSeconds, title, secondsElapsed);
      StepsTraceSnoc(totalSeconds, title, secondsElapsed);
      trace := trace + ([update] + log);
      if !DelayReturns(cancel, secondsElapsed) {
        // delay(1000) throws CancellationException
        RunThrowsInDelay(durationMinutes, title, cancel, secondsElapsed);
        completed := false;
        return;
      }
      secondsElapsed := secondsElapsed + 1;
    }
    RunLeavesLoop(durationMinutes, title, cancel, secondsElapsed);
    trace := trace + [Notify(CompletionNotificationId, Finished(title, durationMinutes))];
    completed := true;
  }

  /**
   * `doWork`: read the duration and title from the payload, run the timer,
   * and map a normal return to success and an exception to failure.
   */
  method DoWork(inputData: Data, cancel: Option<Cancellation>) returns (result: WorkResult, trace: seq<Event>)
    ensures var run := TimerRun(ReadDuration(inputData), ReadTitle(inputData), cancel);
      trace == run.trace && (result == Success <==> run.completed)
  {
    var durationMinutes := ReadDuration(inputData);
    var timerTitle := ReadTitle(inputData);
    var completed;
    trace, completed := StartTimer(durationMinutes, timerTitle, cancel);
    result := if completed then Success else Failure;
  }
}
