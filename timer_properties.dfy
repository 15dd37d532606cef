/**
 * What a run of TimerWorker's countdown promises, proved of `TimerRun`
 * (which `StartTimer` and `DoWork` are verified against): how many progress
 * updates it posts and in which order, what they show, where the progress
 * bar stands, when it logs, when it fails, what cancellation does and what
 * stays on the notification surface at the end.
 */
module TimerProperties {
  import opened Options
  import opened JvmInt
  import opened TimeFormat
  import opened TimerWorker
  import opened Traces

  /** What step `j` of a countdown over `total` seconds emits; there is no step past the total. */
  function StepsOf(total: Int32, title: string): nat -> seq<Event>
  {
    (j: nat) => if j <= total && total != 0 then StepEvents(total, title, j) else []
  }

  /** The progress update step `j` posts (the value past the total is never posted). */
  function UpdateOf(total: Int32, title: string): nat -> Notification
  {
    (j: nat) => if j <= total && total != 0 then OngoingAt(total, title, j) else Finished(title, 0)
  }

  /** The log record step `j` emits: one at every multiple of 30, none elsewhere. */
  function LogOf(total: Int32): nat -> seq<Event>
  {
    (j: nat) => if j <= total && Rem(j, LogInterval) == 0 then [LogAt(total, j)] else []
  }

  /** A progress update, optionally followed by a log record, as one step emits them. */
  lemma UpdateThenLogFilters(n: Notification, minutesLeft: int, secondsLeft: int, logs: bool)
    ensures var events := [Notify(NotificationId, n)]
        + (if logs then [LogRemaining(minutesLeft, secondsLeft)] else []);
      Posted(events, NotificationId) == [n] &&
      Posted(events, CompletionNotificationId) == [] &&
      Logs(events) == if logs then [LogRemaining(minutesLeft, secondsLeft)] else []
  {
    var update := Notify(NotificationId, n);
    assert [update][..0] == [];
    assert Posted([update], NotificationId) == [n];
    assert Posted([update], CompletionNotificationId) == [];
    assert Logs([update]) == [];
    if logs {
      var events := [update] + [LogRemaining(minutesLeft, secondsLeft)];
      assert events[..1] == [update];
    } else {
      assert [update] + [] == [update];
    }
  }

  /** One step posts its progress update, never a completion, and its log record every 30 steps. */
  lemma StepEventsFilters(total: Int32, title: string, j: nat)
    requires j <= total && total != 0
    ensures Posted(StepsOf(total, title)(j), NotificationId) == [UpdateOf(total, title)(j)]
    ensures Posted(StepsOf(total, title)(j), CompletionNotificationId) == []
    ensures Logs(StepsOf(total, title)(j)) == LogOf(total)(j)
  {
    var log := LogAt(total, j);
    UpdateThenLogFilters(OngoingAt(total, title, j), log.minutesLeft, log.secondsLeft, Rem(j, LogInterval) == 0);
  }

  /** Within the countdown, `StepsOf` is what `StepEvents` emits. */
  lemma StepsOfAt(total: Int32, title: string, j: nat)
    requires j <= total && total != 0
    ensures StepsOf(total, title)(j) == StepEvents(total, title, j)
  {
  }

  /** Within the countdown, `UpdateOf` is the progress update `OngoingAt` describes. */
  lemma UpdateOfAt(total: Int32, title: string, j: nat)
    requires j <= total && total != 0
    ensures UpdateOf(total, title)(j) == OngoingAt(total, title, j)
  {
  }

  /** The countdown's steps concatenate what each step emits. */
  lemma {:induction false} StepsTraceConcat(total: Int32, title: string, k: nat)
    requires k <= StepCount(total) && (k == 0 || total != 0)
    ensures StepsTrace(total, title, k) == Concat(StepsOf(total, title), k)
  {
    if k > 0 {
      var steps := StepsOf(total, title);
      calc {
        StepsTrace(total, title, k);
        { StepsTraceSnoc(total, title, k - 1); }
        StepsTrace(total, title, k - 1) + StepEvents(total, title, k - 1);
        { StepsTraceConcat(total, title, k - 1); StepsOfAt(total, title, k - 1); }
        Concat(steps, k - 1) + steps(k - 1);
      }
    }
  }

  /**
   * The first `k` steps post exactly one progress update each, in step
   * order, and no completion notification.
   */
  lemma StepsPostUpdates(total: Int32, title: string, k: nat)
    requires k <= StepCount(total) && (k == 0 || total != 0)
    ensures Posted(StepsTrace(total, title, k), NotificationId) == Notes(UpdateOf(total, title), k)
    ensures Posted(StepsTrace(total, title, k), CompletionNotificationId) == []
  {
    StepsTraceConcat(total, title, k);
    forall j | 0 <= j < k
      ensures Posted(StepsOf(total, title)(j), NotificationId) == [UpdateOf(total, title)(j)]
      ensures Posted(StepsOf(total, title)(j), CompletionNotificationId) == []
    {
      StepEventsFilters(total, title, j);
    }
    ConcatPostsOnePerStep(StepsOf(total, title), UpdateOf(total, title), k, NotificationId);
    ConcatPostsNone(StepsOf(total, title), k, CompletionNotificationId);
  }

  /** The first `k` steps log exactly what each step logs. */
  lemma StepsLogs(total: Int32, title: string, k: nat)
    requires k <= StepCount(total) && (k == 0 || total != 0)
    ensures Logs(StepsTrace(total, title, k)) == Concat(LogOf(total), k)
  {
    StepsTraceConcat(total, title, k);
    forall j | 0 <= j < k
      ensures Logs(StepsOf(total, title)(j)) == LogOf(total)(j)
    {
      StepEventsFilters(total, title, j);
    }
    ConcatLogs(StepsOf(total, title), LogOf(total), k);
  }

  /** `k` steps reach the multiples of 30 below `k`, of which there are `(k + 29) / 30`. */
  lemma LogCountStep(k: nat)
    requires k > 0
    ensures (k - 1) % 30 == 0 ==> (k + 29) / 30 == (k + 28) / 30 + 1 && 30 * ((k + 28) / 30) == k - 1
    ensures (k - 1) % 30 != 0 ==> (k + 29) / 30 == (k + 28) / 30
  {
  }

  /**
   * Log cadence: `k` steps log once per 30 steps, at steps 0, 30, 60, ...
   * and nowhere else; the `i`-th record reports the time left at step `30 * i`.
   */
  lemma {:induction false} LogsEvery30(total: Int32, k: nat)
    requires k <= StepCount(total)
    ensures var logs := Concat(LogOf(total), k);
      |logs| == (k + 29) / 30 &&
      forall i {:trigger logs[i]} :: 0 <= i < |logs| ==> 30 * i <= total && logs[i] == LogAt(total, 30 * i)
  {
    if k > 0 {
      LogsEvery30(total, k - 1);
      LogCountStep(k);
      var earlier := Concat(LogOf(total), k - 1);
      var logs := Concat(LogOf(total), k);
      if Rem(k - 1, LogInterval) == 0 {
        assert logs == earlier + [LogAt(total, k - 1)];
        forall i | 0 <= i < |logs|
          ensures 30 * i <= total && logs[i] == LogAt(total, 30 * i)
        {
          if i < |earlier| {
            assert logs[i] == earlier[i];
          }
        }
      } else {
        assert logs == earlier + [];
      }
    }
  }

  /**
   * A run that completes posts one progress update for each step it takes,
   * in step order, then exactly one completion notification, last; it logs
   * what the steps it takes log.
   */
  lemma CompletedRunPosts(durationMinutes: Int64, title: string, cancel: Option<Cancellation>)
    requires TimerRun(durationMinutes, title, cancel).completed
    ensures var run := TimerRun(durationMinutes, title, cancel);
      var total := TotalSeconds(durationMinutes);
      var k := StepsTaken(durationMinutes, cancel);
      (k == 0 || total > 0) &&
      Posted(run.trace, NotificationId) == Notes(UpdateOf(total, title), k) &&
      Posted(run.trace, CompletionNotificationId) == [Finished(title, durationMinutes)] &&
      Logs(run.trace) == Concat(LogOf(total), k)
  {
    var total := TotalSeconds(durationMinutes);
    var k := StepsTaken(durationMinutes, cancel);
    var steps := StepsTrace(total, title, k);
    var completion := Notify(CompletionNotificationId, Finished(title, durationMinutes));
    assert TimerRun(durationMinutes, title, cancel).trace == steps + [completion];
    StepsPostUpdates(total, title, k);
    StepsLogs(total, title, k);
    PostedAppend(steps, [completion], NotificationId);
    PostedAppend(steps, [completion], CompletionNotificationId);
    LogsAppend(steps, [completion]);
    assert [completion][..0] == [];
    assert Posted([completion], NotificationId) == [];
    assert Posted([completion], CompletionNotificationId) == [Finished(title, durationMinutes)];
    assert Logs([completion]) == [];
  }

  /**
   * Step count: a run of at least one second that is never cancelled posts
   * exactly `totalSeconds + 1` progress updates, for `secondsElapsed` = 0, 1,
   * ..., `totalSeconds` in that order, and then the completion notification.
   */
  lemma UncancelledRunSteps(durationMinutes: Int64, title: string)
    requires TotalSeconds(durationMinutes) >= 1
    ensures var run := TimerRun(durationMinutes, title, None);
      var total := TotalSeconds(durationMinutes);
      var updates := Posted(run.trace, NotificationId);
      run.completed &&
      |updates| == total as int + 1 &&
      (forall j {:trigger updates[j]} :: 0 <= j <= total ==>
        updates[j] == OngoingAt(total, title, j) && updates[j].elapsedSeconds == j) &&
      run.trace[|run.trace| - 1] == Notify(CompletionNotificationId, Finished(title, durationMinutes))
  {
    var total := TotalSeconds(durationMinutes);
    CompletedRunPosts(durationMinutes, title, None);
    NotesAt(UpdateOf(total, title), StepCount(total));
  }

  /**
   * A run of at least one second that is never cancelled logs the time left
   * at steps 0, 30, 60, ... up to the total, `(totalSeconds + 30) / 30`
   * records in all.
   */
  lemma UncancelledRunLogs(durationMinutes: Int64, title: string)
    requires TotalSeconds(durationMinutes) >= 1
    ensures var total := TotalSeconds(durationMinutes);
      var logs := Logs(TimerRun(durationMinutes, title, None).trace);
      |logs| == (total as int + 30) / 30 &&
      forall i {:trigger logs[i]} :: 0 <= i < |logs| ==> 30 * i <= total && logs[i] == LogAt(total, 30 * i)
  {
    var total := TotalSeconds(durationMinutes);
    CompletedRunPosts(durationMinutes, title, None);
    LogsEvery30(total, StepCount(total));
  }

  /** A negative total makes `0..totalSeconds` empty: the run posts only the completion notification. */
  lemma NegativeDurationRun(durationMinutes: Int64, title: string, cancel: Option<Cancellation>)
    requires TotalSeconds(durationMinutes) < 0
    ensures TimerRun(durationMinutes, title, cancel)
      == Run([Notify(CompletionNotificationId, Finished(title, durationMinutes))], true)
  {
  }

  /**
   * Zero-duration failure: a zero total divides by zero at the first step,
   * before anything is posted, so the run throws with an empty trace and no
   * completion notification. A zero total comes from zero minutes, and also
   * from 2^30 and -2^30 minutes, whose 64-bit products with 60 have no low
   * 32 bits.
   */
  lemma ZeroTotalFails(durationMinutes: Int64, title: string, cancel: Option<Cancellation>)
    requires durationMinutes == 0 || durationMinutes == 0x4000_0000 || durationMinutes == -0x4000_0000
    requires IsActive(cancel, 0)
    ensures TotalSeconds(durationMinutes) == 0
    ensures TimerRun(durationMinutes, title, cancel) == Run([], false)
  {
    if durationMinutes == 0x4000_0000 {
      assert WrapLong(durationMinutes * 60) == 0 + 15 * 0x1_0000_0000;
      WrapIntPeriodic(0, 15);
    } else if durationMinutes == -0x4000_0000 {
      assert WrapLong(durationMinutes * 60) == -15 * 0x1_0000_0000;
      WrapIntPeriodic(-15 * 0x1_0000_0000, 15);
    }
  }

  /**
   * Cancellation seen by the check of step `k`: the loop breaks, so exactly
   * the updates of steps `0 .. k - 1` are posted; as written, the completion
   * notification is still posted after the break.
   */
  lemma CheckCancellationBreaks(durationMinutes: Int64, title: string, k: nat)
    requires k < StepCount(TotalSeconds(durationMinutes))
    ensures var total := TotalSeconds(durationMinutes);
      var run := TimerRun(durationMinutes, title, Some(BeforeCheck(k)));
      var updates := Posted(run.trace, NotificationId);
      run.completed &&
      |updates| == k &&
      (forall j {:trigger updates[j]} :: 0 <= j < k ==> updates[j] == OngoingAt(total, title, j)) &&
      Posted(run.trace, CompletionNotificationId) == [Finished(title, durationMinutes)]
  {
    var total := TotalSeconds(durationMinutes);
    var cancel := Some(BeforeCheck(k));
    assert StepsTaken(durationMinutes, cancel) == k;
    CompletedRunPosts(durationMinutes, title, cancel);
    NotesAt(UpdateOf(total, title), k);
  }

  /**
   * Cancellation within step `k`: its delay throws, so the run fails with
   * the updates of steps `0 .. k` posted, no later one and no completion
   * notification; the ongoing notification is left showing step `k`.
   */
  lemma DelayCancellationFails(durationMinutes: Int64, title: string, k: nat)
    requires k < StepCount(TotalSeconds(durationMinutes)) && TotalSeconds(durationMinutes) != 0
    ensures var total := TotalSeconds(durationMinutes);
      var run := TimerRun(durationMinutes, title, Some(InDelay(k)));
      var updates := Posted(run.trace, NotificationId);
      !run.completed &&
      |updates| == k + 1 &&
      (forall j {:trigger updates[j]} :: 0 <= j <= k ==> updates[j] == OngoingAt(total, title, j)) &&
      Posted(run.trace, CompletionNotificationId) == [] &&
      Surface(run.trace) == map[NotificationId := OngoingAt(total, title, k)]
  {
    var total := TotalSeconds(durationMinutes);
    RunThrowsInDelay(durationMinutes, title, Some(InDelay(k)), k);
    StepsPostUpdates(total, title, k + 1);
    NotesAt(UpdateOf(total, title), k + 1);
    StepsSurface(total, title, k + 1);
  }

  /** Cancellation is final: once inactive, or once a delay throws, every later step is so too. */
  lemma CancellationIsFinal(cancel: Option<Cancellation>, i: nat, j: nat)
    requires i <= j
    ensures !IsActive(cancel, i) ==> !IsActive(cancel, j)
    ensures !DelayReturns(cancel, i) ==> !DelayReturns(cancel, j)
  {
  }

  /** The two texts of an ongoing notification with non-negative counts read back as those counts. */
  lemma OngoingTextsReadBack(n: Notification)
    requires n.Ongoing? && n.elapsedSeconds >= 0 && n.leftSeconds >= 0
    ensures ParseTime(n.ElapsedText()) == Some(n.elapsedSeconds as int)
    ensures ParseTime(n.LeftText()) == Some(n.leftSeconds as int)
  {
  }

  /** The time left shown strictly decreases from step to step. */
  lemma TimeLeftDecreases(total: Int32, title: string, i: int, j: int)
    requires 0 <= i < j <= total
    ensures OngoingAt(total, title, j).leftSeconds < OngoingAt(total, title, i).leftSeconds
  {
  }

  lemma MulMonotone(d: nat, a: int, b: int)
    requires a <= b
    ensures d * a <= d * b
  {
    assert d * b - d * a == d * (b - a);
    MulNonNegative(d, b - a);
  }

  lemma DivMonotone(x: nat, y: nat, d: int)
    requires x <= y && d > 0
    ensures x / d <= y / d
  {
    var qx, qy := x / d, y / d;
    assert d * qx <= x && y < d * qy + d;
    if qx > qy {
      MulMonotone(d, qy + 1, qx);
      assert false;
    }
  }

  lemma DivExact(d: int, m: nat)
    requires d > 0
    ensures (d * m) / d == m
  {
    var q := (d * m) / d;
    assert d * q <= d * m < d * q + d;
    if q < m {
      MulMonotone(d, q + 1, m);
      assert false;
    } else if q > m {
      MulMonotone(d, m + 1, q);
      assert false;
    }
  }

  /**
   * Progress bounds: while `totalSeconds * 100` fits in an `Int`, the
   * progress of step `j` is the exact `j * 100 / total`, lies in [0, 100],
   * is 0 at the first step and 100 at the last.
   */
  lemma ProgressInRange(total: Int32, j: int)
    requires 0 < total <= IntMax / 100
    requires 0 <= j <= total
    ensures Progress(j, total) == j * 100 / total
    ensures 0 <= Progress(j, total) <= 100
    ensures j == 0 ==> Progress(j, total) == 0
    ensures j == total ==> Progress(j, total) == 100
  {
    MulMonotone(100, j, total);
    DivMonotone(j * 100, total * 100, total);
    DivExact(total, 100);
  }

  /** Progress never decreases from one step to a later one. */
  lemma ProgressMonotone(total: Int32, i: int, j: int)
    requires 0 < total <= IntMax / 100
    requires 0 <= i <= j <= total
    ensures Progress(i, total) <= Progress(j, total)
  {
    ProgressInRange(total, i);
    ProgressInRange(total, j);
    MulMonotone(100, i, j);
    DivMonotone(i * 100, j * 100, total);
  }

  /**
   * The progress bar of a never-cancelled run whose `totalSeconds * 100`
   * fits in an `Int`: every posted update shows a value in [0, 100], the
   * first one 0, the last one 100, and the values never go down.
   */
  lemma UncancelledRunProgress(durationMinutes: Int64, title: string)
    requires 0 < TotalSeconds(durationMinutes) <= IntMax / 100
    ensures var updates := Posted(TimerRun(durationMinutes, title, None).trace, NotificationId);
      |updates| == TotalSeconds(durationMinutes) as int + 1 &&
      (forall j {:trigger updates[j]} :: 0 <= j < |updates| ==>
        updates[j].Ongoing? && 0 <= updates[j].progress <= 100) &&
      updates[0].progress == 0 && updates[|updates| - 1].progress == 100 &&
      (forall i, j {:trigger updates[i], updates[j]} :: 0 <= i <= j < |updates| ==>
        updates[i].progress <= updates[j].progress)
  {
    var total := TotalSeconds(durationMinutes);
    var updates := Posted(TimerRun(durationMinutes, title, None).trace, NotificationId);
    UncancelledRunSteps(durationMinutes, title);
    forall j | 0 <= j < |updates|
      ensures updates[j].Ongoing? && 0 <= updates[j].progress <= 100
    {
      ProgressInRange(total, j);
    }
    ProgressInRange(total, 0);
    ProgressInRange(total, total);
    forall i, j | 0 <= i <= j < |updates|
      ensures updates[i].progress <= updates[j].progress
    {
      ProgressMonotone(total, i, j);
    }
  }

  /**
   * Past that bound the `Int` product wraps: a never-cancelled run of 357914
   * minutes posts, at step 21474837, a progress of -99.
   */
  lemma ProgressOverflows(title: string)
    ensures var updates := Posted(TimerRun(357914, title, None).trace, NotificationId);
      |updates| == 21474841 && updates[21474837].Ongoing? && updates[21474837].progress == -99
  {
    assert TotalSeconds(357914) == 21474840;
    UncancelledRunSteps(357914, title);
  }

  /** A step leaves its progress update on the surface, under the progress id. */
  lemma SurfaceAfterUpdate(before: seq<Event>, n: Notification, minutesLeft: int, secondsLeft: int, logs: bool)
    ensures Surface(before + ([Notify(NotificationId, n)]
        + (if logs then [LogRemaining(minutesLeft, secondsLeft)] else [])))
      == Surface(before)[NotificationId := n]
  {
    var updated := before + [Notify(NotificationId, n)];
    assert updated[..|before|] == before;
    if logs {
      var log := LogRemaining(minutesLeft, secondsLeft);
      assert before + ([Notify(NotificationId, n)] + [log]) == updated + [log];
      assert (updated + [log])[..|updated|] == updated;
    } else {
      assert before + ([Notify(NotificationId, n)] + []) == updated;
    }
  }

  /** Whatever came before, step `j` leaves its progress update on the surface. */
  lemma StepSurface(total: Int32, title: string, j: nat, before: seq<Event>)
    requires j <= total && total != 0
    ensures Surface(before + StepsOf(total, title)(j)) == Surface(before)[NotificationId := UpdateOf(total, title)(j)]
  {
    var log := LogAt(total, j);
    SurfaceAfterUpdate(before, OngoingAt(total, title, j), log.minutesLeft, log.secondsLeft, Rem(j, LogInterval) == 0);
  }

  /** After `k > 0` steps the surface holds only the last progress update. */
  lemma StepsSurface(total: Int32, title: string, k: nat)
    requires 0 < k <= StepCount(total) && total != 0
    ensures Surface(StepsTrace(total, title, k)) == map[NotificationId := OngoingAt(total, title, k - 1)]
  {
    var steps := StepsOf(total, title);
    var updates := UpdateOf(total, title);
    StepsTraceConcat(total, title, k);
    forall j, before: seq<Event> | 0 <= j < k
      ensures Surface(before + steps(j)) == Surface(before)[NotificationId := updates(j)]
    {
      StepSurface(total, title, j, before);
    }
    ConcatSurface(steps, updates, k, NotificationId);
    UpdateOfAt(total, title, k - 1);
  }

  /**
   * Fixed notification ids: the completion notification goes under its own
   * id, so after a completed run that took at least one step the surface
   * holds both the last progress update and the completion notification.
   */
  lemma CompletionKeepsProgress(durationMinutes: Int64, title: string, cancel: Option<Cancellation>)
    requires TimerRun(durationMinutes, title, cancel).completed
    requires StepsTaken(durationMinutes, cancel) > 0
    ensures var total := TotalSeconds(durationMinutes);
      var k := StepsTaken(durationMinutes, cancel);
      0 < k <= total as int + 1 &&
      Surface(TimerRun(durationMinutes, title, cancel).trace) ==
        map[NotificationId := OngoingAt(total, title, k - 1),
            CompletionNotificationId := Finished(title, durationMinutes)]
  {
    var total := TotalSeconds(durationMinutes);
    var k := StepsTaken(durationMinutes, cancel);
    var steps := StepsTrace(total, title, k);
    var completion := Notify(CompletionNotificationId, Finished(title, durationMinutes));
    StepsSurface(total, title, k);
    assert TimerRun(durationMinutes, title, cancel).trace == steps + [completion];
    assert (steps + [completion])[..|steps|] == steps;
  }
}
