/**
 * The input hand-off of TimerWorker: `createTimerWorkRequest` packs a
 * duration and a title into the work request's key/value payload, and
 * `doWork` reads them back, falling back to defaults for absent or
 * mistyped entries.
 */
module WorkData {
  import opened Options
  import opened JvmInt

  const TimerDurationKey: string := "timer_duration"
  const TimerTitleKey: string := "timer_title"
  const DefaultDurationMinutes: Int64 := 5
  const DefaultTitle: string := "Temporizador Estrés"

  /** The tag `createTimerWorkRequest` adds. */
  const TimerWorkTag: string := "timer_work"
  /** The worker's class name, which the request builder also adds as a tag by itself. */
  const WorkerClassName: string := "com.example.lab10_indp.TimerWorker"

  /** A payload entry: the payload keeps the type each value was put with. */
  datatype Value = LongValue(l: Int64) | StringValue(s: string)

  /** The payload, androidx.work `Data`: a map from keys to typed values. */
  type Data = map<string, Value>

  /** A one-time work request: the worker to run, its input payload and its tags. */
  datatype WorkRequest = OneTimeWorkRequest(workerClass: string, inputData: Data, tags: set<string>)

  /** `Data.getLong(key, default)`: the entry when it holds a `Long`, the default otherwise. */
  function GetLong(data: Data, key: string, defaultValue: Int64): (r: Int64)
    ensures key in data && data[key].LongValue? ==> r == data[key].l
    ensures !(key in data && data[key].LongValue?) ==> r == defaultValue
  {
    if key in data && data[key].LongValue? then data[key].l else defaultValue
  }

  /** `Data.getString(key)`: the entry when it holds a `String`, `null` (None) otherwise. */
  function GetString(data: Data, key: string): (r: Option<string>)
    ensures r.Some? <==> key in data && data[key].StringValue?
    ensures r.Some? ==> r.value == data[key].s
  {
    if key in data && data[key].StringValue? then Some(data[key].s) else None
  }

  /**
   * The duration `doWork` reads: the stored `Long` under the duration key,
   * five minutes when there is none or the entry holds another type.
   */
  function ReadDuration(data: Data): (minutes: Int64)
    ensures TimerDurationKey in data && data[TimerDurationKey].LongValue? ==>
      minutes == data[TimerDurationKey].l
    ensures !(TimerDurationKey in data && data[TimerDurationKey].LongValue?) ==> minutes == DefaultDurationMinutes
  {
    GetLong(data, TimerDurationKey, DefaultDurationMinutes)
  }

  /**
   * The title `doWork` reads: the stored `String` under the title key, the
   * default title when there is none or the entry holds another type
   * (`getString` then gives null, and the `?:` fallback applies).
   */
  function ReadTitle(data: Data): (title: string)
    ensures TimerTitleKey in data && data[TimerTitleKey].StringValue? ==>
      title == data[TimerTitleKey].s
    ensures !(TimerTitleKey in data && data[TimerTitleKey].StringValue?) ==> title == DefaultTitle
  {
    match GetString(data, TimerTitleKey)
    case Some(t) => t
    case None => DefaultTitle
  }

  /**
   * `createTimerWorkRequest`: a one-time request for TimerWorker whose
   * payload holds exactly the two timer entries, so that `doWork` reads back
   * the very duration and title it was given, and which carries the
   * "timer_work" tag.
   */
  function CreateTimerWorkRequest(durationMinutes: Int64, title: string): (w: WorkRequest)
    ensures w.inputData.Keys == {TimerDurationKey, TimerTitleKey}
    ensures ReadDuration(w.inputData) == durationMinutes
    ensures ReadTitle(w.inputData) == title
    ensures w.workerClass == WorkerClassName
    ensures TimerWorkTag in w.tags
  {
    var inputData := map[TimerDurationKey := LongValue(durationMinutes)][TimerTitleKey := StringValue(title)];
    OneTimeWorkRequest(WorkerClassName, inputData, {WorkerClassName, TimerWorkTag})
  }
}
