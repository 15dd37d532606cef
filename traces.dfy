/**
 * What can be observed of an event trace: the notifications posted under an
 * id, the countdown log records, and the notification surface the posts
 * leave behind. A trace built step by step is the concatenation of what each
 * step emits; the lemmas here say what the observations of such a
 * concatenation are, given what each step contributes.
 */
module Traces {
  import opened TimerWorker

  /** The notifications posted under `id`, in posting order. */
  function Posted(trace: seq<Event>, id: int): seq<Notification>
  {
    if trace == [] then []
    else
      var last := trace[|trace| - 1];
      Posted(trace[..|trace| - 1], id) + (if last.Notify? && last.id == id then [last.notification] else [])
  }

  /** The countdown log records, in order. */
  function Logs(trace: seq<Event>): seq<Event>
  {
    if trace == [] then []
    else
      var last := trace[|trace| - 1];
      Logs(trace[..|trace| - 1]) + (if last.LogRemaining? then [last] else [])
  }

  /**
   * The notification surface after the trace: posting under an id replaces
   * whatever was shown under it, so the surface keeps, per id, the last
   * notification posted.
   */
  function Surface(trace: seq<Event>): map<int, Notification>
  {
    if trace == [] then map[]
    else
      var last := trace[|trace| - 1];
      var before := Surface(trace[..|trace| - 1]);
      if last.Notify? then before[last.id := last.notification] else before
  }

  /** What steps `0 .. k - 1` emit, in order, when step `j` emits `step(j)`. */
  function Concat(step: nat -> seq<Event>, k: nat): seq<Event>
  {
    if k == 0 then [] else Concat(step, k - 1) + step(k - 1)
  }

  /** The notifications `note(0), ..., note(k - 1)`. */
  function Notes(note: nat -> Notification, k: nat): seq<Notification>
  {
    if k == 0 then [] else Notes(note, k - 1) + [note(k - 1)]
  }

  lemma {:induction false} PostedAppend(a: seq<Event>, b: seq<Event>, id: int)
    ensures Posted(a + b, id) == Posted(a, id) + Posted(b, id)
    decreases |b|
  {
    if b != [] {
      assert (a + b)[..|a + b| - 1] == a + b[..|b| - 1];
      PostedAppend(a, b[..|b| - 1], id);
    } else {
      assert a + b == a;
    }
  }

  lemma {:induction false} LogsAppend(a: seq<Event>, b: seq<Event>)
    ensures Logs(a + b) == Logs(a) + Logs(b)
    decreases |b|
  {
    if b != [] {
      assert (a + b)[..|a + b| - 1] == a + b[..|b| - 1];
      LogsAppend(a, b[..|b| - 1]);
    } else {
      assert a + b == a;
    }
  }

  /** `Notes(note, k)` lists `k` notifications, `note(j)` at position `j`. */
  lemma {:induction false} NotesAt(note: nat -> Notification, k: nat)
    ensures var notes := Notes(note, k);
      |notes| == k && forall j {:trigger notes[j]} :: 0 <= j < k ==> notes[j] == note(j)
  {
    if k > 0 {
      NotesAt(note, k - 1);
      var earlier := Notes(note, k - 1);
      var notes := Notes(note, k);
      forall j | 0 <= j < k
        ensures notes[j] == note(j)
      {
        if j < k - 1 {
          assert notes[j] == earlier[j];
        }
      }
    }
  }

  /** When every step posts exactly `note(j)` under `id`, the concatenation posts `note(0), ..., note(k - 1)`. */
  lemma {:induction false} ConcatPostsOnePerStep(step: nat -> seq<Event>, note: nat -> Notification, k: nat, id: int)
    requires forall j :: 0 <= j < k ==> Posted(step(j), id) == [note(j)]
    ensures Posted(Concat(step, k), id) == Notes(note, k)
  {
    if k > 0 {
      ConcatPostsOnePerStep(step, note, k - 1, id);
      PostedAppend(Concat(step, k - 1), step(k - 1), id);
    }
  }

  /** When no step posts under `id`, neither does the concatenation. */
  lemma {:induction false} ConcatPostsNone(step: nat -> seq<Event>, k: nat, id: int)
    requires forall j :: 0 <= j < k ==> Posted(step(j), id) == []
    ensures Posted(Concat(step, k), id) == []
  {
    if k > 0 {
      ConcatPostsNone(step, k - 1, id);
      PostedAppend(Concat(step, k - 1), step(k - 1), id);
    }
  }

  /** The log records of a concatenation are the concatenation of each step's log records. */
  lemma {:induction false} ConcatLogs(step: nat -> seq<Event>, logs: nat -> seq<Event>, k: nat)
    requires forall j :: 0 <= j < k ==> Logs(step(j)) == logs(j)
    ensures Logs(Concat(step, k)) == Concat(logs, k)
  {
    if k > 0 {
      ConcatLogs(step, logs, k - 1);
      LogsAppend(Concat(step, k - 1), step(k - 1));
    }
  }

  /**
   * When every step leaves `note(j)` under `id` and nothing else changed,
   * after `k > 0` steps the surface holds only `note(k - 1)`.
   */
  lemma {:induction false} ConcatSurface(step: nat -> seq<Event>, note: nat -> Notification, k: nat, id: int)
    requires k > 0
    requires forall j, before :: 0 <= j < k ==> Surface(before + step(j)) == Surface(before)[id := note(j)]
    ensures Surface(Concat(step, k)) == map[id := note(k - 1)]
  {
    if k > 1 {
      ConcatSurface(step, note, k - 1, id);
    }
    assert Surface(Concat(step, k - 1) + step(k - 1)) == Surface(Concat(step, k - 1))[id := note(k - 1)];
  }
}
