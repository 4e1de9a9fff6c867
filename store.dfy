/** The client-side record store: the habits and logs loaded for the signed-in user and a
    loading flag, changed only through its setters. */
module Store {
  import opened Types

  /** A partial log record: each present field overwrites the log's own. `notes` is itself
      optional, so a patch may set it to a note or to no note. */
  datatype LogPatch = LogPatch(
    id: Option<string>,
    habitId: Option<string>,
    completedAt: Option<Day>,
    status: Option<Status>,
    notes: Option<Option<string>>)

  const EmptyPatch := LogPatch(None, None, None, None, None)

  /** `{ ...log, ...updates }`: the patch's fields win, the log's other fields are kept. */
  function ApplyPatch(l: HabitLog, p: LogPatch): (r: HabitLog)
    ensures r.id == (if p.id.Some? then p.id.value else l.id)
    ensures r.habitId == (if p.habitId.Some? then p.habitId.value else l.habitId)
    ensures r.completedAt == (if p.completedAt.Some? then p.completedAt.value else l.completedAt)
    ensures r.status == (if p.status.Some? then p.status.value else l.status)
    ensures r.notes == (if p.notes.Some? then p.notes.value else l.notes)
  {
    HabitLog(
      if p.id.Some? then p.id.value else l.id,
      if p.habitId.Some? then p.habitId.value else l.habitId,
      if p.completedAt.Some? then p.completedAt.value else l.completedAt,
      if p.status.Some? then p.status.value else l.status,
      if p.notes.Some? then p.notes.value else l.notes)
  }

  /** Merging the same patch twice is merging it once. */
  lemma ApplyPatchIdempotent(l: HabitLog, p: LogPatch)
    ensures ApplyPatch(ApplyPatch(l, p), p) == ApplyPatch(l, p)
  {
  }

  /** The empty patch changes nothing. */
  lemma EmptyPatchIsIdentity(l: HabitLog)
    ensures ApplyPatch(l, EmptyPatch) == l
  {
  }

  /** The `logs.map` of `updateLog`: every log with id `logId` is merged with the patch. */
  function PatchLogs(logs: seq<HabitLog>, logId: string, p: LogPatch): (r: seq<HabitLog>)
    ensures |r| == |logs|
    ensures forall i :: 0 <= i < |logs| ==>
      r[i] == if logs[i].id == logId then ApplyPatch(logs[i], p) else logs[i]
  {
    seq(|logs|, i requires 0 <= i < |logs| => if logs[i].id == logId then ApplyPatch(logs[i], p) else logs[i])
  }

  /** An id that no log carries leaves the logs identical. */
  lemma PatchAbsentId(logs: seq<HabitLog>, logId: string, p: LogPatch)
    requires forall l :: l in logs ==> l.id != logId
    ensures PatchLogs(logs, logId, p) == logs
  {
    var r := PatchLogs(logs, logId, p);
    forall i | 0 <= i < |logs| ensures r[i] == logs[i] {
      assert logs[i] in logs;
    }
  }

  /** A patch that keeps the id reaches the same logs again, so updating twice is
      updating once. */
  lemma PatchLogsIdempotent(logs: seq<HabitLog>, logId: string, p: LogPatch)
    requires p.id.None? || p.id == Some(logId)
    ensures PatchLogs(PatchLogs(logs, logId, p), logId, p) == PatchLogs(logs, logId, p)
  {
    var once := PatchLogs(logs, logId, p);
    var twice := PatchLogs(once, logId, p);
    forall i | 0 <= i < |logs| ensures twice[i] == once[i] {
      ApplyPatchIdempotent(logs[i], p);
    }
  }

  /** The patch distributes over appending: logs added later are patched independently
      of the earlier ones. */
  lemma PatchLogsAppend(a: seq<HabitLog>, b: seq<HabitLog>, logId: string, p: LogPatch)
    ensures PatchLogs(a + b, logId, p) == PatchLogs(a, logId, p) + PatchLogs(b, logId, p)
  {
  }

  /** The store. */
  class HabitStore {
    var habits: seq<Habit>
    var logs: seq<HabitLog>
    var loading: bool

    /** The initial state: nothing loaded and not loading. */
    constructor ()
      ensures habits == [] && logs == [] && !loading
    {
      habits, logs, loading := [], [], false;
    }

    /** `setHabits`: replaces the habits only. */
    method SetHabits(hs: seq<Habit>)
      modifies this
      ensures habits == hs && logs == old(logs) && loading == old(loading)
    {
      habits := hs;
    }

    /** `setLogs`: replaces the logs only. */
    method SetLogs(ls: seq<HabitLog>)
      modifies this
      ensures logs == ls && habits == old(habits) && loading == old(loading)
    {
      logs := ls;
    }

    /** `addHabit`: appends one habit at the end. */
    method AddHabit(h: Habit)
      modifies this
      ensures habits == old(habits) + [h] && logs == old(logs) && loading == old(loading)
    {
      habits := habits + [h];
    }

    /** `addLog`: appends one log at the end. */
    method AddLog(l: HabitLog)
      modifies this
      ensures logs == old(logs) + [l] && habits == old(habits) && loading == old(loading)
    {
      logs := logs + [l];
    }

    /** `updateLog`: merges the patch into every log with id `logId`, in place, keeping
      length and order. */
    method UpdateLog(logId: string, p: LogPatch)
      modifies this
      ensures logs == PatchLogs(old(logs), logId, p)
      ensures habits == old(habits) && loading == old(loading)
    {
      logs := PatchLogs(logs, logId, p);
    }

    /** `setLoading`: replaces the flag only. */
    method SetLoading(b: bool)
      modifies this
      ensures loading == b && habits == old(habits) && logs == old(logs)
    {
      loading := b;
    }
  }
}
