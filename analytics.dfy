/** The aggregations of the analytics view: per-habit completion rates, the year-to-date
    consistency heatmap with its five colour tiers, and the reflection prompts. */
module Analytics {
  import opened Types
  import opened Seqs
  import opened Utils

  // ---------------------------------------------------------------------------
  // Completion rates

  /** One entry of the rates record: completed and total log counts and the percentage. */
  datatype Rate = Rate(completed: nat, total: nat, rate: real)

  /** All logs of a habit, of any status. */
  function LogsOf(logs: seq<HabitLog>, habitId: string): (r: seq<HabitLog>)
    ensures forall l :: l in r <==> l in logs && l.habitId == habitId
  {
    Filter(logs, (l: HabitLog) => l.habitId == habitId)
  }

  /** The rate of one habit: `completed` counts its completed logs, `total` all its logs,
      and the percentage is 0 for a habit without logs. */
  function RateOf(logs: seq<HabitLog>, habitId: string): (r: Rate)
    ensures r.total == |LogsOf(logs, habitId)|
    ensures r.completed <= r.total
    ensures 0.0 <= r.rate <= 100.0
    ensures r.total == 0 ==> r.completed == 0 && r.rate == 0.0
    ensures r.total > 0 ==> r.rate == Percent(r.completed, r.total)
  {
    var habitLogs := LogsOf(logs, habitId);
    var completed := |Filter(habitLogs, (l: HabitLog) => l.status == Completed)|;
    var total := |habitLogs|;
    if total > 0 then
      PercentBounds(completed, total);
      Rate(completed, total, Percent(completed, total))
    else Rate(completed, total, 0.0)
  }

  /** A habit with logs is at 100% exactly when all of its logs are completed, and at 0%
      exactly when none is. */
  lemma RateExtremes(logs: seq<HabitLog>, habitId: string)
    requires |LogsOf(logs, habitId)| > 0
    ensures RateOf(logs, habitId).rate == 100.0
        <==> forall l :: l in logs && l.habitId == habitId ==> l.status == Completed
    ensures RateOf(logs, habitId).rate == 0.0
        <==> forall l :: l in logs && l.habitId == habitId ==> l.status != Completed
  {
    var habitLogs := LogsOf(logs, habitId);
    var isDone := (l: HabitLog) => l.status == Completed;
    var r := RateOf(logs, habitId);
    PercentBounds(r.completed, r.total);
    FilterKeepsAll(habitLogs, isDone);
    var done := Filter(habitLogs, isDone);
    assert done == [] || done[0] in done;
  }

  /** A log of another habit changes nothing in a habit's rate. */
  lemma RateIgnoresOtherHabits(logs: seq<HabitLog>, habitId: string, l: HabitLog)
    requires l.habitId != habitId
    ensures RateOf(logs + [l], habitId) == RateOf(logs, habitId)
  {
    FilterAppend(logs, [l], (l: HabitLog) => l.habitId == habitId);
    assert LogsOf(logs + [l], habitId) == LogsOf(logs, habitId);
  }

  /** The rate counts log by log: no logs give an empty rate, and one more log adds one
      to `total` when it belongs to the habit and one to `completed` when it is also a
      completion. */
  lemma RateOfSnoc(logs: seq<HabitLog>, habitId: string, l: HabitLog)
    ensures RateOf([], habitId) == Rate(0, 0, 0.0)
    ensures RateOf(logs + [l], habitId).total
         == RateOf(logs, habitId).total + (if l.habitId == habitId then 1 else 0)
    ensures RateOf(logs + [l], habitId).completed
         == RateOf(logs, habitId).completed + (if l.habitId == habitId && l.status == Completed then 1 else 0)
  {
    var own := LogsOf(logs, habitId);
    FilterSnoc(logs, l, (m: HabitLog) => m.habitId == habitId);
    if l.habitId == habitId {
      assert LogsOf(logs + [l], habitId) == own + [l];
      FilterSnoc(own, l, (m: HabitLog) => m.status == Completed);
    } else {
      assert LogsOf(logs + [l], habitId) == own;
    }
  }

  /** The ids of the habits. */
  function IdsOf(habits: seq<Habit>): set<string>
  {
    set h | h in habits :: h.id
  }

  /** `completionRates`: the record keyed by every habit id, each holding that habit's rate
      (a repeated id is overwritten with the same value). */
  method CompletionRates(habits: seq<Habit>, logs: seq<HabitLog>) returns (rates: map<string, Rate>)
    ensures rates.Keys == IdsOf(habits)
    ensures forall id :: id in rates ==> rates[id] == RateOf(logs, id)
  {
    rates := map[];
    for i := 0 to |habits|
      invariant rates.Keys == IdsOf(habits[..i])
      invariant forall id :: id in rates ==> rates[id] == RateOf(logs, id)
    {
      var habit := habits[i];
      var habitLogs := Filter(logs, (l: HabitLog) => l.habitId == habit.id);
      var completed := |Filter(habitLogs, (l: HabitLog) => l.status == Completed)|;
      var total := |habitLogs|;
      var rate := if total > 0 then Percent(completed, total) else 0.0;
      rates := rates[habit.id := Rate(completed, total, rate)];
      assert habits[..i + 1] == habits[..i] + [habit];
      assert IdsOf(habits[..i + 1]) == IdsOf(habits[..i]) + {habit.id} by {
        assert habit in habits[..i + 1];
      }
    }
    assert habits[..|habits|] == habits;
  }

  // ---------------------------------------------------------------------------
  // Heatmap

  /** `part / whole` on exact reals. */
  function Ratio(part: nat, whole: nat): (q: real)
    requires whole > 0
    ensures q >= 0.0
    ensures q * whole as real == part as real
  {
    part as real / whole as real
  }

  /** Where a ratio sits against 0, 3/4 and 1. */
  lemma RatioBounds(part: nat, whole: nat)
    requires whole > 0
    ensures Ratio(part, whole) == 0.0 <==> part == 0
    ensures Ratio(part, whole) >= 0.75 <==> 4 * part >= 3 * whole
    ensures Ratio(part, whole) <= 1.0 <==> part <= whole
  {
    RatioAgainst(part, whole, 0.0);
    RatioAgainst(part, whole, 0.75);
    RatioAgainst(part, whole, 1.0);
    var n, k := whole as real, part as real;
    assert 0.75 * n <= k <==> 4 * part >= 3 * whole;
  }

  /** Comparing the ratio with `b` is comparing the part with `b` times the whole. */
  lemma RatioAgainst(part: nat, whole: nat, b: real)
    requires whole > 0
    ensures Ratio(part, whole) == b <==> part as real == b * whole as real
    ensures Ratio(part, whole) <= b <==> part as real <= b * whole as real
    ensures b <= Ratio(part, whole) <==> b * whole as real <= part as real
  {
    var q, n := Ratio(part, whole), whole as real;
    ScaleBy(q, b, n);
    ScaleBy(b, q, n);
  }

  /** A percentage is the ratio scaled by 100. */
  lemma PercentIsRatio(part: nat, whole: nat)
    requires whole > 0
    ensures Percent(part, whole) == Ratio(part, whole) * 100.0
  {
    var n, q := whole as real, Ratio(part, whole);
    assert (q * 100.0) * n == 100.0 * (q * n);
    ScaleBy(Percent(part, whole), q * 100.0, n);
  }

  /** One heatmap square. */
  datatype HeatCell = HeatCell(date: Day, count: nat, total: nat, intensity: real)

  /** The square of one day: completed logs of any habit dated that day, habits the current
      roster schedules on that weekday, and their ratio (0 when nothing is scheduled). */
  function CellFor(logs: seq<HabitLog>, habits: seq<Habit>, day: Day): (c: HeatCell)
    ensures c.date == day
    ensures c.count == |CompletedOn(logs, day)| && c.total == |ScheduledOn(habits, day)|
    ensures c.intensity >= 0.0
    ensures c.total == 0 ==> c.intensity == 0.0
    ensures c.total > 0 ==> c.intensity == Ratio(c.count, c.total)
  {
    var count := |CompletedOn(logs, day)|;
    var total := |ScheduledOn(habits, day)|;
    var intensity := if total > 0 then Ratio(count, total) else 0.0;
    HeatCell(day, count, total, intensity)
  }

  /** `heatmapData`: one square per calendar day from `yearStart` to `today` inclusive, in
      ascending order; empty when the interval is empty. */
  function Heatmap(logs: seq<HabitLog>, habits: seq<Habit>, yearStart: Day, today: Day): (cells: seq<HeatCell>)
    ensures |cells| == if yearStart <= today then today - yearStart + 1 else 0
    ensures forall i :: 0 <= i < |cells| ==> cells[i].date == yearStart + i
    ensures forall i :: 0 <= i < |cells| ==> cells[i] == CellFor(logs, habits, yearStart + i)
  {
    if yearStart <= today then
      var cells := seq(today - yearStart + 1, i => CellFor(logs, habits, yearStart + i));
      assert forall i :: 0 <= i < |cells| ==> cells[i] == CellFor(logs, habits, yearStart + i);
      cells
    else []
  }

  /** One more day at the end of the interval adds exactly its square. */
  lemma HeatmapExtends(logs: seq<HabitLog>, habits: seq<Habit>, yearStart: Day, today: Day)
    requires yearStart <= today + 1
    ensures Heatmap(logs, habits, yearStart, today + 1)
         == Heatmap(logs, habits, yearStart, today) + [CellFor(logs, habits, today + 1)]
  {
  }

  /** A square's intensity is at most 1 exactly when the day has no more completed logs
      than scheduled habits; it is not clamped otherwise. */
  lemma IntensityAtMostOne(logs: seq<HabitLog>, habits: seq<Habit>, day: Day)
    requires |ScheduledOn(habits, day)| > 0
    ensures CellFor(logs, habits, day).intensity <= 1.0
        <==> |CompletedOn(logs, day)| <= |ScheduledOn(habits, day)|
  {
    RatioBounds(|CompletedOn(logs, day)|, |ScheduledOn(habits, day)|);
  }

  /** Today's square carries the day progress as a ratio. */
  lemma TodayCellIsDayProgress(logs: seq<HabitLog>, habits: seq<Habit>, today: Day)
    ensures CellFor(logs, habits, today).intensity * 100.0 == DayProgress(logs, habits, today)
  {
    var c := CellFor(logs, habits, today);
    if c.total > 0 {
      PercentIsRatio(c.count, c.total);
    }
  }

  /** A habit scheduled every day of the week and not archived is scheduled on any day. */
  lemma DailyHabitScheduled(h: Habit, day: Day)
    requires h.frequency == AllWeekdays && !h.archived
    ensures |ScheduledOn([h], day)| == 1
  {
    assert [h][..0] == [];
    assert WeekdayOf(day) in AllWeekdays;
  }

  /** A single log is a completion of its own day only. */
  lemma SingleCompletion(l: HabitLog, day: Day)
    requires l.status == Completed
    ensures |CompletedOn([l], day)| == if l.completedAt == day then 1 else 0
  {
    assert [l][..0] == [];
  }

  /** Three days, one habit scheduled on all of them and completed on the middle one only:
      the intensities are 0, 1, 0. */
  lemma ThreeDayHeatmap(h: Habit, l: HabitLog)
    requires h.frequency == AllWeekdays && !h.archived
    requires l.habitId == h.id && l.completedAt == 1 && l.status == Completed
    ensures var cells := Heatmap([l], [h], 0, 2);
            |cells| == 3 && cells[0].intensity == 0.0 && cells[1].intensity == 1.0 && cells[2].intensity == 0.0
  {
    var cells := Heatmap([l], [h], 0, 2);
    DailyHabitScheduled(h, 0);
    DailyHabitScheduled(h, 1);
    DailyHabitScheduled(h, 2);
    SingleCompletion(l, 0);
    SingleCompletion(l, 1);
    SingleCompletion(l, 2);
    assert cells[0] == CellFor([l], [h], 0);
    assert cells[1] == CellFor([l], [h], 1);
    assert cells[2] == CellFor([l], [h], 2);
  }

  // ---------------------------------------------------------------------------
  // Colour tiers

  datatype HeatColor = Slate100 | Green200 | Green400 | Green600 | Green800

  /** The tier's position from "Less" to "More". */
  function Level(c: HeatColor): nat
  {
    match c
    case Slate100 => 0
    case Green200 => 1
    case Green400 => 2
    case Green600 => 3
    case Green800 => 4
  }

  /** `getIntensityColor`. */
  function IntensityColor(intensity: real): (c: HeatColor)
    ensures c == Slate100 <==> intensity == 0.0
    ensures c == Green800 <==> intensity >= 0.75
  {
    if intensity == 0.0 then Slate100
    else if intensity < 0.25 then Green200
    else if intensity < 0.5 then Green400
    else if intensity < 0.75 then Green600
    else Green800
  }

  /** On non-negative intensities the tier never goes down as intensity goes up. */
  lemma IntensityColorMonotone(a: real, b: real)
    requires 0.0 <= a <= b
    ensures Level(IntensityColor(a)) <= Level(IntensityColor(b))
  {
  }

  /** The five tiers are reached by 0, (0, 0.25), [0.25, 0.5), [0.5, 0.75) and [0.75, ...). */
  lemma IntensityColorTiers(x: real)
    requires x >= 0.0
    ensures Level(IntensityColor(x)) == if x == 0.0 then 0 else if x < 0.25 then 1
                                        else if x < 0.5 then 2 else if x < 0.75 then 3 else 4
  {
  }

  /** A square is blank exactly when the day had no completion or nothing scheduled, and in
      the top tier exactly when completions reach three quarters of the schedule. */
  lemma CellColor(logs: seq<HabitLog>, habits: seq<Habit>, day: Day)
    ensures var c := CellFor(logs, habits, day);
            IntensityColor(c.intensity) == Slate100 <==> c.count == 0 || c.total == 0
    ensures var c := CellFor(logs, habits, day);
            c.total > 0 ==> (IntensityColor(c.intensity) == Green800 <==> 4 * c.count >= 3 * c.total)
  {
    var c := CellFor(logs, habits, day);
    if c.total > 0 {
      RatioBounds(c.count, c.total);
    }
  }

  // ---------------------------------------------------------------------------
  // Reflection prompts

  /** A habit gets a prompt when some log of it dated today is not completed. */
  function NeedsReflection(logs: seq<HabitLog>, habitId: string, today: Day): (needs: bool)
    ensures needs <==> exists l :: l in logs && l.habitId == habitId && l.completedAt == today
                                 && l.status != Completed
  {
    var todayLogs := Filter(logs, (l: HabitLog) => l.habitId == habitId && l.completedAt == today);
    Any(todayLogs, (l: HabitLog) => l.status != Completed)
  }

  /** The habits shown with a reflection prompt, archived ones included, in roster order. */
  function ReflectionPrompts(habits: seq<Habit>, logs: seq<HabitLog>, today: Day): (r: seq<Habit>)
    ensures forall h :: h in r <==> h in habits && NeedsReflection(logs, h.id, today)
  {
    Filter(habits, (h: Habit) => NeedsReflection(logs, h.id, today))
  }

  /** "All habits completed today" is shown exactly when no habit has a prompt. */
  function ShowsAllCompletedMessage(habits: seq<Habit>, logs: seq<HabitLog>, today: Day): (shown: bool)
    ensures shown <==> forall h :: h in habits ==> !NeedsReflection(logs, h.id, today)
  {
    var prompts := ReflectionPrompts(habits, logs, today);
    assert prompts == [] || prompts[0] in prompts;
    |prompts| == 0
  }

  /** The note shown with a prompt: that of the first log of the habit dated today, of
      any status, when it has a non-empty note. */
  function PromptNote(logs: seq<HabitLog>, habitId: string, today: Day): (note: Option<string>)
    ensures note.Some? <==>
      exists i :: 0 <= i < |logs| && logs[i].habitId == habitId && logs[i].completedAt == today
        && (forall j :: 0 <= j < i ==> !(logs[j].habitId == habitId && logs[j].completedAt == today))
        && logs[i].notes.Some? && logs[i].notes.value != ""
    ensures note.Some? ==> note.value != ""
  {
    match FindFirst(logs, (l: HabitLog) => l.habitId == habitId && l.completedAt == today)
    case None =>
      assert forall i :: 0 <= i < |logs| ==> logs[i] in logs;
      None
    case Some(i) =>
      if logs[i].notes.Some? && logs[i].notes.value != "" then Some(logs[i].notes.value) else None
  }

  /** Today's prompt predicate is yesterday's miss seen a day later. */
  lemma ReflectionIsTomorrowsMiss(logs: seq<HabitLog>, habitId: string, today: Day)
    ensures NeedsReflection(logs, habitId, today) == DidMissYesterday(logs, habitId, today + 1)
  {
  }
}
