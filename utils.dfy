/** The derived-metric library of the habit tracker: time blocks and greetings, streaks,
    day progress, the schedule filter, the missed/completed predicates and the grouping of
    habits by trigger cue. The wall clock is a parameter: `hour` is the local hour and
    `today` the local calendar day. */
module Utils {
  import opened Types
  import opened Seqs

  // ---------------------------------------------------------------------------
  // Time blocks and greetings

  /** The time block of a local hour: before noon, before 17:00, or later. */
  function TimeOfDayAt(hour: int): (block: TimeOfDay)
    ensures block == Morning <==> hour < 12
    ensures block == Afternoon <==> 12 <= hour < 17
    ensures block == Evening <==> 17 <= hour
  {
    if hour < 12 then Morning else if hour < 17 then Afternoon else Evening
  }

  /** Position of a block in the day. */
  function BlockRank(block: TimeOfDay): nat
  {
    match block
    case Morning => 0
    case Afternoon => 1
    case Evening => 2
  }

  /** Later hours never fall in an earlier block. */
  lemma TimeOfDayMonotone(h1: int, h2: int)
    requires h1 <= h2
    ensures BlockRank(TimeOfDayAt(h1)) <= BlockRank(TimeOfDayAt(h2))
  {
  }

  function GreetingFor(block: TimeOfDay): string
  {
    match block
    case Morning => "Good Morning"
    case Afternoon => "Good Afternoon"
    case Evening => "Good Evening"
  }

  /** The greeting uses the same thresholds as the time block, so it always names the
      block the dashboard shows as "Now". */
  function GreetingAt(hour: int): (greeting: string)
    ensures greeting == GreetingFor(TimeOfDayAt(hour))
  {
    if hour < 12 then "Good Morning"
    else if hour < 17 then "Good Afternoon"
    else "Good Evening"
  }

  // ---------------------------------------------------------------------------
  // Streaks

  predicate IsCompletedLogOf(habitId: string, l: HabitLog)
  {
    l.habitId == habitId && l.status == Completed
  }

  /** The calendar days on which the habit has a completed log. */
  function CompletedDays(logs: seq<HabitLog>, habitId: string): set<Day>
  {
    set l | l in logs && IsCompletedLogOf(habitId, l) :: l.completedAt
  }

  /** The number of consecutive days in `days` that end at `from`: `from`, `from - 1`, ...
      up to the first day missing from `days`. */
  function RunLength(days: set<Day>, from: Day): (n: nat)
    ensures n <= |days|
    ensures forall d :: from - n < d <= from ==> d in days
    ensures from - n !in days
    decreases |days|
  {
    if from in days then
      var rest := RunLength(days - {from}, from - 1);
      assert forall d :: from - 1 - rest < d <= from ==> d in days by {
        forall d | from - 1 - rest < d <= from ensures d in days {
          if d < from {
            assert d in days - {from};
          }
        }
      }
      1 + rest
    else 0
  }

  /** The first day counted: today if it has a completion, otherwise yesterday. */
  function StreakAnchor(days: set<Day>, today: Day): Day
  {
    if today in days then today else today - 1
  }

  /** Reference definition of a habit's streak: the run of completed days ending at the
      anchor. */
  function Streak(logs: seq<HabitLog>, habitId: string, today: Day): nat
  {
    var days := CompletedDays(logs, habitId);
    RunLength(days, StreakAnchor(days, today))
  }

  /** The days of the logs, in the same order. */
  function DaysOf(logs: seq<HabitLog>): (days: seq<Day>)
    ensures |days| == |logs|
    ensures forall i :: 0 <= i < |logs| ==> days[i] == logs[i].completedAt
  {
    seq(|logs|, i requires 0 <= i < |logs| => logs[i].completedAt)
  }

  /** The list `calculateStreak` walks: the habit's completed days without duplicates,
      most recent first. */
  function StreakDays(logs: seq<HabitLog>, habitId: string): (days: seq<Day>)
    ensures NonIncreasing(days)
  {
    SortDescending(Dedup(DaysOf(Filter(logs, (l: HabitLog) => IsCompletedLogOf(habitId, l)))))
  }

  /** The walked list holds exactly the habit's completed days. */
  lemma StreakDaysAreCompletedDays(logs: seq<HabitLog>, habitId: string)
    ensures forall d :: d in StreakDays(logs, habitId) <==> d in CompletedDays(logs, habitId)
  {
    var completed := Filter(logs, (l: HabitLog) => IsCompletedLogOf(habitId, l));
    var unique := Dedup(DaysOf(completed));
    var sorted := SortDescending(unique);
    assert forall d :: d in sorted <==> d in unique by {
      forall d ensures d in sorted <==> d in unique {
        assert d in sorted <==> d in multiset(sorted);
        assert d in unique <==> d in multiset(unique);
      }
    }
    forall d ensures d in DaysOf(completed) <==> d in CompletedDays(logs, habitId) {
      if d in DaysOf(completed) {
        var i :| 0 <= i < |completed| && DaysOf(completed)[i] == d;
        assert completed[i] in completed;
      }
      if d in CompletedDays(logs, habitId) {
        var l :| l in logs && IsCompletedLogOf(habitId, l) && l.completedAt == d;
        assert l in completed;
        var i :| 0 <= i < |completed| && completed[i] == l;
        assert DaysOf(completed)[i] == d;
      }
    }
  }

  /** `calculateStreak`: the habit's completed days without duplicates, most recent
      first; the walk starts today if today is among them and yesterday otherwise. */
  method CalculateStreak(logs: seq<HabitLog>, habitId: string, today: Day) returns (streak: nat)
    ensures streak == Streak(logs, habitId, today)
  {
    var habitLogs := StreakDays(logs, habitId);
    if |habitLogs| == 0 {
      StreakOfWalk(logs, habitId, today, today - 1, 0);
      return 0;
    }
    var expectedDate := today;
    var todayCompleted := today in habitLogs;
    if !todayCompleted {
      expectedDate := today - 1;
    }
    streak := WalkBack(habitLogs, expectedDate);
    StreakOfWalk(logs, habitId, today, expectedDate, streak);
  }

  /** The loop of `calculateStreak`: walks a most-recent-first list of days, counting
      while each day is the expected one, skipping days newer than it and stopping at the
      first gap. The count is the run of listed days ending at `start`. */
  method WalkBack(habitLogs: seq<Day>, start: Day) returns (streak: nat)
    requires NonIncreasing(habitLogs)
    ensures forall d :: start - streak < d <= start ==> d in habitLogs
    ensures start - streak !in habitLogs
  {
    streak := 0;
    var expectedDate := start;
    var i := 0;
    while i < |habitLogs|
      invariant 0 <= i <= |habitLogs|
      invariant expectedDate == start - streak
      invariant forall d :: expectedDate < d <= start ==> d in habitLogs
      invariant forall j :: 0 <= j < i ==> habitLogs[j] > expectedDate
    {
      var daysDiff := expectedDate - habitLogs[i];
      if daysDiff == 0 {
        // This day matches what we're looking for
        streak := streak + 1;
        expectedDate := expectedDate - 1;
      } else if daysDiff > 0 {
        // Gap found, streak broken
        MissingFromDescending(habitLogs, i, expectedDate);
        break;
      }
      // If daysDiff < 0, the day is newer than expected: skip it
      i := i + 1;
    }
  }

  /** What the walk establishes about the list it walks determines the streak. */
  lemma StreakOfWalk(logs: seq<HabitLog>, habitId: string, today: Day, anchor: Day, n: nat)
    requires var s := StreakDays(logs, habitId);
      && anchor == (if today in s then today else today - 1)
      && (forall d :: anchor - n < d <= anchor ==> d in s)
      && anchor - n !in s
    ensures Streak(logs, habitId, today) == n
  {
    var days := CompletedDays(logs, habitId);
    StreakDaysAreCompletedDays(logs, habitId);
    assert anchor == StreakAnchor(days, today);
    RunLengthUnique(days, anchor, n);
  }

  /** In a non-increasing sequence, a value above every element before index `i` and
      above the element at `i` occurs nowhere. */
  lemma MissingFromDescending(s: seq<int>, i: nat, x: int)
    requires NonIncreasing(s)
    requires i < |s| && s[i] < x
    requires forall j :: 0 <= j < i ==> s[j] > x
    ensures x !in s
  {
    forall j | 0 <= j < |s| ensures s[j] != x {
      if j >= i {
        assert s[j] <= s[i];
      }
    }
  }

  /** The run length is the only count whose days are all present and whose next day is
      missing. */
  lemma RunLengthUnique(days: set<Day>, from: Day, n: nat)
    requires forall d :: from - n < d <= from ==> d in days
    requires from - n !in days
    ensures RunLength(days, from) == n
  {
    var m := RunLength(days, from);
    assert from - m !in days;
  }

  /** A habit without a completed log has no streak, whatever its other logs say. */
  lemma StreakWithoutCompletions(logs: seq<HabitLog>, habitId: string, today: Day)
    requires forall l :: l in logs ==> !IsCompletedLogOf(habitId, l)
    ensures Streak(logs, habitId, today) == 0
  {
    assert CompletedDays(logs, habitId) == {};
  }

  /** Only the habit's own completed logs matter: dropping all other logs leaves the
      streak unchanged. */
  lemma StreakUsesOnlyOwnCompletions(logs: seq<HabitLog>, habitId: string, today: Day)
    ensures Streak(Filter(logs, (l: HabitLog) => IsCompletedLogOf(habitId, l)), habitId, today)
         == Streak(logs, habitId, today)
  {
    var own := Filter(logs, (l: HabitLog) => IsCompletedLogOf(habitId, l));
    assert CompletedDays(own, habitId) == CompletedDays(logs, habitId);
  }

  /** A second completed log on a day that already has one counts once. */
  lemma StreakCountsDayOnce(logs: seq<HabitLog>, habitId: string, today: Day, l: HabitLog)
    requires IsCompletedLogOf(habitId, l)
    requires l.completedAt in CompletedDays(logs, habitId)
    ensures Streak(logs + [l], habitId, today) == Streak(logs, habitId, today)
  {
    CompletedDaysSnoc(logs, habitId, l);
    assert CompletedDays(logs + [l], habitId) == CompletedDays(logs, habitId);
  }

  /** Appending a log adds its day to the completed days exactly when it is a completed
      log of the habit. */
  lemma CompletedDaysSnoc(logs: seq<HabitLog>, habitId: string, l: HabitLog)
    ensures CompletedDays(logs + [l], habitId)
         == CompletedDays(logs, habitId) + (if IsCompletedLogOf(habitId, l) then {l.completedAt} else {})
  {
    var before, after := CompletedDays(logs, habitId), CompletedDays(logs + [l], habitId);
    var added: set<Day> := if IsCompletedLogOf(habitId, l) then {l.completedAt} else {};
    forall d ensures d in after <==> d in before + added {
      if d in after {
        var m :| m in logs + [l] && IsCompletedLogOf(habitId, m) && m.completedAt == d;
        if m != l {
          assert m in logs;
        }
      }
      if d in before {
        var m :| m in logs && IsCompletedLogOf(habitId, m) && m.completedAt == d;
        assert m in logs + [l];
      }
      if d in added {
        assert l in logs + [l];
      }
    }
  }

  /** Completing the habit today adds exactly one day to its streak, unless today was
      already completed: a run ending yesterday is extended, not restarted. */
  lemma StreakAfterCompletingToday(logs: seq<HabitLog>, habitId: string, today: Day, l: HabitLog)
    requires IsCompletedLogOf(habitId, l) && l.completedAt == today
    ensures Streak(logs + [l], habitId, today)
         == Streak(logs, habitId, today) + (if today in CompletedDays(logs, habitId) then 0 else 1)
  {
    var days := CompletedDays(logs, habitId);
    var days' := CompletedDays(logs + [l], habitId);
    CompletedDaysSnoc(logs, habitId, l);
    if today !in days {
      assert today in days' && days' - {today} == days;
      assert StreakAnchor(days', today) == today && StreakAnchor(days, today) == today - 1;
      assert RunLength(days', today) == 1 + RunLength(days, today - 1);
    } else {
      assert days' == days;
    }
  }

  /** The streak counts every day of an unbroken run ending at the anchor and stops at
      the first missing day before it. */
  lemma StreakIsRunAtAnchor(logs: seq<HabitLog>, habitId: string, today: Day, n: nat)
    requires var days := CompletedDays(logs, habitId);
      forall d :: StreakAnchor(days, today) - n < d <= StreakAnchor(days, today) ==> d in days
    ensures Streak(logs, habitId, today) >= n
    ensures var days := CompletedDays(logs, habitId);
      StreakAnchor(days, today) - n !in days ==> Streak(logs, habitId, today) == n
  {
    var days := CompletedDays(logs, habitId);
    var m := Streak(logs, habitId, today);
    assert StreakAnchor(days, today) - m !in days;
  }

  /** The ids of the logs' habits, in log order. */
  function HabitIdsOf(logs: seq<HabitLog>): (ids: seq<string>)
    ensures |ids| == |logs|
    ensures forall i :: 0 <= i < |logs| ==> ids[i] == logs[i].habitId
  {
    seq(|logs|, i requires 0 <= i < |logs| => logs[i].habitId)
  }

  /** `getCurrentStreak`: the smallest streak over the habits that have any log; 0 when
      there are no logs. */
  method GetCurrentStreak(logs: seq<HabitLog>, today: Day) returns (r: nat)
    ensures logs == [] ==> r == 0
    ensures forall l :: l in logs ==> r <= Streak(logs, l.habitId, today)
    ensures logs != [] ==> exists l :: l in logs && r == Streak(logs, l.habitId, today)
  {
    var allHabits := Dedup(HabitIdsOf(logs));
    var minStreak: Option<nat> := None;  // Infinity
    ghost var w := 0;  // where the minimum was seen
    for i := 0 to |allHabits|
      invariant minStreak.None? <==> i == 0
      invariant minStreak.Some? ==>
        forall j :: 0 <= j < i ==> minStreak.value <= Streak(logs, allHabits[j], today)
      invariant minStreak.Some? ==> w < i && minStreak.value == Streak(logs, allHabits[w], today)
    {
      var streak := CalculateStreak(logs, allHabits[i], today);
      if minStreak.None? || streak < minStreak.value {
        minStreak := Some(streak);
        w := i;
      }
    }
    HabitIdsCoverLogs(logs);
    MinimumOverIds(logs, today, allHabits, minStreak, w);
    r := if minStreak.None? then 0 else minStreak.value;
  }

  /** The minimum over a list of ids that are exactly the logs' habit ids is the minimum
      over the logs' habits. */
  lemma MinimumOverIds(logs: seq<HabitLog>, today: Day, ids: seq<string>, m: Option<nat>, w: nat)
    requires forall l :: l in logs ==> l.habitId in ids
    requires forall id :: id in ids ==> exists l :: l in logs && l.habitId == id
    requires m.None? <==> |ids| == 0
    requires m.Some? ==> forall j :: 0 <= j < |ids| ==> m.value <= Streak(logs, ids[j], today)
    requires m.Some? ==> w < |ids| && m.value == Streak(logs, ids[w], today)
    ensures logs == [] ==> m.None?
    ensures m.Some? ==> forall l :: l in logs ==> m.value <= Streak(logs, l.habitId, today)
    ensures m.Some? ==> exists l :: l in logs && m.value == Streak(logs, l.habitId, today)
  {
    if logs != [] {
      assert logs[0].habitId in ids;
    }
    if m.Some? {
      assert ids[w] in ids;
      forall l | l in logs ensures m.value <= Streak(logs, l.habitId, today) {
        var k :| 0 <= k < |ids| && ids[k] == l.habitId;
      }
    }
  }

  /** Every log's habit id is listed once, and only ids of logs are listed. */
  lemma HabitIdsCoverLogs(logs: seq<HabitLog>)
    ensures forall l :: l in logs ==> l.habitId in Dedup(HabitIdsOf(logs))
    ensures forall id :: id in Dedup(HabitIdsOf(logs)) ==> exists l :: l in logs && l.habitId == id
  {
    var ids := HabitIdsOf(logs);
    forall l | l in logs ensures l.habitId in ids {
      var i :| 0 <= i < |logs| && logs[i] == l;
      assert ids[i] == l.habitId;
    }
    forall id | id in ids ensures exists l :: l in logs && l.habitId == id {
      var i :| 0 <= i < |ids| && ids[i] == id;
      assert logs[i] in logs;
    }
  }

  // ---------------------------------------------------------------------------
  // Scheduling and day progress

  /** A habit is scheduled on a day when its frequency lists the day's weekday code and it
      is not archived. */
  predicate IsScheduledOn(h: Habit, day: Day)
  {
    WeekdayOf(day) in h.frequency && !h.archived
  }

  /** A live habit with at least one day in its schedule, as the wizard's enabled Create
      button guarantees, is scheduled at least once in every seven consecutive days. */
  lemma ScheduledWithinAWeek(h: Habit, d: Day)
    requires |h.frequency| > 0 && !h.archived
    ensures exists day :: d <= day < d + 7 && IsScheduledOn(h, day)
  {
    WeekCoversAllCodes(d);
    var week := WeekFrom(d);
    assert h.frequency[0] in week;
    var k :| 0 <= k < 7 && week[k] == h.frequency[0];
    assert IsScheduledOn(h, d + k);
  }

  function ScheduledOn(habits: seq<Habit>, day: Day): (r: seq<Habit>)
    ensures forall h :: h in r <==> h in habits && IsScheduledOn(h, day)
  {
    Filter(habits, (h: Habit) => IsScheduledOn(h, day))
  }

  /** The logs dated `day` (`isToday`, `isSameDay`). */
  function LogsOn(logs: seq<HabitLog>, day: Day): seq<HabitLog>
  {
    Filter(logs, (l: HabitLog) => l.completedAt == day)
  }

  /** The completed logs dated `day`, of any habit. */
  function CompletedOn(logs: seq<HabitLog>, day: Day): (r: seq<HabitLog>)
    ensures forall l :: l in r <==> l in logs && l.completedAt == day && l.status == Completed
  {
    Filter(LogsOn(logs, day), (l: HabitLog) => l.status == Completed)
  }

  /** `(part / whole) * 100` on exact reals. */
  function Percent(part: nat, whole: nat): (p: real)
    requires whole > 0
    ensures p >= 0.0
    ensures p * whole as real == 100.0 * part as real
  {
    var q := part as real / whole as real;
    assert q * whole as real == part as real;
    q * 100.0
  }

  /** A percentage is at most 100 exactly when the part is at most the whole, and is 100
      exactly when they are equal. */
  lemma PercentBounds(part: nat, whole: nat)
    requires whole > 0
    ensures Percent(part, whole) <= 100.0 <==> part <= whole
    ensures Percent(part, whole) == 100.0 <==> part == whole
    ensures part == 0 <==> Percent(part, whole) == 0.0
  {
    var p, n, c := Percent(part, whole), whole as real, part as real;
    ScaleBy(p, 100.0, n);
    assert 100.0 * n - p * n == 100.0 * (n - c);
  }

  /** Multiplying by a positive number keeps order and equality. */
  lemma ScaleBy(a: real, b: real, n: real)
    requires n > 0.0
    ensures a <= b <==> a * n <= b * n
    ensures a == b <==> a * n == b * n
  {
    assert b * n - a * n == (b - a) * n;
  }

  /** `getDayProgress`: completed logs dated today (any habit, duplicates included) per
      habit scheduled today, as a percentage; 0 when nothing is scheduled. */
  function DayProgress(logs: seq<HabitLog>, habits: seq<Habit>, today: Day): (progress: real)
    ensures progress >= 0.0
    ensures |ScheduledOn(habits, today)| == 0 ==> progress == 0.0
    ensures |ScheduledOn(habits, today)| > 0 ==>
      progress == Percent(|CompletedOn(logs, today)|, |ScheduledOn(habits, today)|)
  {
    if |ScheduledOn(habits, today)| == 0 then 0.0
    else Percent(|CompletedOn(logs, today)|, |ScheduledOn(habits, today)|)
  }

  /** Progress with something scheduled stays at most 100 exactly while there are no more
      completed logs today than scheduled habits, and is 100 exactly when they match. */
  lemma DayProgressFull(logs: seq<HabitLog>, habits: seq<Habit>, today: Day)
    requires |ScheduledOn(habits, today)| > 0
    ensures DayProgress(logs, habits, today) <= 100.0
        <==> |CompletedOn(logs, today)| <= |ScheduledOn(habits, today)|
    ensures DayProgress(logs, habits, today) == 100.0
        <==> |CompletedOn(logs, today)| == |ScheduledOn(habits, today)|
  {
    PercentBounds(|CompletedOn(logs, today)|, |ScheduledOn(habits, today)|);
  }

  /** `getHabitsForTimeBlock`: the habits of a block scheduled today, in input order. */
  function HabitsForTimeBlock(habits: seq<Habit>, block: TimeOfDay, today: Day): (r: seq<Habit>)
    ensures |r| <= |habits|
    ensures forall h :: h in r <==> h in habits && h.timeOfDay == block && IsScheduledOn(h, today)
  {
    Filter(habits, (h: Habit) => h.timeOfDay == block && WeekdayOf(today) in h.frequency && !h.archived)
  }

  /** The selection keeps input order: selecting from a concatenation concatenates the
      selections. */
  lemma HabitsForTimeBlockKeepsOrder(a: seq<Habit>, b: seq<Habit>, block: TimeOfDay, today: Day)
    ensures HabitsForTimeBlock(a + b, block, today)
         == HabitsForTimeBlock(a, block, today) + HabitsForTimeBlock(b, block, today)
  {
    FilterAppend(a, b, (h: Habit) => h.timeOfDay == block && WeekdayOf(today) in h.frequency && !h.archived);
  }

  // ---------------------------------------------------------------------------
  // Per-habit predicates

  /** `didMissYesterday`: some log of the habit dated yesterday is not completed; having
      no log yesterday is not a miss. */
  function DidMissYesterday(logs: seq<HabitLog>, habitId: string, today: Day): (missed: bool)
    ensures missed <==> exists l :: l in logs && l.habitId == habitId
                                  && l.completedAt == today - 1 && l.status != Completed
  {
    var yesterdayLogs := Filter(logs, (l: HabitLog) =>
      l.habitId == habitId && l.completedAt == today - 1 && l.status != Completed);
    assert yesterdayLogs != [] ==> yesterdayLogs[0] in yesterdayLogs;
    |yesterdayLogs| > 0
  }

  /** `isCompletedToday`: some log of the habit dated today is completed. */
  function IsCompletedToday(logs: seq<HabitLog>, habitId: string, today: Day): (done: bool)
    ensures done <==> exists l :: l in logs && IsCompletedLogOf(habitId, l) && l.completedAt == today
  {
    Any(logs, (l: HabitLog) => l.habitId == habitId && l.completedAt == today && l.status == Completed)
  }

  /** Completed today is exactly today being one of the streak's days, so it is what
      moves the streak's anchor to today. */
  lemma CompletedTodayAnchorsStreak(logs: seq<HabitLog>, habitId: string, today: Day)
    ensures IsCompletedToday(logs, habitId, today) <==> today in CompletedDays(logs, habitId)
    ensures IsCompletedToday(logs, habitId, today) ==> Streak(logs, habitId, today) >= 1
  {
    if today in CompletedDays(logs, habitId) {
      var l :| l in logs && IsCompletedLogOf(habitId, l) && l.completedAt == today;
    }
  }

  // ---------------------------------------------------------------------------
  // Grouping by trigger cue

  /** The habits whose cue is exactly `cue`, in input order. */
  function WithCue(habits: seq<Habit>, cue: string): seq<Habit>
  {
    if habits == [] then []
    else
      var last := habits[|habits| - 1];
      WithCue(habits[..|habits| - 1], cue) + (if last.triggerCue == cue then [last] else [])
  }

  /** The habits with a given cue are those of the input carrying it. */
  lemma {:induction false} WithCueMembers(habits: seq<Habit>, cue: string)
    ensures forall h :: h in WithCue(habits, cue) <==> h in habits && h.triggerCue == cue
  {
    if habits != [] {
      WithCueMembers(habits[..|habits| - 1], cue);
      assert habits == habits[..|habits| - 1] + [habits[|habits| - 1]];
    }
  }

  function CuesOf(habits: seq<Habit>): (cues: seq<string>)
    ensures |cues| == |habits|
    ensures forall i :: 0 <= i < |habits| ==> cues[i] == habits[i].triggerCue
  {
    seq(|habits|, i requires 0 <= i < |habits| => habits[i].triggerCue)
  }

  /** The total number of habits in the groups listed by `keys`. */
  function GroupSize(keys: seq<string>, groups: map<string, seq<Habit>>): nat
  {
    if keys == [] then 0
    else
      var last := keys[|keys| - 1];
      GroupSize(keys[..|keys| - 1], groups) + (if last in groups then |groups[last]| else 0)
  }

  lemma {:induction false} GroupSizeOther(keys: seq<string>, groups: map<string, seq<Habit>>, cue: string, g: seq<Habit>)
    requires cue !in keys
    ensures GroupSize(keys, groups[cue := g]) == GroupSize(keys, groups)
  {
    if keys != [] {
      GroupSizeOther(keys[..|keys| - 1], groups, cue, g);
    }
  }

  lemma {:induction false} GroupSizePush(keys: seq<string>, groups: map<string, seq<Habit>>, cue: string, h: Habit)
    requires Distinct(keys) && cue in keys && cue in groups
    ensures GroupSize(keys, groups[cue := groups[cue] + [h]]) == GroupSize(keys, groups) + 1
  {
    var init, last := keys[..|keys| - 1], keys[|keys| - 1];
    if last == cue {
      assert cue !in init;
      GroupSizeOther(init, groups, cue, groups[cue] + [h]);
    } else {
      assert keys == init + [last];
      GroupSizePush(init, groups, cue, h);
    }
  }

  /** Adding the group of a new cue, as the empty list it starts from, and pushing onto it. */
  lemma GroupSizeNew(keys: seq<string>, groups: map<string, seq<Habit>>, h: Habit)
    requires h.triggerCue !in keys
    ensures var g := groups[h.triggerCue := []];
            GroupSize(keys + [h.triggerCue], g[h.triggerCue := g[h.triggerCue] + [h]]) == GroupSize(keys, groups) + 1
  {
    var cue := h.triggerCue;
    var g := groups[cue := []];
    assert g[cue] + [h] == [h];
    assert g[cue := g[cue] + [h]] == groups[cue := [h]];
    GroupSizeOther(keys, groups, cue, [h]);
    assert (keys + [cue])[..|keys|] == keys;
  }

  /** The distinct cues of the habits. */
  function CueSet(habits: seq<Habit>): set<string>
  {
    set h | h in habits :: h.triggerCue
  }

  lemma CuesSnoc(habits: seq<Habit>, h: Habit)
    ensures CuesOf(habits + [h]) == CuesOf(habits) + [h.triggerCue]
  {
  }

  lemma CueSetSnoc(habits: seq<Habit>, h: Habit)
    ensures CueSet(habits + [h]) == CueSet(habits) + {h.triggerCue}
  {
    assert h in habits + [h];
  }

  /** The cue list and the cue set hold the same cues. */
  lemma CuesMatchCueSet(habits: seq<Habit>, cue: string)
    ensures cue in CuesOf(habits) <==> cue in CueSet(habits)
  {
    if cue in CuesOf(habits) {
      var j :| 0 <= j < |habits| && CuesOf(habits)[j] == cue;
      assert habits[j] in habits;
    }
    if cue in CueSet(habits) {
      var g :| g in habits && g.triggerCue == cue;
      var j :| 0 <= j < |habits| && habits[j] == g;
      assert CuesOf(habits)[j] == cue;
    }
  }

  lemma WithCueSnoc(habits: seq<Habit>, h: Habit, cue: string)
    ensures WithCue(habits + [h], cue) == WithCue(habits, cue) + (if h.triggerCue == cue then [h] else [])
  {
    assert (habits + [h])[..|habits|] == habits;
  }

  /** The ordered keys after one more habit. */
  lemma GroupKeysStep(done: seq<Habit>, h: Habit)
    ensures Dedup(CuesOf(done + [h]))
         == if h.triggerCue in CueSet(done) then Dedup(CuesOf(done)) else Dedup(CuesOf(done)) + [h.triggerCue]
  {
    CuesSnoc(done, h);
    CuesMatchCueSet(done, h.triggerCue);
    DedupSnoc(CuesOf(done), h.triggerCue);
  }

  /** A cue no habit carries has no habits. */
  lemma {:induction false} WithUnusedCue(habits: seq<Habit>, cue: string)
    requires cue !in CueSet(habits)
    ensures WithCue(habits, cue) == []
  {
    if habits != [] {
      var init := habits[..|habits| - 1];
      assert CueSet(init) <= CueSet(habits) by {
        forall c | c in CueSet(init) ensures c in CueSet(habits) {
          var g :| g in init && g.triggerCue == c;
          assert g in habits;
        }
      }
      assert habits[|habits| - 1] in habits;
      WithUnusedCue(init, cue);
    }
  }

  /** The state of the grouping after the habits `done`. */
  ghost predicate GroupedSoFar(done: seq<Habit>, keys: seq<string>, groups: map<string, seq<Habit>>)
  {
    && keys == Dedup(CuesOf(done))
    && groups.Keys == CueSet(done)
    && (forall cue :: cue in groups ==> groups[cue] == WithCue(done, cue))
    && GroupSize(keys, groups) == |done|
  }

  /** Each group is still the habits with its cue after one more habit, when only that
      habit's group changed and it gained exactly that habit. */
  lemma GroupContentsStep(done: seq<Habit>, groups: map<string, seq<Habit>>,
                          groups': map<string, seq<Habit>>, h: Habit)
    requires forall c :: c in groups ==> groups[c] == WithCue(done, c)
    requires groups'.Keys == groups.Keys + {h.triggerCue}
    requires forall c :: c in groups' && c != h.triggerCue ==> groups'[c] == groups[c]
    requires h.triggerCue in groups' && groups'[h.triggerCue] == WithCue(done, h.triggerCue) + [h]
    ensures forall c :: c in groups' ==> groups'[c] == WithCue(done + [h], c)
  {
    forall c | c in groups' ensures groups'[c] == WithCue(done + [h], c) {
      WithCueSnoc(done, h, c);
    }
  }

  /** A habit with a cue seen before leaves the key order unchanged. */
  lemma OldCueKeys(done: seq<Habit>, keys: seq<string>, h: Habit)
    requires keys == Dedup(CuesOf(done)) && h.triggerCue in CueSet(done)
    ensures keys == Dedup(CuesOf(done + [h]))
  {
    GroupKeysStep(done, h);
  }

  /** Pushing onto the group of a listed cue counts one more habit. */
  lemma OldCueSize(done: seq<Habit>, keys: seq<string>, groups: map<string, seq<Habit>>, h: Habit)
    requires keys == Dedup(CuesOf(done)) && groups.Keys == CueSet(done) && h.triggerCue in groups
    requires GroupSize(keys, groups) == |done|
    ensures GroupSize(keys, groups[h.triggerCue := groups[h.triggerCue] + [h]]) == |done + [h]|
  {
    CuesMatchCueSet(done, h.triggerCue);
    GroupSizePush(keys, groups, h.triggerCue, h);
  }

  /** Pushing onto an existing group. */
  lemma GroupingStepOld(done: seq<Habit>, keys: seq<string>, groups: map<string, seq<Habit>>, h: Habit)
    requires GroupedSoFar(done, keys, groups) && h.triggerCue in groups
    ensures GroupedSoFar(done + [h], keys, groups[h.triggerCue := groups[h.triggerCue] + [h]])
  {
    var cue := h.triggerCue;
    var groups' := groups[cue := groups[cue] + [h]];
    OldCueKeys(done, keys, h);
    CueSetSnoc(done, h);
    assert groups'.Keys == CueSet(done + [h]);
    GroupContentsStep(done, groups, groups', h);
    OldCueSize(done, keys, groups, h);
  }

  /** Creating the group of a new cue and pushing onto it. */
  lemma GroupingStepNew(done: seq<Habit>, keys: seq<string>, groups: map<string, seq<Habit>>, h: Habit)
    requires GroupedSoFar(done, keys, groups) && h.triggerCue !in groups
    ensures var g := groups[h.triggerCue := []];
            GroupedSoFar(done + [h], keys + [h.triggerCue], g[h.triggerCue := g[h.triggerCue] + [h]])
  {
    var cue := h.triggerCue;
    var g := groups[cue := []];
    var groups' := g[cue := g[cue] + [h]];
    assert cue !in CueSet(done);
    GroupKeysStep(done, h);
    assert keys + [cue] == Dedup(CuesOf(done + [h]));
    CueSetSnoc(done, h);
    assert groups'.Keys == CueSet(done + [h]);
    WithUnusedCue(done, cue);
    GroupContentsStep(done, groups, groups', h);
    GroupSizeNew(keys, groups, h);
  }

  /** `groupHabitsByTrigger`: one group per distinct cue, keys in first-seen order, each
      group the habits with exactly that cue in input order; every habit is in exactly one
      group. Returned as the key order of the record plus the record itself. */
  method GroupHabitsByTrigger(habits: seq<Habit>) returns (keys: seq<string>, groups: map<string, seq<Habit>>)
    ensures keys == Dedup(CuesOf(habits))
    ensures groups.Keys == CueSet(habits)
    ensures forall cue :: cue in groups ==> groups[cue] == WithCue(habits, cue)
    ensures GroupSize(keys, groups) == |habits|
  {
    keys, groups := [], map[];
    for i := 0 to |habits|
      invariant GroupedSoFar(habits[..i], keys, groups)
    {
      var habit := habits[i];
      var trigger := habit.triggerCue;
      assert habits[..i + 1] == habits[..i] + [habit];
      ghost var done := habits[..i];
      if trigger !in groups {
        GroupingStepNew(done, keys, groups, habit);
        keys := keys + [trigger];
        groups := groups[trigger := []];
      } else {
        GroupingStepOld(done, keys, groups, habit);
      }
      groups := groups[trigger := groups[trigger] + [habit]];
    }
    assert habits[..|habits|] == habits;
  }

  /** Prototype members of an empty JavaScript object literal: reading one of these keys
      from `{}` yields an inherited, truthy value. */
  const ObjectPrototypeKeys: set<string> := {
    "constructor", "hasOwnProperty", "isPrototypeOf", "propertyIsEnumerable",
    "toLocaleString", "toString", "valueOf", "__proto__",
    "__defineGetter__", "__defineSetter__", "__lookupGetter__", "__lookupSetter__"}

  /** What `acc[trigger]` reads from the accumulator as written: the own group of a key
      that was assigned, an inherited member of `Object.prototype` (a truthy function or
      object, not an array), or `undefined`. */
  datatype Slot = OwnGroup(group: seq<Habit>) | InheritedMember | Undefined

  function LookupAsWritten(acc: map<string, seq<Habit>>, key: string): Slot
  {
    if key in acc then OwnGroup(acc[key])
    else if key in ObjectPrototypeKeys then InheritedMember
    else Undefined
  }

  /** Some habit's cue names a prototype member. */
  predicate HasPrototypeCue(habits: seq<Habit>)
  {
    exists h :: h in habits && h.triggerCue in ObjectPrototypeKeys
  }

  /** Appending a habit adds a prototype cue exactly when its own cue is one. */
  lemma HasPrototypeCueSnoc(done: seq<Habit>, h: Habit)
    ensures HasPrototypeCue(done + [h]) <==> HasPrototypeCue(done) || h.triggerCue in ObjectPrototypeKeys
  {
    if HasPrototypeCue(done + [h]) {
      var x :| x in done + [h] && x.triggerCue in ObjectPrototypeKeys;
      if x != h { assert x in done; }
    }
    if HasPrototypeCue(done) {
      var x :| x in done && x.triggerCue in ObjectPrototypeKeys;
      assert x in done + [h];
    }
    if h.triggerCue in ObjectPrototypeKeys { assert h in done + [h]; }
  }

  /** A prototype cue in a prefix is one in the whole list. */
  lemma PrototypeCueInPrefix(habits: seq<Habit>, n: nat)
    requires n <= |habits| && HasPrototypeCue(habits[..n])
    ensures HasPrototypeCue(habits)
  {
    var x :| x in habits[..n] && x.triggerCue in ObjectPrototypeKeys;
    assert x in habits;
  }

  /** The result of the reduce as written: the record, or the TypeError thrown by calling
      `.push` on an inherited member. */
  datatype GroupingOutcome = Grouped(keys: seq<string>, groups: map<string, seq<Habit>>) | Throws

  /** `groupHabitsByTrigger` as written, starting from `{}`: `!acc[trigger]` is false for
      an inherited member, so no group is created and the push throws. It throws exactly
      when some cue names a prototype member, and otherwise produces the same keys and
      groups as the corrected grouping. */
  method GroupHabitsByTriggerAsWritten(habits: seq<Habit>) returns (outcome: GroupingOutcome)
    ensures outcome.Throws? <==> HasPrototypeCue(habits)
    ensures outcome.Grouped? ==>
      && outcome.keys == Dedup(CuesOf(habits))
      && outcome.groups.Keys == CueSet(habits)
      && (forall cue :: cue in outcome.groups ==> outcome.groups[cue] == WithCue(habits, cue))
      && GroupSize(outcome.keys, outcome.groups) == |habits|
  {
    var keys: seq<string>, acc: map<string, seq<Habit>> := [], map[];
    for i := 0 to |habits|
      invariant GroupedSoFar(habits[..i], keys, acc)
      invariant !HasPrototypeCue(habits[..i])
    {
      var habit := habits[i];
      var trigger := habit.triggerCue;
      assert habits[..i + 1] == habits[..i] + [habit];
      ghost var done := habits[..i];
      HasPrototypeCueSnoc(done, habit);
      if LookupAsWritten(acc, trigger).Undefined? {
        GroupingStepNew(done, keys, acc, habit);
        keys := keys + [trigger];
        acc := acc[trigger := []];
      } else if trigger in acc {
        GroupingStepOld(done, keys, acc, habit);
      }
      var slot := LookupAsWritten(acc, trigger);
      if !slot.OwnGroup? {
        // `.push` of an inherited member: TypeError
        assert trigger in ObjectPrototypeKeys;
        PrototypeCueInPrefix(habits, i + 1);
        return Throws;
      }
      acc := acc[trigger := slot.group + [habit]];
    }
    assert habits[..|habits|] == habits;
    return Grouped(keys, acc);
  }
}
