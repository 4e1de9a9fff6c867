/** The focus dashboard: the "Now" stack and "Later" queue of today's habits, the
    remaining count, the emergency flag of a card, and the optimistic logging of a swipe. */
module Focus {
  import opened Types
  import opened Seqs
  import opened Utils
  import opened Store
  import opened Analytics

  // ---------------------------------------------------------------------------
  // Now and Later

  /** The "Now" stack: today's habits of the current block. */
  function NowHabits(habits: seq<Habit>, block: TimeOfDay, today: Day): (r: seq<Habit>)
    ensures forall h :: h in r <==> h in habits && h.timeOfDay == block && IsScheduledOn(h, today)
  {
    HabitsForTimeBlock(habits, block, today)
  }

  /** The "Later" queue: today's habits of the other blocks, in roster order. */
  function LaterHabits(habits: seq<Habit>, block: TimeOfDay, today: Day): (r: seq<Habit>)
    ensures forall h :: h in r <==> h in habits && h.timeOfDay != block && IsScheduledOn(h, today)
  {
    Filter(habits, (h: Habit) => h.timeOfDay != block && !h.archived && WeekdayOf(today) in h.frequency)
  }

  /** Now and Later share no habit, and together they hold every habit scheduled today
      exactly as often as the roster does. */
  lemma NowLaterPartition(habits: seq<Habit>, block: TimeOfDay, today: Day)
    ensures forall h :: !(h in NowHabits(habits, block, today) && h in LaterHabits(habits, block, today))
    ensures multiset(NowHabits(habits, block, today)) + multiset(LaterHabits(habits, block, today))
         == multiset(ScheduledOn(habits, today))
  {
    FilterSplit(habits,
      (h: Habit) => IsScheduledOn(h, today),
      (h: Habit) => h.timeOfDay == block && WeekdayOf(today) in h.frequency && !h.archived,
      (h: Habit) => h.timeOfDay != block && !h.archived && WeekdayOf(today) in h.frequency);
  }

  /** The habits of the stack not yet completed today. */
  function Pending(now: seq<Habit>, logs: seq<HabitLog>, today: Day): (r: seq<Habit>)
    ensures forall h :: h in r <==> h in now && !IsCompletedToday(logs, h.id, today)
  {
    Filter(now, (h: Habit) => !IsCompletedToday(logs, h.id, today))
  }

  /** `remainingCount`: how many habits of the stack are not completed today. */
  function RemainingCount(habits: seq<Habit>, logs: seq<HabitLog>, block: TimeOfDay, today: Day): (n: nat)
    ensures n <= |NowHabits(habits, block, today)|
    ensures n == |Pending(NowHabits(habits, block, today), logs, today)|
  {
    |Pending(NowHabits(habits, block, today), logs, today)|
  }

  /** `allNowCompleted`: every habit of the stack is completed today (true of an empty
      stack). */
  function AllNowCompleted(habits: seq<Habit>, logs: seq<HabitLog>, block: TimeOfDay, today: Day): (won: bool)
    ensures won <==> forall h :: h in NowHabits(habits, block, today) ==> IsCompletedToday(logs, h.id, today)
  {
    All(NowHabits(habits, block, today), (h: Habit) => IsCompletedToday(logs, h.id, today))
  }

  /** The "Won" banner shows exactly when nothing remains. */
  lemma AllNowCompletedIffNoneRemaining(habits: seq<Habit>, logs: seq<HabitLog>, block: TimeOfDay, today: Day)
    ensures AllNowCompleted(habits, logs, block, today) <==> RemainingCount(habits, logs, block, today) == 0
  {
    var pending := Pending(NowHabits(habits, block, today), logs, today);
    assert pending == [] || pending[0] in pending;
  }

  /** A card's emergency mode: the habit missed yesterday and is not completed today. */
  predicate EmergencyMode(logs: seq<HabitLog>, habitId: string, today: Day): (urgent: bool)
    ensures urgent <==>
      (exists l :: l in logs && l.habitId == habitId && l.completedAt == today - 1 && l.status != Completed)
      && !(exists l :: l in logs && l.habitId == habitId && l.completedAt == today && l.status == Completed)
  {
    DidMissYesterday(logs, habitId, today) && !IsCompletedToday(logs, habitId, today)
  }

  // ---------------------------------------------------------------------------
  // Optimistic logging

  /** The friction modal's state. */
  datatype FrictionModal = FrictionModal(show: bool, habitId: string)

  const ClosedModal := FrictionModal(false, "")

  function Digit(d: nat): char
    requires d < 10
  {
    "0123456789"[d]
  }

  /** The decimal form of a number, as template literals print it. */
  function NatToString(n: nat): (s: string)
    ensures |s| >= 1
  {
    if n < 10 then [Digit(n)] else NatToString(n / 10) + [Digit(n % 10)]
  }

  /** The optimistic log of a swipe at `nowMillis` on day `today`: a temporary id, the
      habit, the status and no note. */
  function TempLog(habitId: string, status: Status, nowMillis: nat, today: Day): (l: HabitLog)
    ensures l.habitId == habitId && l.status == status && l.completedAt == today && l.notes.None?
    ensures |l.id| > 5 && l.id[..5] == "temp-"
  {
    HabitLog("temp-" + NatToString(nowMillis), habitId, today, status, None)
  }

  /** Completing a habit today ends its emergency mode. */
  lemma CompletingEndsEmergency(logs: seq<HabitLog>, habitId: string, nowMillis: nat, today: Day)
    ensures !EmergencyMode(logs + [TempLog(habitId, Completed, nowMillis, today)], habitId, today)
  {
    var l := TempLog(habitId, Completed, nowMillis, today);
    assert l in logs + [l];
  }

  /** Completing a habit today extends its streak by one day, unless today already had
      a completion. */
  lemma CompletingExtendsStreak(logs: seq<HabitLog>, habitId: string, nowMillis: nat, today: Day)
    ensures Streak(logs + [TempLog(habitId, Completed, nowMillis, today)], habitId, today)
         == Streak(logs, habitId, today) + (if IsCompletedToday(logs, habitId, today) then 0 else 1)
  {
    CompletedTodayAnchorsStreak(logs, habitId, today);
    StreakAfterCompletingToday(logs, habitId, today, TempLog(habitId, Completed, nowMillis, today));
  }

  /** Completing a habit never raises the remaining count, and lowers it when a habit of
      the stack with that id was still pending. */
  lemma CompletingLowersRemaining(habits: seq<Habit>, logs: seq<HabitLog>, habitId: string,
                                  block: TimeOfDay, nowMillis: nat, today: Day)
    ensures var logs' := logs + [TempLog(habitId, Completed, nowMillis, today)];
            RemainingCount(habits, logs', block, today) <= RemainingCount(habits, logs, block, today)
    ensures var logs' := logs + [TempLog(habitId, Completed, nowMillis, today)];
            (exists h :: h in Pending(NowHabits(habits, block, today), logs, today) && h.id == habitId)
            ==> RemainingCount(habits, logs', block, today) < RemainingCount(habits, logs, block, today)
  {
    var l := TempLog(habitId, Completed, nowMillis, today);
    var logs' := logs + [l];
    var now := NowHabits(habits, block, today);
    assert l in logs';
    assert forall h: Habit :: !IsCompletedToday(logs', h.id, today) ==> !IsCompletedToday(logs, h.id, today);
    FilterStronger(now,
      (h: Habit) => !IsCompletedToday(logs, h.id, today),
      (h: Habit) => !IsCompletedToday(logs', h.id, today));
  }

  /** Logging a failure today puts the habit among tomorrow's misses. */
  lemma FailingIsMissedTomorrow(logs: seq<HabitLog>, habitId: string, nowMillis: nat, today: Day)
    ensures DidMissYesterday(logs + [TempLog(habitId, Failed, nowMillis, today)], habitId, today + 1)
  {
    var l := TempLog(habitId, Failed, nowMillis, today);
    assert l in logs + [l];
  }

  /** The dashboard: the shared store and the friction modal. */
  class Dashboard {
    const store: HabitStore
    var friction: FrictionModal

    constructor (store: HabitStore)
      ensures this.store == store && friction == ClosedModal
    {
      this.store := store;
      friction := ClosedModal;
    }

    /** `handleComplete` up to the network: a skip opens the friction modal for the habit
        and logs nothing; any other status appends exactly one temporary log. */
    method HandleComplete(habitId: string, status: Status, nowMillis: nat, today: Day)
      modifies this, store
      ensures status == Skipped ==> friction == FrictionModal(true, habitId) && store.logs == old(store.logs)
      ensures status != Skipped ==>
        friction == old(friction) && store.logs == old(store.logs) + [TempLog(habitId, status, nowMillis, today)]
      ensures store.habits == old(store.habits) && store.loading == old(store.loading)
    {
      if status == Skipped {
        friction := FrictionModal(true, habitId);
        return;
      }
      var tempLog := TempLog(habitId, status, nowMillis, today);
      store.AddLog(tempLog);
    }

    /** The modal's Cancel button. */
    method CancelFriction()
      modifies this
      ensures friction == ClosedModal
    {
      friction := ClosedModal;
    }

    /** `handleFrictionSubmit` up to the network, as written: it calls `handleComplete`
        with "skipped", which only reopens the modal, so no skip is ever logged. */
    method SubmitFrictionAsWritten(reason: string, nowMillis: nat, today: Day)
      modifies this, store
      ensures store.logs == old(store.logs) && friction == ClosedModal
      ensures store.habits == old(store.habits) && store.loading == old(store.loading)
    {
      HandleComplete(friction.habitId, Skipped, nowMillis, today);
      friction := ClosedModal;
    }

    /** The friction submission as intended: one skipped log of the modal's habit carrying
        the reason (or the placeholder for an empty one), then the modal closes. */
    method SubmitFriction(reason: string, nowMillis: nat, today: Day)
      modifies this, store
      ensures store.logs == old(store.logs) + [SkipLog(old(friction.habitId), reason, nowMillis, today)]
      ensures friction == ClosedModal
      ensures store.habits == old(store.habits) && store.loading == old(store.loading)
    {
      store.AddLog(SkipLog(friction.habitId, reason, nowMillis, today));
      friction := ClosedModal;
    }
  }

  /** The text saved when the reason box is left empty. */
  const NoReason := "No reason provided"

  /** The skipped log a friction submission is meant to record. */
  function SkipLog(habitId: string, reason: string, nowMillis: nat, today: Day): (l: HabitLog)
    ensures l.habitId == habitId && l.status == Skipped && l.completedAt == today
    ensures l.notes == Some(if reason == "" then NoReason else reason)
  {
    HabitLog("temp-" + NatToString(nowMillis), habitId, today, Skipped,
      Some(if reason == "" then NoReason else reason))
  }

  /** As written, a habit with no log today gets no reflection prompt after its friction is
      submitted, although a skip was reported. */
  lemma FrictionAsWrittenLeavesNoPrompt(logs: seq<HabitLog>, habitId: string, today: Day)
    requires forall l :: l in logs ==> !(l.habitId == habitId && l.completedAt == today)
    ensures !NeedsReflection(logs, habitId, today)
  {
  }

  /** With the skip recorded, the habit gets a reflection prompt today, a miss tomorrow, and
      its streak is untouched. */
  lemma RecordedSkipPromptsReflection(logs: seq<HabitLog>, habitId: string, reason: string,
                                      nowMillis: nat, today: Day)
    ensures var logs' := logs + [SkipLog(habitId, reason, nowMillis, today)];
            NeedsReflection(logs', habitId, today) && DidMissYesterday(logs', habitId, today + 1)
    ensures var logs' := logs + [SkipLog(habitId, reason, nowMillis, today)];
            Streak(logs', habitId, today) == Streak(logs, habitId, today)
  {
    var l := SkipLog(habitId, reason, nowMillis, today);
    assert l in logs + [l];
    CompletedDaysSnoc(logs, habitId, l);
  }
}
