# Habit tracker core, modelled in Dafny

This project models the core of a habit-tracking web app that follows James Clear's conventions.
A user defines habits, and each habit has:

- a trigger cue;
- a time block: morning, afternoon or evening;
- a weekly schedule, a category and a "two-minute rule" flag.

The user logs each day's outcome for a habit as completed, skipped or failed.
The app can be described as five parts:

- **Derived-metric library** (`utils.dfy`, module `Utils`). It provides:
  - the greeting and the time block of the local hour;
  - a habit's streak and the current overall streak;
  - the day's progress percentage;
  - the "Now"-block selection;
  - the missed-yesterday and completed-today predicates;
  - grouping habits by trigger cue.
- **Analytics view** (`analytics.dfy`, module `Analytics`). It provides:
  - per-habit completion rates;
  - the year-to-date consistency heatmap and its five colour tiers;
  - the reflection prompts.
- **Client store** (`store.dfy`, module `Store`). The class `HabitStore` holds the habits, the logs and a loading flag. Its setters replace or append, and `updateLog` merges a partial record into the logs with a given id.
- **Focus dashboard** (`focus.dfy`, module `Focus`). It covers:
  - the "Now" stack and the "Later" queue;
  - the remaining count and the "Won" banner;
  - a card's emergency mode;
  - the class `Dashboard`, which does the optimistic logging of a swipe and handles the friction modal of a skip.
- **Habit architect** (`architect.dfy`, module `Architect`). The class `HabitWizard` is the three-step creation wizard: its fields, its buttons and its submission.

`types.dfy` (module `Types`) holds the records `Habit` and `HabitLog`, the enumerations, and a calendar.
The calendar counts days as integers from 1970-01-01, which was a Thursday.
`seqs.dfy` (module `Seqs`) holds the array combinators the code is written with, as functions on sequences with their lemmas:

- `filter`, `some`, `every` and `find`;
- duplicate removal;
- the descending sort.

The wall clock is always a parameter:

- `hour` is the local hour;
- `today` is the local calendar day;
- `nowMillis` is `Date.now()`.

Every timestamp is stored as the local calendar day it falls on.

Each operation is specified against a reference definition, and the lemmas connect the two:

- The streak is specified by `Streak`: the length of the run of completed days that ends at the anchor. The anchor is today if today has a completion, and yesterday otherwise. The `calculateStreak` loop is proved to compute exactly that length.
- The grouping is specified, for each cue, by the habits that carry that cue in input order. The keys are the distinct cues in first-seen order.
- Rates, heatmap squares and progress are exact rationals, related to each other by lemmas.
- The store's `updateLog` is `PatchLogs` on the old logs. That function is idempotent for a patch that keeps the id, and it distributes over appending.

## Model

| member | source | states |
|---|---|---|
| Types.WeekFrom | lib/utils.ts:76-77 | the codes of seven consecutive days, the k-th being the code of day d + k |
| Types.WeekCoversAllCodes | lib/utils.ts:76-77 | any seven consecutive days carry all seven weekday codes |
| Utils.TimeOfDayAt | lib/utils.ts:11-16 | morning exactly before 12, afternoon exactly from 12 to before 17, evening exactly from 17 |
| Utils.TimeOfDayMonotone | lib/utils.ts:11-16 | a later hour never falls in an earlier block |
| Utils.GreetingAt | lib/utils.ts:4-9 | the greeting always names the block that `getTimeOfDay` gives for the same hour |
| Utils.RunLength | lib/utils.ts:43-55 | the run length is at most the number of days; every day of the run is present, and the day before the run is missing |
| Utils.StreakDays | lib/utils.ts:19-26 | the walked list is most recent first |
| Utils.StreakDaysAreCompletedDays | lib/utils.ts:19-26 | the walked list holds exactly the days on which the habit has a completed log |
| Utils.CalculateStreak | lib/utils.ts:18-58 | the value returned is the reference streak: the run of completed days ending today, or ending yesterday when today has no completion |
| Utils.WalkBack | lib/utils.ts:43-55 | walking a most-recent-first list counts exactly the unbroken run of listed days ending at the start day |
| Utils.StreakOfWalk | lib/utils.ts:28-41 | any count whose days are all present and whose next day is missing, taken at today-or-yesterday, is the streak |
| Utils.MissingFromDescending | lib/utils.ts:50-52 | once the walk meets a day older than the expected one, the expected day occurs nowhere in the list |
| Utils.RunLengthUnique | lib/utils.ts:43-55 | the run length is the only count with all days present and the next day missing |
| Utils.StreakWithoutCompletions | lib/utils.ts:28 | a habit without a completed log has streak 0, whatever its skipped or failed logs |
| Utils.StreakUsesOnlyOwnCompletions | lib/utils.ts:19-20 | dropping every log that is not a completion of the habit leaves the streak unchanged |
| Utils.StreakCountsDayOnce | lib/utils.ts:22-25 | a second completion on an already completed day does not change the streak |
| Utils.CompletedDaysSnoc | lib/utils.ts:19-21 | appending a log adds its day to the completed days exactly when it is a completion of the habit |
| Utils.StreakAfterCompletingToday | lib/utils.ts:31-41 | completing today adds one to the streak, or nothing if today was already completed; a run ending yesterday is extended, not restarted |
| Utils.StreakIsRunAtAnchor | lib/utils.ts:43-55 | a run of n present days ending at the anchor gives a streak of at least n, and exactly n if the day before it is missing |
| Utils.GetCurrentStreak | lib/utils.ts:60-70 | 0 without logs; otherwise a value no larger than the streak of any logged habit and equal to one of those streaks |
| Utils.MinimumOverIds | lib/utils.ts:61-69 | the minimum over the deduplicated log ids is the minimum over the logs' habits, and there is none exactly when there are no logs |
| Utils.HabitIdsCoverLogs | lib/utils.ts:61 | the id set holds every logged habit id and nothing else |
| Utils.ScheduledOn | lib/utils.ts:75-78 | exactly the non-archived habits whose frequency lists the day's code |
| Utils.ScheduledWithinAWeek | lib/utils.ts:75-78 | a non-archived habit with at least one day in its frequency is scheduled on some day of any seven consecutive days |
| Utils.CompletedOn | lib/utils.ts:74 | exactly the completed logs dated that day, of any habit |
| Utils.Percent | lib/utils.ts:81 | the percentage times the whole is 100 times the part |
| Utils.PercentBounds | lib/utils.ts:81 | the percentage is at most 100 iff part ≤ whole, is 100 iff they are equal, and is 0 iff the part is 0 |
| Utils.DayProgress | lib/utils.ts:72-82 | 0 when nothing is scheduled today; otherwise today's completed logs as a percentage of today's scheduled habits |
| Utils.DayProgressFull | lib/utils.ts:80-81 | progress is at most 100 exactly while completions do not outnumber scheduled habits, and is 100 exactly when the counts match |
| Utils.HabitsForTimeBlock | lib/utils.ts:84-97 | exactly the input habits of the block that are scheduled today, never more than the input |
| Utils.HabitsForTimeBlockKeepsOrder | lib/utils.ts:91-96 | the selection keeps the roster's order: selecting from a concatenation concatenates the selections |
| Utils.DidMissYesterday | lib/utils.ts:99-111 | true iff some log of the habit dated yesterday is not completed; no log at all is not a miss |
| Utils.IsCompletedToday | lib/utils.ts:113-120 | true iff some log of the habit dated today is completed |
| Utils.CompletedTodayAnchorsStreak | lib/utils.ts:31-41 | completed today iff today is a streak day, and then the streak is at least 1 |
| Utils.WithCueMembers | lib/utils.ts:122-131 | the group of a cue holds exactly the habits carrying that cue |
| Utils.GroupSizePush | lib/utils.ts:128 | pushing onto an existing group adds one to the total size |
| Utils.GroupSizeNew | lib/utils.ts:125-128 | creating a new group and pushing onto it adds one to the total size |
| Utils.CuesMatchCueSet | lib/utils.ts:124 | the cue list and the cue set hold the same cues |
| Utils.GroupKeysStep | lib/utils.ts:125-127 | a new cue appends a key, and a cue seen before changes no key |
| Utils.WithUnusedCue | lib/utils.ts:125-126 | an unused cue has an empty group |
| Utils.GroupContentsStep | lib/utils.ts:128 | each group is still the habits of its cue once the new habit is pushed onto its own cue's group only |
| Utils.OldCueKeys | lib/utils.ts:125 | a cue seen before leaves the key order unchanged |
| Utils.OldCueSize | lib/utils.ts:128 | pushing onto an existing group counts one more habit |
| Utils.GroupingStepOld | lib/utils.ts:123-129 | one step of the reduce on a cue seen before keeps the grouping invariant |
| Utils.GroupingStepNew | lib/utils.ts:123-129 | one step of the reduce on a new cue keeps the grouping invariant |
| Utils.GroupHabitsByTrigger | lib/utils.ts:122-131 | the keys are the distinct cues in first-seen order; each group is the habits with exactly that cue, in input order; the groups hold every habit exactly once in total |
| Utils.GroupHabitsByTriggerAsWritten | lib/utils.ts:122-131 | the reduce as written, where a lookup in the accumulator finds an inherited member for a cue such as "toString": it throws exactly when some habit's cue names a member inherited by an empty object, and otherwise yields the same keys in first-seen order and the same per-cue groups as the corrected grouping, holding every habit once |
| Analytics.LogsOf | components/AnalyticsView.tsx:15 | exactly the logs of the habit, of any status |
| Analytics.RateOfSnoc | components/AnalyticsView.tsx:15-17 | with no logs both counts are 0; appending a log adds one to `total` exactly when it belongs to the habit, and one to `completed` exactly when it belongs to the habit and is completed |
| Analytics.RateOf | components/AnalyticsView.tsx:15-22 | `total` counts the habit's logs and `completed` is no more than `total`; the rate is 0 with no logs and the completed percentage otherwise, always between 0 and 100 |
| Analytics.RateExtremes | components/AnalyticsView.tsx:16-21 | for a habit with logs: 100% iff every one of its logs is completed, 0% iff none is |
| Analytics.RateIgnoresOtherHabits | components/AnalyticsView.tsx:15 | a log of another habit changes nothing in a habit's rate |
| Analytics.CompletionRates | components/AnalyticsView.tsx:11-26 | keys are exactly the habit ids, and each entry is that habit's rate |
| Analytics.Ratio | components/AnalyticsView.tsx:45 | the ratio is non-negative, and times the whole it gives the part |
| Analytics.RatioBounds | components/AnalyticsView.tsx:45 | the ratio is 0 iff the part is 0, at least 3/4 iff 4·part ≥ 3·whole, and at most 1 iff part ≤ whole |
| Analytics.RatioAgainst | components/AnalyticsView.tsx:45 | comparing the ratio with a bound is comparing the part with the bound times the whole |
| Analytics.PercentIsRatio | lib/utils.ts:81 | the progress percentage is the heatmap ratio scaled by 100 |
| Analytics.CellFor | components/AnalyticsView.tsx:33-46 | the square's count is the day's completed logs and its total the habits scheduled that day; the intensity is their ratio, or 0 with nothing scheduled |
| Analytics.Heatmap | components/AnalyticsView.tsx:28-48 | one square per day from the year's start to today inclusive, in ascending date order; empty when the interval is empty |
| Analytics.HeatmapExtends | components/AnalyticsView.tsx:31 | one more day adds exactly its own square at the end |
| Analytics.IntensityAtMostOne | components/AnalyticsView.tsx:45 | the intensity is at most 1 exactly when completions do not outnumber scheduled habits; it is not clamped |
| Analytics.TodayCellIsDayProgress | components/AnalyticsView.tsx:45 | today's square and the dashboard's progress agree: intensity × 100 equals the progress |
| Analytics.DailyHabitScheduled | components/AnalyticsView.tsx:36-39 | a non-archived habit scheduled every weekday counts on every day |
| Analytics.SingleCompletion | components/AnalyticsView.tsx:34-35 | a completed log counts only on its own day |
| Analytics.ThreeDayHeatmap | components/AnalyticsView.tsx:28-48 | a daily habit completed only on the middle of three days gives intensities 0, 1, 0 |
| Analytics.IntensityColor | components/AnalyticsView.tsx:50-56 | blank exactly at intensity 0; top tier exactly from 0.75 |
| Analytics.IntensityColorMonotone | components/AnalyticsView.tsx:50-56 | a higher intensity never gets a lower tier |
| Analytics.IntensityColorTiers | components/AnalyticsView.tsx:50-56 | the five tiers are 0, (0,0.25), [0.25,0.5), [0.5,0.75) and [0.75,∞) |
| Analytics.CellColor | components/AnalyticsView.tsx:45-56 | a square is blank iff the day had no completion or nothing scheduled; with something scheduled it is in the top tier iff completions are at least three quarters of it |
| Analytics.NeedsReflection | components/AnalyticsView.tsx:141-146 | true iff some log of the habit dated today is not completed |
| Analytics.ReflectionPrompts | components/AnalyticsView.tsx:140-146 | exactly the habits, archived ones included, that need a reflection today |
| Analytics.ShowsAllCompletedMessage | components/AnalyticsView.tsx:165-174 | the message shows exactly when no habit needs a reflection |
| Analytics.PromptNote | components/AnalyticsView.tsx:148-160 | a note is shown iff the first log of the habit dated today has a non-empty note, and the note shown is never empty |
| Analytics.ReflectionIsTomorrowsMiss | components/AnalyticsView.tsx:141-146 | today's reflection predicate is tomorrow's missed-yesterday predicate |
| Store.ApplyPatch | lib/store.ts:27 | each field present in the patch wins, and every other field keeps the log's value |
| Store.ApplyPatchIdempotent | lib/store.ts:27 | merging a patch twice is merging it once |
| Store.EmptyPatchIsIdentity | lib/store.ts:27 | the empty patch changes nothing |
| Store.PatchLogs | lib/store.ts:26-28 | same length; every log with the id is merged and every other log is kept, in place |
| Store.PatchAbsentId | lib/store.ts:24-29 | an id no log carries leaves the logs unchanged |
| Store.PatchLogsIdempotent | lib/store.ts:24-29 | for a patch that keeps the id, updating twice is updating once |
| Store.PatchLogsAppend | lib/store.ts:26-28 | the update distributes over appending logs |
| Store.HabitStore.constructor | lib/store.ts:16-19 | no habits, no logs, not loading |
| Store.HabitStore.SetHabits | lib/store.ts:20 | replaces the habits and nothing else |
| Store.HabitStore.SetLogs | lib/store.ts:21 | replaces the logs and nothing else |
| Store.HabitStore.AddHabit | lib/store.ts:22 | appends exactly the habit at the end, and nothing else changes |
| Store.HabitStore.AddLog | lib/store.ts:23 | appends exactly the log at the end, and nothing else changes |
| Store.HabitStore.UpdateLog | lib/store.ts:24-29 | the logs become the patched old logs, and habits and flag are unchanged |
| Store.HabitStore.SetLoading | lib/store.ts:30 | replaces the flag and nothing else |
| Focus.NowHabits | components/FocusDashboard.tsx:28-29 | exactly the habits of the current block that are scheduled today |
| Focus.LaterHabits | components/FocusDashboard.tsx:30-35 | exactly the habits of the other blocks that are scheduled today |
| Focus.NowLaterPartition | components/FocusDashboard.tsx:29-35 | Now and Later are disjoint, and together they hold every habit scheduled today exactly as often as the roster does |
| Focus.Pending | components/FocusDashboard.tsx:39 | exactly the stack's habits not completed today |
| Focus.RemainingCount | components/FocusDashboard.tsx:39 | the number of pending habits of the stack, never more than the stack |
| Focus.AllNowCompleted | components/FocusDashboard.tsx:98 | true iff every habit of the stack is completed today |
| Focus.AllNowCompletedIffNoneRemaining | components/FocusDashboard.tsx:39-98 | the "Won" banner shows exactly when the remaining count is 0 |
| Focus.NatToString | components/FocusDashboard.tsx:49 | the decimal form is never empty |
| Focus.TempLog | components/FocusDashboard.tsx:48-53 | the optimistic log has an id starting with "temp-", carries the habit and the status, is dated today and has no note |
| Focus.EmergencyMode | components/FocusDashboard.tsx:141 | the card is in emergency mode exactly when the habit has a non-completed log dated yesterday and no completed log dated today |
| Focus.CompletingEndsEmergency | components/FocusDashboard.tsx:141 | after a completion today the card leaves emergency mode |
| Focus.CompletingExtendsStreak | components/FocusDashboard.tsx:48-54 | a completion today adds one day to the habit's streak, unless today was already completed |
| Focus.CompletingLowersRemaining | components/FocusDashboard.tsx:39-54 | a completion never raises the remaining count, and lowers it when a pending stack habit has that id |
| Focus.FailingIsMissedTomorrow | components/FocusDashboard.tsx:48-54 | a failure logged today is a miss tomorrow |
| Focus.Dashboard.constructor | components/FocusDashboard.tsx:23-26 | the modal starts closed |
| Focus.Dashboard.HandleComplete | components/FocusDashboard.tsx:41-54 | a skip opens the modal for the habit and logs nothing; any other status appends exactly one optimistic log and leaves the modal alone |
| Focus.Dashboard.CancelFriction | components/FocusDashboard.tsx:188 | the modal closes |
| Focus.Dashboard.SubmitFrictionAsWritten | components/FocusDashboard.tsx:78-95 | as written the logs are unchanged: no skip is recorded, and the modal closes |
| Focus.Dashboard.SubmitFriction | components/FocusDashboard.tsx:78-95 | as intended, exactly one skipped log of the modal's habit is appended, carrying the reason; then the modal closes |
| Focus.SkipLog | components/FocusDashboard.tsx:194-197 | the skip is dated today; its note is the reason, or "No reason provided" for an empty one |
| Focus.FrictionAsWrittenLeavesNoPrompt | components/FocusDashboard.tsx:78-95 | as written, a habit with no log today gets no reflection prompt after its friction is submitted |
| Focus.RecordedSkipPromptsReflection | components/FocusDashboard.tsx:78-95 | with the skip recorded, the habit gets a prompt today and a miss tomorrow, and its streak is unchanged |
| Architect.InitialFormEveryDay | components/HabitArchitect.tsx:13-20 | the fresh form schedules every day, each weekday listed once |
| Architect.ToggleDay | components/HabitArchitect.tsx:196-200 | the toggled day's membership flips, and every other day's membership is unchanged |
| Architect.ToggleDayKeepsDistinct | components/HabitArchitect.tsx:196-200 | toggling never introduces a duplicate day |
| Architect.ToggleDayTwice | components/HabitArchitect.tsx:196-200 | toggling twice restores the days, and restores the schedule exactly when the day was absent |
| Architect.RowFor | components/HabitArchitect.tsx:51-54 | the inserted row is the form's fields plus the user's id |
| Architect.HabitWizard.constructor | components/HabitArchitect.tsx:12-21 | step 1, the initial form, not loading |
| Architect.HabitWizard.Next | components/HabitArchitect.tsx:99-101 | step 1 advances only with a name, step 2 only with a cue, and the form is unchanged (lines 153-154 for step 2) |
| Architect.HabitWizard.Back | components/HabitArchitect.tsx:147 | goes one step back (line 236 for step 3) and keeps the form |
| Architect.HabitWizard.SetTitle | components/HabitArchitect.tsx:95 | only the name changes |
| Architect.HabitWizard.SetTriggerCue | components/HabitArchitect.tsx:122 | only the cue changes |
| Architect.HabitWizard.SetTimeOfDay | components/HabitArchitect.tsx:132-137 | only the block changes |
| Architect.HabitWizard.SetTwoMinuteRule | components/HabitArchitect.tsx:175-177 | only the two-minute flag changes |
| Architect.HabitWizard.ToggleFrequencyDay | components/HabitArchitect.tsx:196-200 | only the schedule changes, by toggling the day |
| Architect.HabitWizard.SetCategory | components/HabitArchitect.tsx:221 | only the category changes |
| Architect.HabitWizard.CreateDisabled | components/HabitArchitect.tsx:242-243 | the Create button's guard: disabled iff a submission is running or no day is selected; `Submit` runs only while it is enabled |
| Architect.HabitWizard.Submit | components/HabitArchitect.tsx:25-77 | a form without name or cue is refused and nothing is sent; otherwise the row is sent only for a signed-in user, only a successful insert resets to the initial form at step 1, the loading flag ends off, from step 3 the form is never refused, a row without any day is never sent, and the button is enabled again afterwards |

## Left out

- Network and authentication are parameters or not modelled. This covers the Supabase insert and update calls, `auth.getUser` (modelled as an `AuthAnswer` parameter) and the insert's success (a boolean).
- After a successful insert, replacing the temporary log id with the server's id (components/FocusDashboard.tsx:56-70) is not modelled. `Focus.Dashboard.HandleComplete` ends with the optimistic `AddLog`, so the temporary id stays.
- `Focus.Dashboard.SubmitFriction`: the server `update` of `notes` for the latest log today is not modelled. The corrected method records the note on the log it appends.
- `Focus.Dashboard.SubmitFrictionAsWritten`: the `latestLog` lookup is not modelled, because it only feeds the network update.
- The reload after a habit is created is left out. `onComplete` is the page's `loadData` (app/page.tsx:100), which fetches the habits and logs again and calls `setHabits` (app/page.tsx:21-37), so the new habit reaches the store there. The `alert` calls are left out too.
- Architect.HabitWizard.Submit: it is one atomic step in the model. The source awaits twice, for the user (components/HabitArchitect.tsx:37) and the insert (line 49), and meanwhile Back (line 236) and the field handlers stay enabled. Edits made during those waits are not modelled.
- Time is not modelled:
  - Time zones, daylight-saving transitions and ISO timestamp parsing.
  - Every `completed_at` is taken as the local calendar day it falls on.
  - `startOfYear` is the parameter `yearStart`.
- Floating point: JavaScript numbers are exact reals here. This affects `Math.round` of the rate in the view, IEEE rounding of `completed / total` and the 0.25/0.5/0.75 thresholds.
- `Utils.DayProgress` and `Analytics.CellFor` are not clamped to [0, 100] and [0, 1], because the code divides all of the day's completed logs by the habits scheduled that day. The model follows the code.
- Rendering is not modelled: JSX, `HabitCard`, `ProgressCircle`, swipe gestures and the percentage-bar colours.
- The grouping record's key order is first-seen order. JavaScript enumerates integer-like keys first, and that is not modelled.
- The `Partial<HabitLog>` given to `updateLog` cannot hold a field that is present but `undefined`.
- Temporary log ids built in the same millisecond can collide. The model does not rule that out, and no property depends on unique ids.
- `Utils.GetCurrentStreak` enumerates the ids in first-seen order, as a `Set` does; only the minimum is stated.

## Findings

| source | as written | input that shows it | evidently intended | confidence | as-written member | corrected member |
|---|---|---|---|---|---|---|
| lib/utils.ts:122-131 | the accumulator `{}` inherits `Object.prototype`, so `acc[trigger]` is already truthy for a cue such as "toString", and `.push` is called on a function, which throws a TypeError | one habit whose `trigger_cue` is "toString" | one group per cue for every cue string, e.g. by accumulating into `Object.create(null)` or a `Map` | not executed | Utils.GroupHabitsByTriggerAsWritten | Utils.GroupHabitsByTrigger |
| components/FocusDashboard.tsx:78-95 | `handleFrictionSubmit` calls `handleComplete(id, 'skipped')`, which only reopens the modal (lines 42-45), so no skipped log is ever recorded; the notes update then targets whatever log of the habit already exists today, if any | a left swipe on a habit with no log today, then Submit | record one skipped log carrying the reason, so that it shows as a reflection prompt and a miss tomorrow | not executed | Focus.Dashboard.SubmitFrictionAsWritten, Focus.FrictionAsWrittenLeavesNoPrompt | Focus.Dashboard.SubmitFriction, Focus.RecordedSkipPromptsReflection |
