/** The habit architect: a three-step wizard that collects a habit's name, trigger cue,
    block, schedule, category and two-minute rule, and submits it. */
module Architect {
  import opened Types
  import opened Seqs

  /** The wizard's form. */
  datatype FormData = FormData(
    title: string,
    triggerCue: string,
    timeOfDay: TimeOfDay,
    frequency: seq<Weekday>,
    category: Category,
    twoMinuteRule: bool)

  /** The form the wizard starts from and returns to after a creation. */
  const InitialForm := FormData("", "", Morning, AllWeekdays, Health, false)

  /** The fresh form schedules the habit on every day, each weekday listed once. */
  lemma InitialFormEveryDay()
    ensures forall d: Day :: WeekdayOf(d) in InitialForm.frequency
    ensures |InitialForm.frequency| == 7 && Distinct(InitialForm.frequency)
  {
  }

  /** A day button of step 3: removes the day when the schedule has it, appends it
      otherwise. */
  function ToggleDay(frequency: seq<Weekday>, day: Weekday): (r: seq<Weekday>)
    ensures day in r <==> day !in frequency
    ensures forall d :: d != day ==> (d in r <==> d in frequency)
  {
    if day in frequency then Filter(frequency, (d: Weekday) => d != day) else frequency + [day]
  }

  /** Toggling never introduces a duplicate day. */
  lemma ToggleDayKeepsDistinct(frequency: seq<Weekday>, day: Weekday)
    requires Distinct(frequency)
    ensures Distinct(ToggleDay(frequency, day))
  {
    if day in frequency {
      FilterDistinct(frequency, (d: Weekday) => d != day);
    } else {
      DistinctSnoc(frequency, day);
    }
  }

  /** Toggling a day twice restores the schedule's days; from a schedule without the day
      it restores the schedule exactly. */
  lemma ToggleDayTwice(frequency: seq<Weekday>, day: Weekday)
    ensures forall d :: d in ToggleDay(ToggleDay(frequency, day), day) <==> d in frequency
    ensures day !in frequency ==> ToggleDay(ToggleDay(frequency, day), day) == frequency
  {
    if day !in frequency {
      FilterAppend(frequency, [day], (d: Weekday) => d != day);
      FilterAll(frequency, (d: Weekday) => d != day);
      assert Filter([day], (d: Weekday) => d != day) == [];
    }
  }

  /** The result of pressing "Create Habit". */
  datatype Outcome = MissingFields | NotSignedIn | CreateFailed | Created

  /** The answer of the authentication service. */
  datatype AuthAnswer = AuthError | NoUser | User(id: string)

  /** The row sent for insertion: the form's fields and the user's id. */
  datatype NewHabit = NewHabit(
    userId: string,
    title: string,
    triggerCue: string,
    timeOfDay: TimeOfDay,
    frequency: seq<Weekday>,
    category: Category,
    twoMinuteRule: bool)

  function RowFor(form: FormData, userId: string): (row: NewHabit)
    ensures row.userId == userId && row.title == form.title && row.triggerCue == form.triggerCue
    ensures row.timeOfDay == form.timeOfDay && row.frequency == form.frequency
    ensures row.category == form.category && row.twoMinuteRule == form.twoMinuteRule
  {
    NewHabit(userId, form.title, form.triggerCue, form.timeOfDay, form.frequency, form.category, form.twoMinuteRule)
  }

  /** The wizard's state. */
  class HabitWizard {
    var step: nat
    var form: FormData
    var loading: bool

    /** The states the wizard can reach: one of the three steps, past step 1 only with a
        name and to step 3 only with a cue. */
    predicate Valid()
      reads this
    {
      1 <= step <= 3
      && (step >= 2 ==> form.title != "")
      && (step == 3 ==> form.triggerCue != "")
    }

    constructor ()
      ensures Valid() && step == 1 && form == InitialForm && !loading
    {
      step, form, loading := 1, InitialForm, false;
    }

    /** The Next button of steps 1 and 2, disabled while the step's field is empty. */
    method Next()
      requires Valid() && step < 3
      modifies this
      ensures Valid() && form == old(form) && loading == old(loading)
      ensures old(step) == 1 ==> step == (if form.title != "" then 2 else 1)
      ensures old(step) == 2 ==> step == (if form.triggerCue != "" then 3 else 2)
    {
      if step == 1 && form.title != "" {
        step := 2;
      } else if step == 2 && form.triggerCue != "" {
        step := 3;
      }
    }

    /** The Back button of steps 2 and 3. */
    method Back()
      requires Valid() && step > 1
      modifies this
      ensures Valid() && step == old(step) - 1 && form == old(form) && loading == old(loading)
    {
      step := step - 1;
    }

    /** The name field of step 1. */
    method SetTitle(title: string)
      requires Valid() && step == 1
      modifies this
      ensures Valid() && step == old(step) && loading == old(loading)
      ensures form == old(form).(title := title)
    {
      form := form.(title := title);
    }

    /** The cue field of step 2. */
    method SetTriggerCue(cue: string)
      requires Valid() && step == 2
      modifies this
      ensures Valid() && step == old(step) && loading == old(loading)
      ensures form == old(form).(triggerCue := cue)
    {
      form := form.(triggerCue := cue);
    }

    /** The block selector of step 2. */
    method SetTimeOfDay(block: TimeOfDay)
      requires Valid() && step == 2
      modifies this
      ensures Valid() && step == old(step) && loading == old(loading)
      ensures form == old(form).(timeOfDay := block)
    {
      form := form.(timeOfDay := block);
    }

    /** The two-minute checkbox of step 3. */
    method SetTwoMinuteRule(checked: bool)
      requires Valid() && step == 3
      modifies this
      ensures Valid() && step == old(step) && loading == old(loading)
      ensures form == old(form).(twoMinuteRule := checked)
    {
      form := form.(twoMinuteRule := checked);
    }

    /** A day button of step 3. */
    method ToggleFrequencyDay(day: Weekday)
      requires Valid() && step == 3
      modifies this
      ensures Valid() && step == old(step) && loading == old(loading)
      ensures form == old(form).(frequency := ToggleDay(old(form).frequency, day))
    {
      form := form.(frequency := ToggleDay(form.frequency, day));
    }

    /** A category button of step 3. */
    method SetCategory(category: Category)
      requires Valid() && step == 3
      modifies this
      ensures Valid() && step == old(step) && loading == old(loading)
      ensures form == old(form).(category := category)
    {
      form := form.(category := category);
    }

    /** "Create Habit" is disabled while a submission runs or no day is selected. */
    function CreateDisabled(): (disabled: bool)
      reads this
      ensures disabled <==> loading || |form.frequency| == 0
    {
      loading || |form.frequency| == 0
    }

    /** `handleSubmit`, given the authentication answer and whether the insert succeeds:
        a form without name or cue is refused before anything is sent; otherwise the row is
        sent only for a signed-in user, and only a successful insert resets the wizard to
        the initial form at step 1. The loading flag is off again afterwards. Its only caller
        is the "Create Habit" button, so it runs only while that button is enabled; no row
        without a day is ever sent, and the button is enabled again afterwards. */
    method Submit(auth: AuthAnswer, insertOk: bool) returns (outcome: Outcome, sent: Option<NewHabit>)
      requires Valid() && !CreateDisabled()
      modifies this
      ensures Valid() && !CreateDisabled()
      ensures sent.Some? ==> |sent.value.frequency| > 0
      ensures old(form.title) == "" || old(form.triggerCue) == "" ==>
        outcome == MissingFields && sent.None? && loading == old(loading)
      ensures old(form.title) != "" && old(form.triggerCue) != "" ==>
        !loading
        && sent == (if auth.User? then Some(RowFor(old(form), auth.id)) else None)
        && outcome == (if auth.AuthError? then CreateFailed else if auth.NoUser? then NotSignedIn
                       else if insertOk then Created else CreateFailed)
      ensures old(step) == 3 ==> outcome != MissingFields
      ensures outcome == Created ==> form == InitialForm && step == 1
      ensures outcome != Created ==> form == old(form) && step == old(step)
    {
      sent := None;
      if form.title == "" || form.triggerCue == "" {
        outcome := MissingFields;
        return;
      }
      loading := true;
      match auth {
        case AuthError =>
          outcome := CreateFailed;
        case NoUser =>
          outcome := NotSignedIn;
        case User(id) =>
          sent := Some(RowFor(form, id));
          if insertOk {
            form := InitialForm;
            step := 1;
            outcome := Created;
          } else {
            outcome := CreateFailed;
          }
      }
      loading := false;
    }
  }
}
