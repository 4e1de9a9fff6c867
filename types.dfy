/** The record shapes of the habit tracker (the `Habit` and `HabitLog` rows of the
    backend), with timestamps abstracted to local calendar days. */
module Types {

  /** A local calendar day, counted from 1970-01-01 (day 0, a Thursday).
      `startOfDay` is the identity on this type and `differenceInDays` is subtraction. */
  type Day = int

  datatype Weekday = Mon | Tue | Wed | Thu | Fri | Sat | Sun

  datatype TimeOfDay = Morning | Afternoon | Evening

  datatype Category = Health | Wealth | Wisdom

  datatype Status = Completed | Skipped | Failed

  datatype Option<T> = None | Some(value: T)

  datatype Habit = Habit(
    id: string,
    userId: string,
    title: string,
    triggerCue: string,
    timeOfDay: TimeOfDay,
    frequency: seq<Weekday>,
    category: Category,
    twoMinuteRule: bool,
    archived: bool,
    createdAt: string)

  /** `completedAt` is the calendar day of the log's timestamp; `notes` is the optional
      friction reason. */
  datatype HabitLog = HabitLog(
    id: string,
    habitId: string,
    completedAt: Day,
    status: Status,
    notes: Option<string>)

  /** The seven weekday codes in the order the wizard lists them. */
  const AllWeekdays: seq<Weekday> := [Mon, Tue, Wed, Thu, Fri, Sat, Sun]

  /** The weekday code (`format(day, 'EEE')`) of a calendar day. */
  function WeekdayOf(d: Day): Weekday
  {
    [Thu, Fri, Sat, Sun, Mon, Tue, Wed][d % 7]
  }

  /** The codes of the seven days starting at `d`. */
  function WeekFrom(d: Day): (week: seq<Weekday>)
    ensures |week| == 7
    ensures forall k :: 0 <= k < 7 ==> week[k] == WeekdayOf(d + k)
  {
    seq(7, k => WeekdayOf(d + k))
  }

  /** Any seven consecutive days carry every weekday code. */
  lemma WeekCoversAllCodes(d: Day)
    ensures forall w: Weekday :: w in WeekFrom(d)
  {
    var week := WeekFrom(d);
    forall w: Weekday ensures w in week {
      var target := match w
        case Thu => 0 case Fri => 1 case Sat => 2 case Sun => 3
        case Mon => 4 case Tue => 5 case Wed => 6;
      var k := (target - d % 7) % 7;
      assert (d + k) % 7 == target;
      assert week[k] == w;
    }
  }
}
