/** The midnight reset (src/commands/goal_repeat.py): once a day at 00:00 UTC,
    completed goals whose repeat period starts today become uncompleted again.
    Daily goals reset every day, weekly ones on Mondays, monthly ones on the
    1st and yearly ones on January 1st; goals that never repeat stay as they
    are. The current date is an input of the model. */
module GoalRepeat {
  import opened Wrappers
  import opened Store
  import opened Goals

  /** The three parts of `datetime.now(UTC)` the nightly reset reads; `weekday` counts
      from Monday = 0, as Python's `weekday()` does. */
  datatype UtcDate = UtcDate(weekday: int, day: int, month: int)

  /** Whether goals repeated by `t` are reset on `d`: never for goals that do
      not repeat, every day for daily ones, and a day that resets yearly goals
      is the 1st of a month, which resets monthly ones too. */
  predicate ClearsOn(t: RepeatType, d: UtcDate): (r: bool)
    ensures t == Never ==> !r
    ensures t == Daily ==> r
    ensures t == Yearly && r ==> d.day == 1 && d.month == 1
    ensures r ==> d.day == 1 || d.weekday == 0 || t == Daily
  {
    match t
    case Never => false
    case Daily => true
    case Weekly => d.weekday == 0
    case Monthly => d.day == 1
    case Yearly => d.day == 1 && d.month == 1
  }

  /** Whether a stored repeat value names a period that starts on `d`; a value
      outside 0..4 matches none of the four statements. */
  predicate ClearsValue(v: int, d: UtcDate) {
    RepeatOf(v).Some? && ClearsOn(RepeatOf(v).value, d)
  }

  /** The goal table after the reset of day `d`, row by row: only `completed`
      changes, no goal becomes completed, and a goal is uncompleted exactly
      when it was not completed or its period starts on `d`. */
  function Tick(rows: seq<GoalRow>, d: UtcDate): (r: seq<GoalRow>)
    ensures |r| == |rows|
    ensures forall i :: 0 <= i < |rows| ==> r[i] == rows[i].(completed := r[i].completed)
    ensures forall i :: 0 <= i < |rows| ==>
              (r[i].completed <==> rows[i].completed && !ClearsValue(rows[i].repeat, d))
  {
    seq(|rows|, i requires 0 <= i < |rows| =>
      if ClearsValue(rows[i].repeat, d) then rows[i].(completed := false) else rows[i])
  }

  /** `uncomplete`: one `UPDATE goal SET completed=FALSE WHERE repeat=$1` for
      daily goals, then one for each longer period that starts today. */
  method Uncomplete(db: Database, date: UtcDate)
    requires db.Valid()
    modifies db`goals
    ensures db.Valid()
    ensures db.goals == Tick(old(db.goals), date)
  {
    ghost var rows := db.goals;
    db.ResetCompleted(Daily.Value());
    if date.weekday == 0 {
      db.ResetCompleted(Weekly.Value());
    }
    if date.day == 1 {
      db.ResetCompleted(Monthly.Value());
    }
    if date.day == 1 && date.month == 1 {
      db.ResetCompleted(Yearly.Value());
    }
    forall i | 0 <= i < |rows|
      ensures db.goals[i] == Tick(rows, date)[i]
    {
      if 0 <= rows[i].repeat <= 4 {
        RepeatValueRoundTrip(RepeatOf(rows[i].repeat).value);
      }
    }
  }

  /** Running the reset twice on the same day changes nothing more. */
  lemma TickIdempotent(rows: seq<GoalRow>, d: UtcDate)
    ensures Tick(Tick(rows, d), d) == Tick(rows, d)
  {
  }

  /** Goals that never repeat, and rows with a value outside 0..4, are never
      reset; daily goals are uncompleted after every reset. */
  lemma TickNeverAndDaily(rows: seq<GoalRow>, d: UtcDate)
    ensures forall i :: 0 <= i < |rows| && (rows[i].repeat == Never.Value() || !(0 <= rows[i].repeat <= 4))
              ==> Tick(rows, d)[i] == rows[i]
    ensures forall i :: 0 <= i < |rows| && rows[i].repeat == Daily.Value() ==>
              !Tick(rows, d)[i].completed
  {
  }

  /** January 1st is also the 1st of a month, and a weekly goal is reset on a
      day exactly when that day is a Monday. */
  lemma PeriodsNest(d: UtcDate)
    ensures ClearsOn(Yearly, d) ==> ClearsOn(Monthly, d)
    ensures ClearsOn(Monthly, d) ==> ClearsValue(Monthly.Value(), d)
    ensures ClearsValue(Weekly.Value(), d) <==> d.weekday == 0
  {
  }
}
