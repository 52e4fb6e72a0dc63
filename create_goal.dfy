/** The goal-creation modal (src/commands/create_goal.py): validates the crumb
    reward and inserts the goal row itself, with the same foreign-key retry as
    `Goal.create` but always with repeat value 0, whatever was selected. The
    goal cache is not touched. */
module CreateGoalCommand {
  import opened Wrappers
  import opened Store
  import Numerals
  import Goals

  /** `CreateGoal.callback`: `parsedCrumbs` is `int()` of the reward field
      (`None` when it raises). A reward that is not a positive integer is
      refused and nothing is stored. Otherwise the goal row is inserted; when
      the user has no row, one zero user row is inserted first and the goal
      insert is retried once. The reply carries the new goal's id. */
  method CreateGoalCallback(user: int, text: string, parsedCrumbs: Option<int>, db: Database)
    returns (reply: Option<int>)
    requires db.Valid()
    modifies db`users, db`goals, db`nextGoalId, db`clock
    ensures db.Valid()
    ensures reply.None? <==> Numerals.PositiveAmount(parsedCrumbs).None?
    ensures reply.None? ==> db.users == old(db.users) && db.goals == old(db.goals)
    ensures reply.Some? ==>
              reply.value == old(db.nextGoalId) &&
              db.users == (if user in old(db.users) then old(db.users)
                           else old(db.users)[user := ZeroLedger]) &&
              db.goals == old(db.goals) + [GoalRow(reply.value, user, text, parsedCrumbs.value, false,
                                                   Goals.RepeatType.Never.Value(), None, old(db.clock))]
  {
    var crumbs := Numerals.PositiveAmount(parsedCrumbs);
    if crumbs.None? {
      return None;
    }
    var gid := db.InsertGoal(user, text, crumbs.value, false, 0, None);
    if gid == Failure(ForeignKeyViolation) {
      var _ := db.InsertUser(user);
      gid := db.InsertGoal(user, text, crumbs.value, false, 0, None);
    }
    reply := Some(gid.value);
  }
}
