/** Incentives (src/models/incentive.py): a row `(sender, goal)` records that
    `sender` boosted `goal`. Rows are immutable and not unique; the number of
    rows on a goal scales its completion payout. */
module Incentives {
  import opened Wrappers
  import opened Store

  /** `Incentive._cache`, keyed by `(goal, sender)`. Nothing in the entity
      layer ever stores into it: it is only read. */
  class IncentiveCache {
    var entries: map<(int, int), Incentive>

    constructor ()
      ensures entries == map[]
    {
      entries := map[];
    }
  }

  class Incentive {
    const sender: int
    const goal: int

    constructor (sender: int, goal: int)
      ensures this.sender == sender && this.goal == goal
    {
      this.sender := sender;
      this.goal := goal;
    }

    /** `create`: append one `(sender, goal)` row, without any uniqueness
        check, so a repeated boost adds another row. The insert raises when
        the sender has no user row or the goal does not exist. */
    method Create(db: Database) returns (r: Outcome<Error>)
      modifies db`incentives
      ensures r.Pass? <==> sender in db.users && db.SelectGoal(goal).Some?
      ensures r.Fail? ==> r.error == ForeignKeyViolation && db.incentives == old(db.incentives)
      ensures r.Pass? ==> db.incentives == old(db.incentives) + [IncentiveRow(sender, goal)]
      ensures r.Pass? ==> db.IncentivesOn(goal) == old(db.IncentivesOn(goal)) + [IncentiveRow(sender, goal)]
    {
      r := db.InsertIncentive(sender, goal);
    }

    /** `from_db(row)`: a new instance with the row's sender and goal; a
        missing row raises. */
    static method FromDb(row: Option<IncentiveRow>) returns (r: Result<Incentive, Error>)
      ensures row.None? ==> r == Failure(MissingRow)
      ensures row.Some? ==>
                r.Success? && fresh(r.value) &&
                r.value.sender == row.value.sender && r.value.goal == row.value.goal
    {
      if row.None? {
        return Failure(MissingRow);
      }
      var i := new Incentive(row.value.sender, row.value.goal);
      r := Success(i);
    }

    /** `fetch(sender, goal)`: the instance cached under `(goal, sender)` if
        any, otherwise one built from the first matching row (a missing row
        raises). The cache is not written. */
    static method Fetch(sender: int, goal: int, cache: IncentiveCache, db: Database)
      returns (r: Result<Incentive, Error>)
      ensures (goal, sender) in cache.entries ==> r == Success(cache.entries[(goal, sender)])
      ensures (goal, sender) !in cache.entries ==>
                (r.Success? <==> db.SelectIncentive(goal, sender).Some?) &&
                (r.Failure? ==> r.error == MissingRow) &&
                (r.Success? ==> r.value.sender == sender && r.value.goal == goal)
    {
      if (goal, sender) in cache.entries {
        return Success(cache.entries[(goal, sender)]);
      }
      r := FromDb(db.SelectIncentive(goal, sender));
    }

    /** `fetch_all_goal(goal)`: one new instance per incentive row of `goal`,
        in table order, duplicates included. */
    static method FetchAllGoal(goal: int, db: Database) returns (r: seq<Incentive>)
      ensures |r| == |db.IncentivesOn(goal)|
      ensures forall i :: 0 <= i < |r| ==>
                r[i].sender == db.IncentivesOn(goal)[i].sender && r[i].goal == goal
    {
      var rows := db.IncentivesOn(goal);
      r := [];
      var i := 0;
      while i < |rows|
        invariant 0 <= i <= |rows|
        invariant |r| == i
        invariant forall k :: 0 <= k < i ==> r[k].sender == rows[k].sender && r[k].goal == goal
      {
        var built := FromDb(Some(rows[i]));
        r := r + [built.value];
        i := i + 1;
      }
    }
  }

  /** A fresh cache holds nothing, and no operation stores into it, so every
      `fetch` reads the table. */
  method FetchReadsTable(sender: int, goal: int, db: Database) returns (r: Result<Incentive, Error>)
    ensures r.Success? <==> db.SelectIncentive(goal, sender).Some?
  {
    var cache := new IncentiveCache();
    r := Incentive.Fetch(sender, goal, cache, db);
  }
}
