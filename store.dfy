/** The PostgreSQL database the entity classes talk to, as four tables.
    `discord_user` is keyed by the platform user id; `goal` and `reward` get
    their ids from an auto-increment counter and their `created` stamp from a
    store clock, and are kept in insertion order, so ordering by `created`
    is table order; `incentive` has no key at all. Each method is one SQL
    statement of the entity layer; each query function one SELECT. */
module Store {
  import opened Wrappers
  import Query

  /** One `discord_user` row: the two balances of a user's ledger. */
  datatype Ledger = Ledger(points: real, sharePoints: int)

  /** The row `INSERT INTO discord_user (id, points, share_points) VALUES ($1, 0, 0)` writes. */
  const ZeroLedger: Ledger := Ledger(0.0, 0)

  /** `repeat` is the smallint value of the repeat type. */
  datatype GoalRow = GoalRow(id: int, owner: int, text: string, reward: int, completed: bool,
                             repeat: int, resetAt: Option<int>, created: int)

  datatype RewardRow = RewardRow(id: int, owner: int, text: string, cost: int, renewable: bool,
                                 created: int)

  datatype IncentiveRow = IncentiveRow(sender: int, goal: int)

  /** What a statement, or the conversion of its result, can raise. */
  datatype Error =
    | ForeignKeyViolation  // a referenced discord_user (or goal) row is missing
    | UniqueViolation      // a discord_user row with that id already exists
    | MissingRow           // `from_db(None)`: the SELECT found no row
    | InvalidRepeat        // `RepeatType(v)` for a value outside 0..4

  function GoalId(g: GoalRow): int { g.id }
  function GoalCreated(g: GoalRow): int { g.created }
  function RewardId(r: RewardRow): int { r.id }
  function RewardCreated(r: RewardRow): int { r.created }

  /** Ids and creation stamps grow along the table and stay below the counters. */
  predicate GoalTableValid(rows: seq<GoalRow>, nextId: int, clock: int) {
    Query.IncreasingBy(rows, GoalId) && Query.IncreasingBy(rows, GoalCreated) &&
    forall i :: 0 <= i < |rows| ==> rows[i].id < nextId && rows[i].created < clock
  }

  predicate RewardTableValid(rows: seq<RewardRow>, nextId: int, clock: int) {
    Query.IncreasingBy(rows, RewardId) && Query.IncreasingBy(rows, RewardCreated) &&
    forall i :: 0 <= i < |rows| ==> rows[i].id < nextId && rows[i].created < clock
  }

  // WHERE clauses

  function GoalKey(id: int): GoalRow -> bool {
    (g: GoalRow) => g.id == id
  }

  /** `WHERE discord_user=$1`, plus `AND completed=false` unless completed goals are wanted. */
  function GoalOwnedBy(owner: int, includeCompleted: bool): GoalRow -> bool {
    (g: GoalRow) => g.owner == owner && (includeCompleted || !g.completed)
  }

  function RewardKey(id: int): RewardRow -> bool {
    (r: RewardRow) => r.id == id
  }

  function RewardOther(id: int): RewardRow -> bool {
    (r: RewardRow) => r.id != id
  }

  function RewardOwnedBy(owner: int): RewardRow -> bool {
    (r: RewardRow) => r.owner == owner
  }

  function IncentiveOn(goal: int): IncentiveRow -> bool {
    (i: IncentiveRow) => i.goal == goal
  }

  function IncentivePair(goal: int, sender: int): IncentiveRow -> bool {
    (i: IncentiveRow) => i.goal == goal && i.sender == sender
  }

  // UPDATE statements on the user table: a missing row is left missing.

  function WithPoints(rows: map<int, Ledger>, id: int, points: real): (r: map<int, Ledger>)
    ensures r.Keys == rows.Keys
  {
    if id in rows then rows[id := rows[id].(points := points)] else rows
  }

  function WithSharePoints(rows: map<int, Ledger>, id: int, sharePoints: int): (r: map<int, Ledger>)
    ensures r.Keys == rows.Keys
  {
    if id in rows then rows[id := rows[id].(sharePoints := sharePoints)] else rows
  }

  function WithLedger(rows: map<int, Ledger>, id: int, l: Ledger): (r: map<int, Ledger>)
    ensures r.Keys == rows.Keys
  {
    if id in rows then rows[id := l] else rows
  }

  /** `UPDATE goal SET completed=$2, text=$3, reward=$4, repeat=$5 WHERE id=$1`;
      a `None` id (`id = NULL`) matches no row. */
  function SetGoalFields(rows: seq<GoalRow>, key: Option<int>, completed: bool, text: string,
                         reward: int, repeat: int): (r: seq<GoalRow>)
    ensures |r| == |rows|
    ensures forall i :: 0 <= i < |r| ==> r[i].id == rows[i].id && r[i].created == rows[i].created
  {
    seq(|rows|, i requires 0 <= i < |rows| =>
      if key == Some(rows[i].id)
      then rows[i].(completed := completed, text := text, reward := reward, repeat := repeat)
      else rows[i])
  }

  /** `UPDATE goal SET completed=FALSE WHERE repeat=$1`. */
  function ClearCompleted(rows: seq<GoalRow>, repeat: int): (r: seq<GoalRow>)
    ensures |r| == |rows|
    ensures forall i :: 0 <= i < |r| ==> r[i] == rows[i].(completed := r[i].completed)
  {
    seq(|rows|, i requires 0 <= i < |rows| =>
      if rows[i].repeat == repeat then rows[i].(completed := false) else rows[i])
  }

  /** `DELETE FROM reward WHERE id=$1`. */
  function DeleteWhere(rows: seq<RewardRow>, key: Option<int>): seq<RewardRow> {
    match key
    case Some(id) => Query.Filter(rows, RewardOther(id))
    case None => rows
  }

  class Database {
    var users: map<int, Ledger>
    var goals: seq<GoalRow>
    var rewards: seq<RewardRow>
    var incentives: seq<IncentiveRow>
    var nextGoalId: int
    var nextRewardId: int
    var clock: int

    ghost predicate Valid()
      reads this
    {
      GoalTableValid(goals, nextGoalId, clock) && RewardTableValid(rewards, nextRewardId, clock)
    }

    constructor ()
      ensures Valid()
      ensures users == map[] && goals == [] && rewards == [] && incentives == []
    {
      users, goals, rewards, incentives := map[], [], [], [];
      nextGoalId, nextRewardId, clock := 1, 1, 0;
    }

    // SELECT statements

    /** `SELECT id, points, share_points FROM discord_user WHERE id=$1`: the
        row exactly when the user has one. */
    function SelectUser(id: int): (r: Option<(int, Ledger)>)
      reads this
      ensures r.Some? <==> id in users
      ensures r.Some? ==> r.value.0 == id && r.value.1 == users[id]
    {
      if id in users then Some((id, users[id])) else None
    }

    /** `SELECT ... FROM goal WHERE id=$1`: a row of the table with that id. */
    function SelectGoal(id: int): (r: Option<GoalRow>)
      reads this
      ensures r.Some? ==> r.value.id == id
    {
      Query.First(goals, GoalKey(id))
    }

    /** `SELECT ... FROM goal WHERE discord_user=$1 [AND completed=false] ORDER BY created`:
        only the owner's goals (only uncompleted ones unless asked). */
    function GoalsOf(owner: int, includeCompleted: bool): (r: seq<GoalRow>)
      reads this
      ensures forall i :: 0 <= i < |r| ==> r[i].owner == owner && (includeCompleted || !r[i].completed)
    {
      Query.FilterSatisfies(goals, GoalOwnedBy(owner, includeCompleted));
      Query.Filter(goals, GoalOwnedBy(owner, includeCompleted))
    }

    /** `SELECT ... FROM reward WHERE id=$1`: a row of the table with that id. */
    function SelectReward(id: int): (r: Option<RewardRow>)
      reads this
      ensures r.Some? ==> r.value.id == id
    {
      Query.First(rewards, RewardKey(id))
    }

    /** `SELECT ... FROM reward WHERE discord_user=$1 ORDER BY created`: only
        the owner's rewards. */
    function RewardsOf(owner: int): (r: seq<RewardRow>)
      reads this
      ensures forall i :: 0 <= i < |r| ==> r[i].owner == owner
    {
      Query.FilterSatisfies(rewards, RewardOwnedBy(owner));
      Query.Filter(rewards, RewardOwnedBy(owner))
    }

    /** `SELECT goal, sender FROM incentive WHERE goal=$1`: only rows on that
        goal, at most as many as the table holds. */
    function IncentivesOn(goal: int): (r: seq<IncentiveRow>)
      reads this
      ensures forall i :: 0 <= i < |r| ==> r[i].goal == goal
      ensures |r| <= |incentives|
    {
      Query.FilterSatisfies(incentives, IncentiveOn(goal));
      Query.Filter(incentives, IncentiveOn(goal))
    }

    /** `SELECT goal, sender FROM incentive WHERE goal=$1 AND sender=$2`: a
        row with that pair, and none exactly when the table has no such row. */
    function SelectIncentive(goal: int, sender: int): (r: Option<IncentiveRow>)
      reads this
      ensures r.Some? ==> r.value == IncentiveRow(sender, goal) && r.value in incentives
      ensures r.None? <==> IncentiveRow(sender, goal) !in incentives
    {
      Query.First(incentives, IncentivePair(goal, sender))
    }

    // INSERT / UPDATE / DELETE statements

    /** `INSERT INTO discord_user (id, points, share_points) VALUES ($1, 0, 0)`. */
    method InsertUser(id: int) returns (r: Outcome<Error>)
      modifies this`users
      ensures r == if id in old(users) then Fail(UniqueViolation) else Pass
      ensures users == if id in old(users) then old(users) else old(users)[id := ZeroLedger]
    {
      if id in users {
        r := Fail(UniqueViolation);
      } else {
        users := users[id := ZeroLedger];
        r := Pass;
      }
    }

    /** `UPDATE discord_user SET points=$1 WHERE id=$2`. */
    method UpdatePoints(id: int, points: real)
      modifies this`users
      ensures users == WithPoints(old(users), id, points)
    {
      users := WithPoints(users, id, points);
    }

    /** `UPDATE discord_user SET share_points=$1 WHERE id=$2`. */
    method UpdateSharePoints(id: int, sharePoints: int)
      modifies this`users
      ensures users == WithSharePoints(old(users), id, sharePoints)
    {
      users := WithSharePoints(users, id, sharePoints);
    }

    /** `UPDATE discord_user SET points=$1, share_points=$2 WHERE id=$3`. */
    method UpdateLedger(id: int, l: Ledger)
      modifies this`users
      ensures users == WithLedger(old(users), id, l)
    {
      users := WithLedger(users, id, l);
    }

    /** `INSERT INTO goal (...) VALUES (...) RETURNING id`; the owner must have
        a discord_user row. */
    method InsertGoal(owner: int, text: string, reward: int, completed: bool, repeat: int,
                      resetAt: Option<int>) returns (r: Result<int, Error>)
      requires Valid()
      modifies this`goals, this`nextGoalId, this`clock
      ensures Valid()
      ensures owner !in users ==>
                r == Failure(ForeignKeyViolation) && goals == old(goals) &&
                nextGoalId == old(nextGoalId) && clock == old(clock)
      ensures owner in users ==>
                r == Success(old(nextGoalId)) &&
                goals == old(goals) + [GoalRow(old(nextGoalId), owner, text, reward, completed,
                                               repeat, resetAt, old(clock))] &&
                nextGoalId == old(nextGoalId) + 1 && clock == old(clock) + 1
    {
      if owner !in users {
        r := Failure(ForeignKeyViolation);
      } else {
        goals := goals + [GoalRow(nextGoalId, owner, text, reward, completed, repeat, resetAt, clock)];
        r := Success(nextGoalId);
        nextGoalId, clock := nextGoalId + 1, clock + 1;
      }
    }

    /** `UPDATE goal SET completed=$2, text=$3, reward=$4, repeat=$5 WHERE id=$1`. */
    method UpdateGoal(key: Option<int>, completed: bool, text: string, reward: int, repeat: int)
      requires Valid()
      modifies this`goals
      ensures Valid()
      ensures goals == SetGoalFields(old(goals), key, completed, text, reward, repeat)
    {
      goals := SetGoalFields(goals, key, completed, text, reward, repeat);
    }

    /** `UPDATE goal SET completed=FALSE WHERE repeat=$1`. */
    method ResetCompleted(repeat: int)
      requires Valid()
      modifies this`goals
      ensures Valid()
      ensures goals == ClearCompleted(old(goals), repeat)
    {
      goals := ClearCompleted(goals, repeat);
    }

    /** `INSERT INTO reward (...) VALUES (...) RETURNING id`; the owner must
        have a discord_user row. */
    method InsertReward(owner: int, text: string, cost: int, renewable: bool)
      returns (r: Result<int, Error>)
      requires Valid()
      modifies this`rewards, this`nextRewardId, this`clock
      ensures Valid()
      ensures owner !in users ==>
                r == Failure(ForeignKeyViolation) && rewards == old(rewards) &&
                nextRewardId == old(nextRewardId) && clock == old(clock)
      ensures owner in users ==>
                r == Success(old(nextRewardId)) &&
                rewards == old(rewards) + [RewardRow(old(nextRewardId), owner, text, cost, renewable,
                                                     old(clock))] &&
                nextRewardId == old(nextRewardId) + 1 && clock == old(clock) + 1
    {
      if owner !in users {
        r := Failure(ForeignKeyViolation);
      } else {
        rewards := rewards + [RewardRow(nextRewardId, owner, text, cost, renewable, clock)];
        r := Success(nextRewardId);
        nextRewardId, clock := nextRewardId + 1, clock + 1;
      }
    }

    /** `DELETE FROM reward WHERE id=$1`. */
    method DeleteReward(key: Option<int>)
      requires Valid()
      modifies this`rewards
      ensures Valid()
      ensures rewards == DeleteWhere(old(rewards), key)
    {
      if key.Some? {
        Query.FilterKeepsOrder(rewards, RewardOther(key.value), RewardId);
        Query.FilterKeepsOrder(rewards, RewardOther(key.value), RewardCreated);
      }
      rewards := DeleteWhere(rewards, key);
    }

    /** `INSERT INTO incentive (sender, goal) VALUES ($1, $2)`: no uniqueness,
        only the two foreign keys. */
    method InsertIncentive(sender: int, goal: int) returns (r: Outcome<Error>)
      modifies this`incentives
      ensures r.Pass? <==> sender in users && SelectGoal(goal).Some?
      ensures r.Fail? ==> r.error == ForeignKeyViolation
      ensures incentives == if r.Pass? then old(incentives) + [IncentiveRow(sender, goal)]
                            else old(incentives)
    {
      if sender in users && SelectGoal(goal).Some? {
        incentives := incentives + [IncentiveRow(sender, goal)];
        r := Pass;
      } else {
        r := Fail(ForeignKeyViolation);
      }
    }
  }

  /** Deleting a reward by id removes exactly the rows with that id and keeps
      the others in order. */
  lemma DeleteRemoves(rows: seq<RewardRow>, id: int, x: RewardRow)
    ensures x in DeleteWhere(rows, Some(id)) <==> x in rows && x.id != id
  {
    Query.FilterSelects(rows, RewardOther(id), x);
  }
}
