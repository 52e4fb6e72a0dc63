/** Goals (src/models/goal.py): a user's goal with a crumb reward and a
    repeat period. A goal is inserted with `completed = false`, edited field by
    field, and completing it credits the owner's ledger with the reward plus a
    tenth of it per incentive, and one share point. `Goal._cache` is written
    only by `create`. */
module Goals {
  import opened Wrappers
  import opened Store
  import Query
  import Numerals
  import opened Ledger
  import opened Incentives

  /** `RepeatType`; the store keeps `.value`, a smallint 0..4. */
  datatype RepeatType = Never | Daily | Weekly | Monthly | Yearly {

    /** `.value` */
    function Value(): (v: int)
      ensures 0 <= v <= 4
    {
      match this
      case Never => 0
      case Daily => 1
      case Weekly => 2
      case Monthly => 3
      case Yearly => 4
    }

    /** `display()`: only a goal that never repeats reads "Never"; every
        other description ends with the reset time, midnight UTC. */
    function Display(): (s: string)
      ensures s == "Never" <==> this == Never
      ensures this != Never ==> |s| > 12 && s[|s| - 12..] == "Midnight UTC"
    {
      match this
      case Never => "Never"
      case Daily => "Daily At Midnight UTC"
      case Weekly => "Weekly On Mondays At Midnight UTC"
      case Monthly => "Monthly On The 1st At Midnight UTC"
      case Yearly => "Yearly On January 1st At Midnight UTC"
    }
  }

  /** `RepeatType(v)`: defined for 0..4 and the inverse of `.value` there;
      any other value raises. */
  function RepeatOf(v: int): (r: Option<RepeatType>)
    ensures r.Some? <==> 0 <= v <= 4
    ensures r.Some? ==> r.value.Value() == v
  {
    if v == 0 then Some(Never)
    else if v == 1 then Some(Daily)
    else if v == 2 then Some(Weekly)
    else if v == 3 then Some(Monthly)
    else if v == 4 then Some(Yearly)
    else None
  }

  /** Converting a stored value back gives the repeat type that was stored. */
  lemma RepeatValueRoundTrip(t: RepeatType)
    ensures RepeatOf(t.Value()) == Some(t)
  {
  }

  /** Each repeat type has its own description. */
  lemma DisplayDistinct(s: RepeatType, t: RepeatType)
    ensures s != t ==> s.Display() != t.Display()
  {
  }

  /** The points `complete` credits, `reward + reward * 0.1 * len(incentives)`:
      the reward scaled by (10 + n) / 10 for n incentives. */
  function CompletionPoints(reward: int, incentives: nat): (p: real)
    ensures p * 10.0 == reward as real * (10 + incentives) as real
  {
    reward as real + reward as real * 0.1 * incentives as real
  }

  /** The payout is linear in the number of incentives, with no cap: each one
      adds a tenth of the reward; with none it is the reward itself. */
  lemma {:induction false} CompletionPointsLinear(reward: int, incentives: nat)
    ensures CompletionPoints(reward, 0) == reward as real
    ensures CompletionPoints(reward, incentives + 1) ==
            CompletionPoints(reward, incentives) + reward as real / 10.0
    ensures reward > 0 ==> CompletionPoints(reward, incentives) >= reward as real
  {
    var r := reward as real;
    var n := incentives as real;
    assert r * 0.1 * (n + 1.0) == r * 0.1 * n + r * 0.1;
    assert r * 0.1 * n == (r * n) * 0.1;
    if reward > 0 {
      assert r * n >= 0.0;
    }
  }

  /** A reward of 10 with two incentives pays 12 points. */
  lemma CompletionPointsExample()
    ensures CompletionPoints(10, 2) == 12.0
  {
  }

  /** The `custom_id` of the "View" button of `short_display`,
      `"view_goal::" + str(id)`. */
  function ViewCustomId(id: Option<int>): string {
    Numerals.PrefixedId("view_goal", id)
  }

  /** `Goal._cache`. */
  class GoalCache {
    var entries: map<int, Goal>

    /** Every instance is cached under its own id. */
    ghost predicate Valid()
      reads this, entries.Values
    {
      forall k :: k in entries ==> entries[k].id == Some(k)
    }

    constructor ()
      ensures entries == map[] && Valid()
    {
      entries := map[];
    }
  }

  class Goal {
    const owner: int
    var text: string
    var repeat: RepeatType
    var reward: int
    var completed: bool
    var resetAt: Option<int>
    var id: Option<int>
    var created: Option<int>
    var incentives: seq<Incentive>

    /** The instance holds exactly the fields of `row`. */
    predicate Mirrors(row: GoalRow)
      reads this
    {
      id == Some(row.id) && owner == row.owner && text == row.text && reward == row.reward &&
      completed == row.completed && repeat.Value() == row.repeat && resetAt == row.resetAt &&
      created == Some(row.created)
    }

    /** `Goal(user, text, repeat, reward)`: not completed, not yet stored, no incentives. */
    constructor (owner: int, text: string, repeat: RepeatType, reward: int)
      ensures this.owner == owner && this.text == text && this.repeat == repeat
      ensures this.reward == reward
      ensures !completed && resetAt == None && id == None && created == None && incentives == []
    {
      this.owner := owner;
      this.text := text;
      this.repeat := repeat;
      this.reward := reward;
      completed := false;
      resetAt := None;
      id := None;
      created := None;
      incentives := [];
    }

    /** `create`: insert the row with `completed = false` and no reset time.
        If the owner has no user row the insert violates the foreign key; then
        a zero user row is inserted and the insert is retried once, which
        cannot fail again because the owner row now exists. The new id is
        stored in `id` and the instance is cached under it. */
    method Create(db: Database, cache: GoalCache)
      requires db.Valid()
      modifies this`id, db`users, db`goals, db`nextGoalId, db`clock, cache`entries
      ensures db.Valid()
      ensures id == Some(old(db.nextGoalId))
      ensures db.users == if owner in old(db.users) then old(db.users)
                          else old(db.users)[owner := ZeroLedger]
      ensures db.goals == old(db.goals) + [GoalRow(old(db.nextGoalId), owner, text, reward, false,
                                                   repeat.Value(), None, old(db.clock))]
      ensures db.SelectGoal(id.value) == Some(db.goals[|db.goals| - 1])
      ensures cache.entries == old(cache.entries)[id.value := this]
      ensures old(cache.Valid()) && old(id) == None ==> cache.Valid()
    {
      var newId := InsertRow(owner, text, reward, repeat.Value(), db);
      Register(newId, cache);
      Query.FirstOfAppended(old(db.goals), db.goals[|db.goals| - 1], GoalKey(newId));
    }

    /** The insert of `create`: on a foreign-key violation insert a zero user
        row for the owner and retry once, which then succeeds. */
    static method InsertRow(owner: int, text: string, reward: int, repeatValue: int, db: Database)
      returns (newId: int)
      requires db.Valid()
      modifies db`users, db`goals, db`nextGoalId, db`clock
      ensures db.Valid()
      ensures newId == old(db.nextGoalId)
      ensures db.users == if owner in old(db.users) then old(db.users)
                          else old(db.users)[owner := ZeroLedger]
      ensures db.goals == old(db.goals) + [GoalRow(newId, owner, text, reward, false,
                                                   repeatValue, None, old(db.clock))]
    {
      var res := db.InsertGoal(owner, text, reward, false, repeatValue, None);
      if res == Failure(ForeignKeyViolation) {
        var _ := db.InsertUser(owner);
        res := db.InsertGoal(owner, text, reward, false, repeatValue, None);
      }
      newId := res.value;
    }

    /** The end of `create`: store the new id and cache the instance under it.
        An instance that had no id, and so was not cached, keeps the cache
        valid. */
    method Register(newId: int, cache: GoalCache)
      modifies this`id, cache`entries
      ensures id == Some(newId) && cache.entries == old(cache.entries)[newId := this]
      ensures old(cache.Valid()) && old(id) == None ==> cache.Valid()
    {
      ghost var wasValid := cache.Valid() && id == None;
      ghost var cached := cache.entries;
      assert wasValid ==> forall k :: k in cached ==> cached[k] != this && cached[k].id == Some(k);
      id := Some(newId);
      cache.entries := cache.entries[newId := this];
      if wasValid {
        forall k | k in cache.entries
          ensures cache.entries[k].id == Some(k)
        {
          if k != newId {
            assert cache.entries[k] == cached[k] && cached[k] != this;
          }
        }
      }
    }

    /** `edit(completed=, text=, reward=, repeat=)`: an argument left `None`
        keeps its field; then the whole row is rewritten from the current
        fields. */
    method Edit(setCompleted: Option<bool>, setText: Option<string>, setReward: Option<int>,
                setRepeat: Option<RepeatType>, db: Database)
      requires db.Valid()
      modifies this`completed, this`text, this`reward, this`repeat, db`goals
      ensures db.Valid()
      ensures completed == setCompleted.GetOr(old(completed))
      ensures text == setText.GetOr(old(text))
      ensures reward == setReward.GetOr(old(reward))
      ensures repeat == setRepeat.GetOr(old(repeat))
      ensures db.goals == SetGoalFields(old(db.goals), id, completed, text, reward, repeat.Value())
    {
      if setCompleted.Some? {
        completed := setCompleted.value;
      }
      if setText.Some? {
        text := setText.value;
      }
      if setReward.Some? {
        reward := setReward.value;
      }
      if setRepeat.Some? {
        repeat := setRepeat.value;
      }
      db.UpdateGoal(id, completed, text, reward, repeat.Value());
    }

    /** `complete`: mark the goal completed (through `edit`), then fetch the
        owner's ledger and credit it with `CompletionPoints(reward,
        len(incentives))` points and one share point. No other cached user
        changes. */
    method Complete(db: Database, users: UserCache)
      requires db.Valid() && users.Valid()
      modifies this`completed, this`text, this`reward, this`repeat
      modifies db`goals, db`users, users`entries, users.entries.Values`points, users.entries.Values`sharePoints
      ensures db.Valid() && users.Valid()
      ensures completed
      ensures text == old(text) && reward == old(reward) && repeat == old(repeat)
      ensures db.goals == SetGoalFields(old(db.goals), id, true, text, reward, repeat.Value())
      ensures owner in users.entries
      ensures users.entries[owner].Balance() ==
              Apply(old(Resolve(users.entries, db.users, owner)),
                    Credit(CompletionPoints(reward, |incentives|), 1)).0
      ensures db.users == WithLedger(old(ProvisionedRows(users.entries, db.users, owner)), owner,
                                     users.entries[owner].Balance())
      ensures users.entries == old(users.entries)[owner := users.entries[owner]]
      ensures forall k :: k in old(users.entries) && k != owner ==>
                k in users.entries && users.entries[k] == old(users.entries[k]) &&
                users.entries[k].Balance() == old(users.entries[k].Balance())
    {
      Edit(Some(true), None, None, None, db);
      var u := User.Fetch(owner, users, db);
      u.AddPoints(CompletionPoints(reward, |incentives|), 1, db);
    }

    /** `from_db(row)`: a new instance holding the row's fields and no
        incentives; a missing row or a repeat value outside 0..4 raises. */
    static method FromDb(row: Option<GoalRow>) returns (r: Result<Goal, Error>)
      ensures row.None? ==> r == Failure(MissingRow)
      ensures row.Some? && RepeatOf(row.value.repeat).None? ==> r == Failure(InvalidRepeat)
      ensures row.Some? && RepeatOf(row.value.repeat).Some? ==>
                r.Success? && fresh(r.value) && r.value.Mirrors(row.value) &&
                r.value.incentives == []
    {
      if row.None? {
        return Failure(MissingRow);
      }
      var repeat := RepeatOf(row.value.repeat);
      if repeat.None? {
        return Failure(InvalidRepeat);
      }
      var g := new Goal(row.value.owner, row.value.text, repeat.value, row.value.reward);
      g.completed := row.value.completed;
      g.resetAt := row.value.resetAt;
      g.id := Some(row.value.id);
      g.created := Some(row.value.created);
      r := Success(g);
    }

    /** `fetch(id)`: the cached instance on a hit; on a miss a new instance
        built from the row, with its incentives loaded, which is NOT cached
        (this method cannot modify the cache), so every miss builds a new
        object. */
    static method Fetch(id: int, cache: GoalCache, db: Database) returns (r: Result<Goal, Error>)
      ensures id in cache.entries ==> r == Success(cache.entries[id])
      ensures id !in cache.entries && db.SelectGoal(id).None? ==> r == Failure(MissingRow)
      ensures id !in cache.entries && db.SelectGoal(id).Some? ==>
                var row := db.SelectGoal(id).value;
                (RepeatOf(row.repeat).None? ==> r == Failure(InvalidRepeat)) &&
                (RepeatOf(row.repeat).Some? ==>
                   r.Success? && fresh(r.value) && r.value.Mirrors(row) &&
                   |r.value.incentives| == |db.IncentivesOn(id)| &&
                   forall i :: 0 <= i < |r.value.incentives| ==>
                     r.value.incentives[i].sender == db.IncentivesOn(id)[i].sender &&
                     r.value.incentives[i].goal == id)
      ensures cache.Valid() && r.Success? ==> r.value.id == Some(id)
    {
      if id in cache.entries {
        return Success(cache.entries[id]);
      }
      r := FromDb(db.SelectGoal(id));
      if r.Success? {
        var loaded := Incentive.FetchAllGoal(id, db);
        r.value.incentives := loaded;
      }
    }

    /** `fetch_user_goals(user_id, completed)`: one new instance per goal of
        the user (only the uncompleted ones unless `completed`), ordered by
        creation; a row with an invalid repeat value raises. */
    static method FetchUserGoals(userId: int, includeCompleted: bool, db: Database)
      returns (r: Result<seq<Goal>, Error>)
      requires db.Valid()
      ensures r.Success? <==> forall i :: 0 <= i < |db.GoalsOf(userId, includeCompleted)| ==>
                                 RepeatOf(db.GoalsOf(userId, includeCompleted)[i].repeat).Some?
      ensures r.Failure? ==> r.error == InvalidRepeat
      ensures r.Success? ==>
                |r.value| == |db.GoalsOf(userId, includeCompleted)| &&
                forall i :: 0 <= i < |r.value| ==>
                  r.value[i].Mirrors(db.GoalsOf(userId, includeCompleted)[i])
      ensures r.Success? ==>
                forall i :: 0 <= i < |r.value| ==>
                  r.value[i].owner == userId && (includeCompleted || !r.value[i].completed)
      ensures r.Success? ==>
                forall i :: 0 <= i < |r.value| ==> fresh(r.value[i]) && r.value[i].incentives == []
      ensures r.Success? ==>
                forall i, j :: 0 <= i < j < |r.value| ==>
                  r.value[i].created.Some? && r.value[j].created.Some? &&
                  r.value[i].created.value < r.value[j].created.value
    {
      var rows := db.GoalsOf(userId, includeCompleted);
      Query.FilterKeepsOrder(db.goals, GoalOwnedBy(userId, includeCompleted), GoalCreated);
      var goals: seq<Goal> := [];
      var i := 0;
      while i < |rows|
        invariant 0 <= i <= |rows|
        invariant |goals| == i
        invariant forall k :: 0 <= k < i ==> goals[k].Mirrors(rows[k])
        invariant forall k :: 0 <= k < i ==> fresh(goals[k]) && goals[k].incentives == []
        invariant forall k :: 0 <= k < i ==> RepeatOf(rows[k].repeat).Some?
      {
        var g := FromDb(Some(rows[i]));
        if g.Failure? {
          assert RepeatOf(db.GoalsOf(userId, includeCompleted)[i].repeat).None?;
          return Failure(g.error);
        }
        goals := goals + [g.value];
        i := i + 1;
      }
      r := Success(goals);
    }
  }
}
