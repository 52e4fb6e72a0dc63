/** Rewards (src/models/reward.py): an item of a user's shop with a crumb
    cost, either renewable or redeemable once. Unlike goals, every instance
    built from a row is cached; `delete` evicts the instance, removes the row
    and flags the instance as deleted so any other holder sees it as gone. */
module Rewards {
  import opened Wrappers
  import opened Store
  import Query
  import Numerals

  /** The two fields of the shop button of `short_display` that the model keeps. */
  datatype ShopButton = ShopButton(customId: string, disabled: bool)

  /** The shop button's `custom_id`, `"shop_reward::" + str(id)`. */
  function ShopCustomId(id: Option<int>): string {
    Numerals.PrefixedId("shop_reward", id)
  }

  /** `Reward._cache`. */
  class RewardCache {
    var entries: map<int, Reward>

    /** Every instance is cached under its own id. */
    ghost predicate Valid()
      reads this, entries.Values
    {
      forall k :: k in entries ==> entries[k].id == Some(k)
    }

    constructor ()
      ensures entries == map[] && Valid()
    {
      entries := map[];
    }
  }

  class Reward {
    const owner: int
    const text: string
    const cost: int
    const renewable: bool
    var id: Option<int>
    var deleted: bool

    /** The instance holds exactly the fields of `row`. */
    predicate Mirrors(row: RewardRow)
      reads this
    {
      id == Some(row.id) && owner == row.owner && text == row.text && cost == row.cost &&
      renewable == row.renewable
    }

    /** `Reward(user, text, cost, renewable)`: not stored yet, not deleted. */
    constructor (owner: int, text: string, cost: int, renewable: bool)
      ensures this.owner == owner && this.text == text && this.cost == cost
      ensures this.renewable == renewable && id == None && !deleted
    {
      this.owner := owner;
      this.text := text;
      this.cost := cost;
      this.renewable := renewable;
      id := None;
      deleted := false;
    }

    /** `short_display`: the shop button names the reward id and is disabled
        exactly when the reward was deleted. */
    function ShortDisplay(): (b: ShopButton)
      reads this
      ensures b.disabled <==> deleted
      ensures id.Some? ==>
                Numerals.AfterSeparator(b.customId).Some? &&
                Numerals.ParseInt(Numerals.AfterSeparator(b.customId).value) == id
    {
      ShopButton(ShopCustomId(id), deleted)
    }

    /** `create`: insert the row; on a foreign-key violation insert a zero
        user row for the owner and retry once (which then succeeds). The new
        id is stored in `id` and the instance is cached under it. */
    method Create(db: Database, cache: RewardCache)
      requires db.Valid()
      modifies this`id, db`users, db`rewards, db`nextRewardId, db`clock, cache`entries
      ensures db.Valid()
      ensures id == Some(old(db.nextRewardId))
      ensures db.users == if owner in old(db.users) then old(db.users)
                          else old(db.users)[owner := ZeroLedger]
      ensures db.rewards == old(db.rewards) + [RewardRow(old(db.nextRewardId), owner, text, cost,
                                                         renewable, old(db.clock))]
      ensures db.SelectReward(id.value) == Some(db.rewards[|db.rewards| - 1])
      ensures cache.entries == old(cache.entries)[id.value := this]
      ensures old(cache.Valid()) && old(id) == None ==> cache.Valid()
    {
      var newId := InsertRow(owner, text, cost, renewable, db);
      Register(newId, cache);
      Query.FirstOfAppended(old(db.rewards), db.rewards[|db.rewards| - 1], RewardKey(newId));
    }

    /** The insert of `create`: on a foreign-key violation insert a zero user
        row for the owner and retry once, which then succeeds. */
    static method InsertRow(owner: int, text: string, cost: int, renewable: bool, db: Database)
      returns (newId: int)
      requires db.Valid()
      modifies db`users, db`rewards, db`nextRewardId, db`clock
      ensures db.Valid()
      ensures newId == old(db.nextRewardId)
      ensures db.users == if owner in old(db.users) then old(db.users)
                          else old(db.users)[owner := ZeroLedger]
      ensures db.rewards == old(db.rewards) + [RewardRow(newId, owner, text, cost, renewable,
                                                         old(db.clock))]
    {
      var res := db.InsertReward(owner, text, cost, renewable);
      if res == Failure(ForeignKeyViolation) {
        var _ := db.InsertUser(owner);
        res := db.InsertReward(owner, text, cost, renewable);
      }
      newId := res.value;
    }

    /** The end of `create`: store the new id and cache the instance under it.
        An instance that had no id, and so was not cached, keeps the cache
        valid. */
    method Register(newId: int, cache: RewardCache)
      modifies this`id, cache`entries
      ensures id == Some(newId) && cache.entries == old(cache.entries)[newId := this]
      ensures old(cache.Valid()) && old(id) == None ==> cache.Valid()
    {
      ghost var wasValid := cache.Valid() && id == None;
      ghost var cached := cache.entries;
      assert wasValid ==> forall k :: k in cached ==> cached[k] != this && cached[k].id == Some(k);
      id := Some(newId);
      cache.entries := cache.entries[newId := this];
      if wasValid {
        forall k | k in cache.entries
          ensures cache.entries[k].id == Some(k)
        {
          if k != newId {
            assert cache.entries[k] == cached[k] && cached[k] != this;
          }
        }
      }
    }

    /** `delete`: evict the cache entry (a missing one is ignored), delete the
        row, and set `deleted`. */
    method Delete(db: Database, cache: RewardCache)
      requires db.Valid()
      modifies cache`entries, db`rewards, this`deleted
      ensures db.Valid()
      ensures deleted
      ensures cache.entries == if id.Some? then old(cache.entries) - {id.value} else old(cache.entries)
      ensures db.rewards == DeleteWhere(old(db.rewards), id)
      ensures id.Some? ==> id.value !in cache.entries && db.SelectReward(id.value).None?
      ensures old(cache.Valid()) ==> cache.Valid()
    {
      if id.Some? && id.value in cache.entries {
        cache.entries := cache.entries - {id.value};
      }
      db.DeleteReward(id);
      deleted := true;
      if id.Some? {
        Query.FilterSatisfies(old(db.rewards), RewardOther(id.value));
      }
    }

    /** `from_db(row)`: a new instance holding the row's fields, cached under
        the row's id (replacing any instance there); a missing row raises. */
    static method FromDb(row: Option<RewardRow>, cache: RewardCache) returns (r: Result<Reward, Error>)
      modifies cache`entries
      ensures row.None? ==> r == Failure(MissingRow) && cache.entries == old(cache.entries)
      ensures row.Some? ==>
                r.Success? && fresh(r.value) && r.value.Mirrors(row.value) && !r.value.deleted &&
                cache.entries == old(cache.entries)[row.value.id := r.value]
      ensures old(cache.Valid()) ==> cache.Valid()
    {
      if row.None? {
        return Failure(MissingRow);
      }
      var g := new Reward(row.value.owner, row.value.text, row.value.cost, row.value.renewable);
      g.id := Some(row.value.id);
      cache.entries := cache.entries[row.value.id := g];
      r := Success(g);
    }

    /** `fetch(id)`: the cached instance on a hit; on a miss the instance
        `from_db` builds and caches, so the next fetch of the same id returns
        the same object. A missing row raises. */
    static method Fetch(id: int, cache: RewardCache, db: Database) returns (r: Result<Reward, Error>)
      modifies cache`entries
      ensures id in old(cache.entries) ==>
                r == Success(old(cache.entries[id])) && cache.entries == old(cache.entries)
      ensures id !in old(cache.entries) && db.SelectReward(id).None? ==>
                r == Failure(MissingRow) && cache.entries == old(cache.entries)
      ensures id !in old(cache.entries) && db.SelectReward(id).Some? ==>
                r.Success? && fresh(r.value) && r.value.Mirrors(db.SelectReward(id).value) &&
                !r.value.deleted && cache.entries == old(cache.entries)[id := r.value]
      ensures r.Success? ==> id in cache.entries && cache.entries[id] == r.value
      ensures cache.Valid() ==> r.Success? ==> r.value.id == Some(id)
      ensures old(cache.Valid()) ==> cache.Valid()
    {
      if id in cache.entries {
        return Success(cache.entries[id]);
      }
      r := FromDb(db.SelectReward(id), cache);
    }

    /** `fetch_user_rewards(user_id)`: one new instance per reward row of the
        user, ordered by creation; each is cached under its id, replacing
        whatever was cached there, and no other cache entry changes. */
    static method FetchUserRewards(userId: int, cache: RewardCache, db: Database)
      returns (r: seq<Reward>)
      requires db.Valid()
      modifies cache`entries
      ensures |r| == |db.RewardsOf(userId)|
      ensures forall i :: 0 <= i < |r| ==>
                r[i].Mirrors(db.RewardsOf(userId)[i]) && r[i].owner == userId && !r[i].deleted
      ensures forall i :: 0 <= i < |r| ==> fresh(r[i])
      ensures forall i, j :: 0 <= i < j < |r| ==>
                db.RewardsOf(userId)[i].created < db.RewardsOf(userId)[j].created
      ensures forall i :: 0 <= i < |r| ==>
                db.RewardsOf(userId)[i].id in cache.entries &&
                cache.entries[db.RewardsOf(userId)[i].id] == r[i]
      ensures cache.entries.Keys ==
                old(cache.entries).Keys + set i | 0 <= i < |r| :: db.RewardsOf(userId)[i].id
      ensures forall k :: k in old(cache.entries) &&
                (forall i :: 0 <= i < |r| ==> db.RewardsOf(userId)[i].id != k)
                ==> cache.entries[k] == old(cache.entries[k])
      ensures old(cache.Valid()) ==> cache.Valid()
    {
      var rows := db.RewardsOf(userId);
      assert Query.IncreasingBy(rows, RewardCreated) by {
        Query.FilterKeepsOrder(db.rewards, RewardOwnedBy(userId), RewardCreated);
      }
      assert Query.IncreasingBy(rows, RewardId) by {
        Query.FilterKeepsOrder(db.rewards, RewardOwnedBy(userId), RewardId);
      }
      r := FromRows(rows, cache);
    }

    /** The loop of `fetch_user_rewards` over rows with distinct ids: one new
        instance per row, each cached under its row's id. */
    static method FromRows(rows: seq<RewardRow>, cache: RewardCache) returns (r: seq<Reward>)
      requires Query.IncreasingBy(rows, RewardId)
      modifies cache`entries
      ensures |r| == |rows|
      ensures forall i :: 0 <= i < |r| ==> r[i].Mirrors(rows[i]) && !r[i].deleted && fresh(r[i])
      ensures forall i :: 0 <= i < |r| ==> rows[i].id in cache.entries && cache.entries[rows[i].id] == r[i]
      ensures cache.entries.Keys == old(cache.entries).Keys + set i | 0 <= i < |r| :: rows[i].id
      ensures forall k :: k in old(cache.entries) && (forall i :: 0 <= i < |r| ==> rows[i].id != k)
                ==> cache.entries[k] == old(cache.entries[k])
      ensures old(cache.Valid()) ==> cache.Valid()
    {
      r := [];
      var i := 0;
      while i < |rows|
        invariant 0 <= i <= |rows|
        invariant |r| == i
        invariant forall k :: 0 <= k < i ==> r[k].Mirrors(rows[k]) && !r[k].deleted && fresh(r[k])
        invariant forall k :: 0 <= k < i ==> rows[k].id in cache.entries && cache.entries[rows[k].id] == r[k]
        invariant cache.entries.Keys == old(cache.entries).Keys + set k | 0 <= k < i :: rows[k].id
        invariant forall k :: k in old(cache.entries) && (forall j :: 0 <= j < i ==> rows[j].id != k)
                    ==> cache.entries[k] == old(cache.entries[k])
        invariant old(cache.Valid()) ==> cache.Valid()
      {
        var built := FromDb(Some(rows[i]), cache);
        r := r + [built.value];
        i := i + 1;
      }
    }
  }
}
