/** The points ledger (src/models/user.py): a `User` holds a user's spendable
    points ("crumbs") and share points, debits them only when the balance
    covers the amount, credits them unconditionally, and writes every change
    through to the `discord_user` row. `User._cache` maps a user id to its live
    instance. */
module Ledger {
  import opened Wrappers
  import opened Store

  /** One ledger operation, as the three mutating methods of `User` perform it. */
  datatype LedgerOp =
    | Debit(num: int)                          // use_points(num)
    | DebitShare(num: int)                     // use_share_points(num)
    | Credit(gained: real, gainedShare: int)   // add_points(points, share_points)

  /** The balance after `op` and whether the operation went through. */
  function Apply(b: Ledger, op: LedgerOp): (Ledger, bool) {
    match op
    case Debit(num) =>
      if b.points < num as real then (b, false) else (b.(points := b.points - num as real), true)
    case DebitShare(num) =>
      if b.sharePoints < num then (b, false) else (b.(sharePoints := b.sharePoints - num), true)
    case Credit(gained, gainedShare) =>
      (Ledger(b.points + gained, b.sharePoints + gainedShare), true)
  }

  /** The balance after a whole sequence of operations. */
  function Run(b: Ledger, ops: seq<LedgerOp>): Ledger
    decreases |ops|
  {
    if ops == [] then b else Run(Apply(b, ops[0]).0, ops[1..])
  }

  predicate NonNegative(b: Ledger) {
    b.points >= 0.0 && b.sharePoints >= 0
  }

  /** Credits are made with non-negative amounts (debits may take any amount). */
  predicate NonNegativeCredit(op: LedgerOp) {
    op.Credit? ==> op.gained >= 0.0 && op.gainedShare >= 0
  }

  /** One operation never drives a non-negative balance below zero; a debit
      that goes through takes exactly its amount, one that does not changes
      nothing. */
  lemma ApplyKeepsNonNegative(b: Ledger, op: LedgerOp)
    requires NonNegative(b) && NonNegativeCredit(op)
    ensures NonNegative(Apply(b, op).0)
    ensures op.Debit? ==>
              (Apply(b, op).1 <==> b.points >= op.num as real) &&
              Apply(b, op).0 == (if Apply(b, op).1 then b.(points := b.points - op.num as real) else b)
  {
  }

  /** Starting from non-negative balances, any sequence of debits and
      non-negative credits keeps both balances non-negative. */
  lemma {:induction false} RunKeepsNonNegative(b: Ledger, ops: seq<LedgerOp>)
    requires NonNegative(b)
    requires forall i :: 0 <= i < |ops| ==> NonNegativeCredit(ops[i])
    ensures NonNegative(Run(b, ops))
    decreases |ops|
  {
    if ops != [] {
      ApplyKeepsNonNegative(b, ops[0]);
      RunKeepsNonNegative(Apply(b, ops[0]).0, ops[1..]);
    }
  }

  /** The ledger `User.fetch(id)` would hand out: the cached instance's, else
      the stored row's, else a fresh zero ledger. */
  ghost function Resolve(entries: map<int, User>, rows: map<int, Ledger>, id: int): Ledger
    reads entries.Values
  {
    if id in entries then entries[id].Balance()
    else if id in rows then rows[id]
    else ZeroLedger
  }

  /** The user table after `User.fetch(id)`: a zero row is inserted on a cache
      miss for a user without a row. */
  function ProvisionedRows(entries: map<int, User>, rows: map<int, Ledger>, id: int)
    : (r: map<int, Ledger>)
    ensures id !in entries ==> id in r
  {
    if id !in entries && id !in rows then rows[id := ZeroLedger] else rows
  }

  /** `User._cache`. */
  class UserCache {
    var entries: map<int, User>

    /** Every instance is cached under its own id. */
    ghost predicate Valid()
      reads this
    {
      forall id :: id in entries ==> entries[id].userId == id
    }

    constructor ()
      ensures entries == map[] && Valid()
    {
      entries := map[];
    }
  }

  class User {
    const userId: int
    var points: real
    var sharePoints: int

    function Balance(): Ledger
      reads this
    {
      Ledger(points, sharePoints)
    }

    /** `User(user_id)`: a zero ledger, registered in the cache (replacing any
        instance cached under that id). */
    constructor (userId: int, cache: UserCache)
      modifies cache`entries
      ensures this.userId == userId && Balance() == ZeroLedger
      ensures cache.entries == old(cache.entries)[userId := this]
      ensures old(cache.Valid()) ==> cache.Valid()
    {
      this.userId := userId;
      points, sharePoints := 0.0, 0;
      new;
      cache.entries := cache.entries[userId := this];
    }

    /** `create`: insert the zero row; raises if the row already exists. */
    method Create(db: Database) returns (r: Outcome<Error>)
      modifies db`users
      ensures r == if userId in old(db.users) then Fail(UniqueViolation) else Pass
      ensures db.users == if userId in old(db.users) then old(db.users)
                          else old(db.users)[userId := ZeroLedger]
    {
      r := db.InsertUser(userId);
    }

    /** `use_points(num)`: refuse without any change when `points < num`,
        otherwise take `num` points and store the new balance. */
    method UsePoints(num: int, db: Database) returns (ok: bool)
      modifies this`points, db`users
      ensures ok <==> old(points) >= num as real
      ensures points == if ok then old(points) - num as real else old(points)
      ensures sharePoints == old(sharePoints)
      ensures db.users == if ok then WithPoints(old(db.users), userId, points) else old(db.users)
      ensures (Balance(), ok) == Apply(old(Balance()), Debit(num))
      ensures old(NonNegative(Balance())) ==> NonNegative(Balance())
    {
      if points < num as real {
        return false;
      }
      points := points - num as real;
      db.UpdatePoints(userId, points);
      ok := true;
    }

    /** `use_share_points(num)`: the same rule for share points. */
    method UseSharePoints(num: int, db: Database) returns (ok: bool)
      modifies this`sharePoints, db`users
      ensures ok <==> old(sharePoints) >= num
      ensures sharePoints == if ok then old(sharePoints) - num else old(sharePoints)
      ensures points == old(points)
      ensures db.users == if ok then WithSharePoints(old(db.users), userId, sharePoints)
                          else old(db.users)
      ensures (Balance(), ok) == Apply(old(Balance()), DebitShare(num))
      ensures old(NonNegative(Balance())) ==> NonNegative(Balance())
    {
      if sharePoints < num {
        return false;
      }
      sharePoints := sharePoints - num;
      db.UpdateSharePoints(userId, sharePoints);
      ok := true;
    }

    /** `add_points(points, share_points)`: credit both balances and store them. */
    method AddPoints(gained: real, gainedShare: int, db: Database)
      modifies this`points, this`sharePoints, db`users
      ensures Balance() == Ledger(old(points) + gained, old(sharePoints) + gainedShare)
      ensures db.users == WithLedger(old(db.users), userId, Balance())
      ensures (Balance(), true) == Apply(old(Balance()), Credit(gained, gainedShare))
      ensures old(NonNegative(Balance())) && gained >= 0.0 && gainedShare >= 0 ==>
                NonNegative(Balance())
    {
      points := points + gained;
      sharePoints := sharePoints + gainedShare;
      db.UpdateLedger(userId, Balance());
    }

    /** `from_db(row)`: `None` for no row; otherwise a new instance (which the
        constructor caches) carrying the row's balances. */
    static method FromDb(row: Option<(int, Ledger)>, cache: UserCache) returns (u: User?)
      modifies cache`entries
      ensures row.None? ==> u == null && cache.entries == old(cache.entries)
      ensures row.Some? ==>
                u != null && fresh(u) && u.userId == row.value.0 && u.Balance() == row.value.1 &&
                cache.entries == old(cache.entries)[row.value.0 := u]
      ensures old(cache.Valid()) ==> cache.Valid()
    {
      if row.None? {
        return null;
      }
      u := new User(row.value.0, cache);
      u.points := row.value.1.points;
      u.sharePoints := row.value.1.sharePoints;
    }

    /** `fetch(id)`: the cached instance on a hit; on a miss the stored row, or
        a new zero user whose row is inserted; either way cached under `id`. */
    static method Fetch(id: int, cache: UserCache, db: Database) returns (u: User)
      requires cache.Valid()
      modifies cache`entries, db`users
      ensures u.userId == id && id in cache.entries && cache.entries[id] == u
      ensures u.Balance() == old(Resolve(cache.entries, db.users, id))
      ensures db.users == old(ProvisionedRows(cache.entries, db.users, id))
      ensures id in old(cache.entries) ==>
                u == old(cache.entries[id]) && cache.entries == old(cache.entries)
      ensures id !in old(cache.entries) ==>
                fresh(u) && cache.entries == old(cache.entries)[id := u]
      ensures cache.Valid()
    {
      if id in cache.entries {
        u := cache.entries[id];
        return;
      }
      var found := FromDb(db.SelectUser(id), cache);
      if found == null {
        u := new User(id, cache);
        var _ := u.Create(db);
      } else {
        u := found;
      }
      cache.entries := cache.entries[id := u];
    }
  }
}
