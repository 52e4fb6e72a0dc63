/** The shop (src/commands/shop.py): the modal that creates a reward, the
    paginated reward list with its owner-only navigation, the dispatch of
    button clicks by custom-id prefix, and redeeming a reward for crumbs. */
module Shop {
  import opened Wrappers
  import opened Store
  import Numerals
  import Query
  import opened Ledger
  import opened Rewards

  // ---------------------------------------------------------------------
  // Pages of five

  const PageSize := 5

  /** `[s[i:min(i + 5, len(s))] for i in range(0, len(s), 5)]`. */
  function Chunks<T>(s: seq<T>): (pages: seq<seq<T>>)
    ensures forall k :: 0 <= k < |pages| ==> 1 <= |pages[k]| <= PageSize
    ensures forall k :: 0 <= k < |pages| - 1 ==> |pages[k]| == PageSize
  {
    seq((|s| + PageSize - 1) / PageSize, k requires 0 <= k < (|s| + PageSize - 1) / PageSize =>
      s[PageSize * k .. if PageSize * k + PageSize <= |s| then PageSize * k + PageSize else |s|])
  }

  /** The pages laid end to end. */
  function Flatten<T>(pages: seq<seq<T>>): seq<T> {
    if pages == [] then [] else Flatten(pages[..|pages| - 1]) + pages[|pages| - 1]
  }

  /** There are ceil(n / 5) pages, and item j of page k is item 5k + j of the
      list. */
  lemma ChunksShape<T>(s: seq<T>)
    ensures |Chunks(s)| == 0 <==> |s| == 0
    ensures |Chunks(s)| > 0 ==> PageSize * (|Chunks(s)| - 1) < |s| <= PageSize * |Chunks(s)|
    ensures forall k, j :: 0 <= k < |Chunks(s)| && 0 <= j < |Chunks(s)[k]| ==>
              Chunks(s)[k][j] == s[PageSize * k + j]
  {
  }

  /** The first k pages are the list's first 5k items (or all of it). */
  lemma {:induction false} FlattenChunksPrefix<T>(s: seq<T>, k: nat)
    requires k <= |Chunks(s)|
    ensures Flatten(Chunks(s)[..k]) ==
            s[..if PageSize * k <= |s| then PageSize * k else |s|]
  {
    var c := Chunks(s);
    if k > 0 {
      FlattenChunksPrefix(s, k - 1);
      assert c[..k][..k - 1] == c[..k - 1];
    }
  }

  /** Concatenating the pages gives the reward list back, in order. */
  lemma FlattenChunks<T>(s: seq<T>)
    ensures Flatten(Chunks(s)) == s
  {
    FlattenChunksPrefix(s, |Chunks(s)|);
    assert Chunks(s)[..|Chunks(s)|] == Chunks(s);
  }

  // ---------------------------------------------------------------------
  // The paginator

  /** The navigation row: back button, page label, forward button. */
  datatype NavRow = NavRow(backDisabled: bool, caption: string, forwardDisabled: bool)

  /** `f"{index + 1}/{len(chunks)}"`: the text before the '/' reads back as
      the page number and the text after it as the page count. */
  function PageLabel(index: int, count: int): (text: string)
    ensures var n := |Numerals.IntText(index + 1)|;
            n < |text| && text[n] == '/' &&
            Numerals.ParseInt(text[..n]) == Some(index + 1) &&
            Numerals.ParseInt(text[n + 1..]) == Some(count)
  {
    var page := Numerals.IntText(index + 1);
    var text := page + "/" + Numerals.IntText(count);
    Numerals.IntTextRoundTrip(index + 1);
    Numerals.IntTextRoundTrip(count);
    assert text[..|page|] == page && text[|page| + 1..] == Numerals.IntText(count);
    text
  }

  /** The navigation row that shows page `index` of `count`. With more than
      one page, at least one direction can always be clicked. */
  function NavFor(index: int, count: int): (row: NavRow)
    ensures row.backDisabled <==> index == 0
    ensures row.forwardDisabled <==> index == count - 1
    ensures row.caption == PageLabel(index, count)
    ensures 1 < count && 0 <= index < count ==> !(row.backDisabled && row.forwardDisabled)
  {
    NavRow(index == 0, PageLabel(index, count), index == count - 1)
  }

  /** `RewardListPaginator`: the reward list cut into pages, the page shown,
      and (only with more than one page) the navigation row. */
  class RewardListPaginator {
    const chunks: seq<seq<Reward>>
    const userId: int
    var index: int
    var nav: Option<NavRow>
    var page: seq<Reward>

    ghost predicate Valid()
      reads this
    {
      0 <= index < |chunks| && page == chunks[index] &&
      (nav.Some? <==> |chunks| > 1) &&
      (nav.Some? ==> nav.value == NavFor(index, |chunks|))
    }

    /** `__init__`: page 1 is shown; the navigation row exists only with more
        than one page, back disabled, label "1/n". The list must not be empty
        (`chunks[0]` is read). */
    constructor (rewards: seq<Reward>, userId: int)
      requires |rewards| > 0
      ensures Valid()
      ensures chunks == Chunks(rewards) && this.userId == userId
      ensures index == 0 && page == chunks[0]
      ensures nav.Some? <==> |rewards| > PageSize
      ensures nav.Some? ==> nav.value.backDisabled && !nav.value.forwardDisabled &&
                            nav.value.caption == "1/" + Numerals.IntText(|chunks|)
    {
      ChunksShape(rewards);
      chunks := Chunks(rewards);
      this.userId := userId;
      index := 0;
      page := Chunks(rewards)[0];
      if |Chunks(rewards)| > 1 {
        nav := Some(NavRow(true, "1/" + Numerals.IntText(|Chunks(rewards)|), false));
      } else {
        nav := None;
      }
    }

    /** `nav(forward)`: step one page; the back button is disabled exactly on
        the first page, the forward button exactly on the last, and the label
        reads "index+1/n". A disabled button cannot be clicked. */
    method Nav(forward: bool)
      requires Valid() && nav.Some?
      requires if forward then !nav.value.forwardDisabled else !nav.value.backDisabled
      modifies this`index, this`nav, this`page
      ensures Valid() && nav.Some?
      ensures index == if forward then old(index) + 1 else old(index) - 1
      ensures page == chunks[index]
      ensures nav.value.backDisabled <==> index == 0
      ensures nav.value.forwardDisabled <==> index == |chunks| - 1
      ensures nav.value.caption == PageLabel(index, |chunks|)
    {
      if forward {
        index := index + 1;
      } else {
        index := index - 1;
      }
      nav := Some(NavRow(index == 0, PageLabel(index, |chunks|), index == |chunks| - 1));
      page := chunks[index];
    }

    /** `NavButton.callback`: only the user the list was opened for can turn
        the page; anyone else's click changes nothing. */
    method NavClick(clicker: int, forward: bool) returns (accepted: bool)
      requires Valid() && nav.Some?
      requires if forward then !nav.value.forwardDisabled else !nav.value.backDisabled
      modifies this`index, this`nav, this`page
      ensures Valid()
      ensures accepted <==> clicker == userId
      ensures !accepted ==> index == old(index) && nav == old(nav) && page == old(page)
      ensures accepted ==> index == if forward then old(index) + 1 else old(index) - 1
    {
      if clicker != userId {
        return false;
      }
      Nav(forward);
      accepted := true;
    }
  }

  // ---------------------------------------------------------------------
  // Interaction dispatch

  const ShopRewardPrefix := "shop_reward::"
  const RefreshPrefix := "reward_list_refresh::"

  datatype Route = Ignore | RedeemRoute | RefreshRoute

  /** `on_interaction`: no custom id, or an unknown one, is ignored. */
  function Dispatch(customId: Option<string>): (r: Route)
    ensures r == RedeemRoute <==> customId.Some? && ShopRewardPrefix <= customId.value
    ensures r == RefreshRoute <==> customId.Some? && RefreshPrefix <= customId.value
  {
    if customId.None? then Ignore
    else if ShopRewardPrefix <= customId.value then
      assert customId.value[0] != RefreshPrefix[0];
      RedeemRoute
    else if RefreshPrefix <= customId.value then RefreshRoute
    else Ignore
  }

  /** `int(custom_id.split("::", maxsplit=1)[1])`: a text without "::" has no
      id, and neither has one whose rest is "None". */
  function ButtonId(customId: string): (r: Option<int>)
    ensures r.Some? ==> Numerals.AfterSeparator(customId).Some?
    ensures Numerals.AfterSeparator(customId) == Some("None") ==> r.None?
  {
    Numerals.NoneIsNotAnInt();

    match Numerals.AfterSeparator(customId)
    case None => None
    case Some(rest) => Numerals.ParseInt(rest)
  }

  /** Reading the id back from any shop button id gives the id it was made
      from, including the `None` of a reward never stored. */
  lemma ButtonIdInvertsShopCustomId(id: Option<int>)
    ensures ButtonId(ShopCustomId(id)) == id
  {
  }

  /** The button `short_display` draws for a stored reward is routed to the
      redemption handler, which reads back that reward's id. */
  lemma ShopButtonRoundTrip(r: Reward)
    requires r.id.Some?
    ensures Dispatch(Some(r.ShortDisplay().customId)) == RedeemRoute
    ensures ButtonId(r.ShortDisplay().customId) == r.id
  {
    assert r.ShortDisplay().customId == ShopCustomId(r.id);
    ButtonIdInvertsShopCustomId(r.id);
    ShopCustomIdIsRedeemed(r.id);
  }

  /** Every shop button's custom id starts with the prefix that routes to the
      redemption. */
  lemma ShopCustomIdIsRedeemed(id: Option<int>)
    ensures ShopRewardPrefix <= ShopCustomId(id)
  {
    assert ShopCustomId(id) == ShopRewardPrefix + Numerals.IdText(id);
  }

  // ---------------------------------------------------------------------
  // Creating a reward

  /** `CreateShopItem.callback`: `parsedCost` is `int()` of the cost field
      (`None` when it raises). A cost that is not a positive integer is
      refused and nothing is stored; otherwise a reward owned by the user is
      created, renewable exactly when "forever" was selected. */
  method CreateShopItem(user: int, text: string, parsedCost: Option<int>, selected: string,
                        db: Database, cache: RewardCache) returns (created: Reward?)
    requires db.Valid()
    modifies db`users, db`rewards, db`nextRewardId, db`clock, cache`entries
    ensures db.Valid()
    ensures created == null <==> Numerals.PositiveAmount(parsedCost).None?
    ensures created == null ==>
              db.users == old(db.users) && db.rewards == old(db.rewards) &&
              cache.entries == old(cache.entries)
    ensures created != null ==>
              fresh(created) && created.owner == user && created.text == text &&
              created.cost == parsedCost.value && created.cost > 0 &&
              (created.renewable <==> selected == "forever") &&
              created.id == Some(old(db.nextRewardId)) && !created.deleted &&
              db.rewards == old(db.rewards) + [RewardRow(old(db.nextRewardId), user, text,
                                                         created.cost, created.renewable,
                                                         old(db.clock))] &&
              cache.entries == old(cache.entries)[old(db.nextRewardId) := created] &&
              db.users == (if user in old(db.users) then old(db.users)
                           else old(db.users)[user := ZeroLedger])
    ensures old(cache.Valid()) ==> cache.Valid()
  {
    var cost := Numerals.PositiveAmount(parsedCost);
    if cost.None? {
      return null;
    }
    created := new Reward(user, text, cost.value, selected == "forever");
    created.Create(db, cache);
  }

  // ---------------------------------------------------------------------
  // Redeeming a reward

  datatype Redemption =
    | BadCustomId                 // the text after "::" is not an integer
    | NoSuchReward                // `Reward.fetch` raises: no cached instance, no row
    | NotEnoughCrumbs             // `use_points(cost)` refused
    | Redeemed(removed: bool)     // paid; `removed` when a once-only reward was deleted

  /** The first half of `shop_reward_button`: read the reward id from the
      button (a text that is not an integer raises) and fetch the reward (a
      missing one raises). Only the reward cache can change, and only as
      `Reward.fetch` changes it. */
  method LookUp(customId: string, rewards: RewardCache, db: Database)
    returns (r: Result<Reward, Redemption>)
    requires rewards.Valid()
    modifies rewards`entries
    ensures rewards.Valid()
    ensures r == Failure(BadCustomId) <==> ButtonId(customId).None?
    ensures ButtonId(customId).Some? ==>
              (r == Failure(NoSuchReward) <==>
               ButtonId(customId).value !in old(rewards.entries) &&
               db.SelectReward(ButtonId(customId).value).None?)
    ensures r.Failure? ==>
              (r.error == BadCustomId || r.error == NoSuchReward) &&
              rewards.entries == old(rewards.entries)
    ensures r.Success? ==>
              ButtonId(customId).Some? && r.value.id == ButtonId(customId) &&
              rewards.entries == old(rewards.entries)[ButtonId(customId).value := r.value]
    ensures r.Success? && ButtonId(customId).value in old(rewards.entries) ==>
              r.value == old(rewards.entries[ButtonId(customId).value])
    ensures r.Success? && ButtonId(customId).value !in old(rewards.entries) ==>
              fresh(r.value) && db.SelectReward(ButtonId(customId).value).Some? &&
              r.value.Mirrors(db.SelectReward(ButtonId(customId).value).value) && !r.value.deleted
  {
    var rewardId := ButtonId(customId);
    if rewardId.None? {
      return Failure(BadCustomId);
    }
    var fetched := Reward.Fetch(rewardId.value, rewards, db);
    if fetched.Failure? {
      return Failure(NoSuchReward);
    }
    r := Success(fetched.value);
  }

  /** `User.fetch(clicker)` then `use_points(cost)`: the debit is refused
      exactly when the clicker's balance, as `User.fetch` resolves it, is
      below the cost, and then no balance changes; otherwise exactly the cost
      is taken and stored. No other cached user changes. */
  method Charge(clicker: int, cost: int, users: UserCache, db: Database) returns (paid: bool)
    requires users.Valid()
    modifies db`users, users`entries, (if clicker in users.entries then {users.entries[clicker]} else {})`points
    ensures users.Valid() && clicker in users.entries
    ensures paid <==> old(Resolve(users.entries, db.users, clicker)).points >= cost as real
    ensures !paid ==>
              users.entries[clicker].Balance() == old(Resolve(users.entries, db.users, clicker)) &&
              db.users == old(ProvisionedRows(users.entries, db.users, clicker))
    ensures paid ==>
              users.entries[clicker].Balance() ==
                Apply(old(Resolve(users.entries, db.users, clicker)), Debit(cost)).0 &&
              db.users == WithPoints(old(ProvisionedRows(users.entries, db.users, clicker)), clicker,
                                     users.entries[clicker].points)
    ensures users.entries == old(users.entries)[clicker := users.entries[clicker]]
  {
    var u := User.Fetch(clicker, users, db);
    paid := u.UsePoints(cost, db);
  }

  /** The part of `shop_reward_button` after the reward is found: charge the
      clicking user, and delete a reward that is not renewable once paid. A
      refused debit changes no balance and deletes nothing; a redemption
      takes exactly the cost. */
  method Settle(reward: Reward, clicker: int, rewards: RewardCache, users: UserCache, db: Database)
    returns (outcome: Redemption)
    requires db.Valid() && rewards.Valid() && users.Valid() && reward.id.Some?
    modifies db`users, db`rewards, rewards`entries, reward`deleted, users`entries
    modifies (if clicker in users.entries then {users.entries[clicker]} else {})`points
    ensures db.Valid() && rewards.Valid() && users.Valid()
    ensures outcome.NotEnoughCrumbs? || outcome.Redeemed?
    ensures clicker in users.entries
    ensures outcome.NotEnoughCrumbs? <==>
              old(Resolve(users.entries, db.users, clicker)).points < reward.cost as real
    ensures outcome.NotEnoughCrumbs? ==>
              users.entries[clicker].Balance() == old(Resolve(users.entries, db.users, clicker)) &&
              db.users == old(ProvisionedRows(users.entries, db.users, clicker)) &&
              db.rewards == old(db.rewards) && rewards.entries == old(rewards.entries)
    ensures outcome.Redeemed? ==>
              users.entries[clicker].Balance() ==
                Apply(old(Resolve(users.entries, db.users, clicker)), Debit(reward.cost)).0 &&
              db.users == WithPoints(old(ProvisionedRows(users.entries, db.users, clicker)), clicker,
                                     users.entries[clicker].points) &&
              (outcome.removed <==> !reward.renewable)
    ensures outcome == Redeemed(true) ==>
              reward.deleted && reward.id.value !in rewards.entries &&
              rewards.entries == old(rewards.entries) - {reward.id.value} &&
              db.rewards == DeleteWhere(old(db.rewards), reward.id) &&
              db.SelectReward(reward.id.value).None?
    ensures outcome == Redeemed(false) ==>
              db.rewards == old(db.rewards) && rewards.entries == old(rewards.entries)
    ensures outcome != Redeemed(true) ==> reward.deleted == old(reward.deleted)
    ensures users.entries == old(users.entries)[clicker := users.entries[clicker]]
  {
    var paid := Charge(clicker, reward.cost, users, db);
    if !paid {
      return NotEnoughCrumbs;
    }
    if !reward.renewable {
      reward.Delete(db, rewards);
      outcome := Redeemed(true);
    } else {
      outcome := Redeemed(false);
    }
  }

  /** `shop_reward_button`: look the reward up as `LookUp` does, then settle
      the purchase as `Settle` does. */
  method RedeemReward(customId: string, clicker: int, rewards: RewardCache, users: UserCache,
                      db: Database) returns (outcome: Redemption, reward: Reward?)
    requires db.Valid() && rewards.Valid() && users.Valid()
    modifies db`users, db`rewards, rewards`entries, users`entries
    modifies (if ButtonId(customId).Some? && ButtonId(customId).value in rewards.entries
              then {rewards.entries[ButtonId(customId).value]} else {})`deleted
    modifies (if clicker in users.entries then {users.entries[clicker]} else {})`points
    ensures db.Valid() && rewards.Valid() && users.Valid()
    ensures outcome == BadCustomId <==> ButtonId(customId).None?
    ensures ButtonId(customId).Some? ==>
              (outcome == NoSuchReward <==>
               ButtonId(customId).value !in old(rewards.entries) &&
               old(db.SelectReward(ButtonId(customId).value)).None?)
    ensures outcome == BadCustomId || outcome == NoSuchReward ==>
              reward == null && db.users == old(db.users) && db.rewards == old(db.rewards) &&
              users.entries == old(users.entries) && rewards.entries == old(rewards.entries)
    ensures outcome.NotEnoughCrumbs? || outcome.Redeemed? ==>
              ButtonId(customId).Some? && reward != null && reward.id == ButtonId(customId) &&
              (ButtonId(customId).value in old(rewards.entries) ==>
                 reward == old(rewards.entries[ButtonId(customId).value])) &&
              (ButtonId(customId).value !in old(rewards.entries) ==>
                 fresh(reward) && old(db.SelectReward(ButtonId(customId).value)).Some? &&
                 reward.Mirrors(old(db.SelectReward(ButtonId(customId).value)).value)) &&
              clicker in users.entries
    ensures outcome.NotEnoughCrumbs? <==>
              reward != null && old(Resolve(users.entries, db.users, clicker)).points < reward.cost as real
    ensures outcome.NotEnoughCrumbs? ==>
              users.entries[clicker].Balance() == old(Resolve(users.entries, db.users, clicker)) &&
              db.users == old(ProvisionedRows(users.entries, db.users, clicker)) &&
              db.rewards == old(db.rewards)
    ensures outcome.Redeemed? ==>
              users.entries[clicker].Balance() ==
                Apply(old(Resolve(users.entries, db.users, clicker)), Debit(reward.cost)).0 &&
              db.users == WithPoints(old(ProvisionedRows(users.entries, db.users, clicker)), clicker,
                                     users.entries[clicker].points) &&
              (outcome.removed <==> !reward.renewable)
    ensures outcome == Redeemed(true) ==>
              reward.deleted && reward.id.value !in rewards.entries &&
              rewards.entries == old(rewards.entries) - {ButtonId(customId).value} &&
              db.rewards == DeleteWhere(old(db.rewards), reward.id) &&
              db.SelectReward(reward.id.value).None?
    ensures outcome == Redeemed(false) ==> db.rewards == old(db.rewards)
    ensures outcome.NotEnoughCrumbs? || outcome == Redeemed(false) ==>
              rewards.entries == old(rewards.entries)[ButtonId(customId).value := reward] &&
              (ButtonId(customId).value in old(rewards.entries) ==>
                 reward.deleted == old(rewards.entries[ButtonId(customId).value].deleted)) &&
              (ButtonId(customId).value !in old(rewards.entries) ==> !reward.deleted)
    ensures outcome.NotEnoughCrumbs? || outcome.Redeemed? ==>
              users.entries == old(users.entries)[clicker := users.entries[clicker]]
  {
    ghost var balance := Resolve(users.entries, db.users, clicker);
    ghost var rows := ProvisionedRows(users.entries, db.users, clicker);
    var found := LookUp(customId, rewards, db);
    if found.Failure? {
      return found.error, null;
    }
    assert Resolve(users.entries, db.users, clicker) == balance;
    assert ProvisionedRows(users.entries, db.users, clicker) == rows;
    reward := found.value;
    outcome := Settle(reward, clicker, rewards, users, db);
    UpdateThenRemove(old(rewards.entries), reward.id.value, reward);
  }

  /** Removing a key undoes any update of it. */
  lemma UpdateThenRemove<K, V>(m: map<K, V>, k: K, v: V)
    ensures m[k := v] - {k} == m - {k}
  {
  }
}
