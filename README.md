# Meowtivation entity layer and command rules, in Dafny

Meowtivation is a Discord bot. Users set personal goals and earn "crumbs"
(points) for completing them. They spend crumbs on rewards in a personal shop.
Other users can add "incentives" to a goal, which raise its payout.

This project models the bot's entity layer and the decision rules of its
command handlers, and proves properties of that model:

- **Ledger** (`user.dfy`, `src/models/user.py`): a `User` holds spendable
  points and share points. It debits either balance only when the balance
  covers the amount, credits both unconditionally, and writes every change
  through to the `discord_user` row. `User._cache` is a `UserCache` whose
  map is rewritten by the constructor and by `fetch`. `Apply`/`Run` give a
  pure reference semantics of the three ledger operations. Each method is
  proved to agree with that semantics, and non-negativity is proved over any
  sequence of operations.
- **Goals** (`goal.dfy`, `src/models/goal.py`): `RepeatType` and its stored
  value. A `Goal` is created with a foreign-key retry, edited field by field
  and completed. Completion pays `reward + reward * 0.1 * len(incentives)`
  points and one share point. `fetch` does not write the cache.
  `fetch_user_goals` returns rows in creation order.
- **Rewards** (`reward.dfy`, `src/models/reward.py`): create with the same
  retry, and delete (evict from the cache, remove the row, set `deleted`).
  `fetch` and `fetch_user_rewards` cache every instance they build.
  The shop button of `short_display` carries `"shop_reward::" + str(id)` and
  is disabled exactly when the reward was deleted.
- **Incentives** (`incentive.dfy`, `src/models/incentive.py`): append-only,
  non-unique `(sender, goal)` rows. `fetch_all_goal` lists them with
  multiplicity. The cache is never written.
- **Midnight reset** (`goal_repeat.dfy`, `src/commands/goal_repeat.py`): for
  a UTC date, which repeat periods are reset, and the resulting goal table.
- **Shop** (`shop.dfy`, `src/commands/shop.py`):
  - cost validation and the renewable choice when a reward is created;
  - pages of five rewards;
  - the page-navigation state machine and its owner check;
  - dispatch of button clicks by custom-id prefix;
  - redeeming a reward.
- **Goal creation command** (`create_goal.dfy`,
  `src/commands/create_goal.py`): crumb validation, then the insert with the
  foreign-key retry, always with repeat value 0.

Supporting modules:

- `Store` (`store.dfy`) is the PostgreSQL database as four tables, one method
  per SQL statement. `goal` and `reward` keep insertion order. Their ids come
  from auto-increment counters and their `created` stamps from a store clock.
  `Database.Valid()` keeps ids and stamps strictly increasing, so
  `ORDER BY created` is table order.
- `Query` (`query.dfy`) gives the meaning of a `WHERE` clause (`Filter`,
  `First`) and lemmas about it.
- `Numerals` (`numerals.dfy`) models `str(int)`, `int(str)` on decimal text,
  and `split("::", maxsplit=1)[1]`.
- `Wrappers` (`wrappers.dfy`) holds `Option`, `Result` and `Outcome`.

Each Python class-level `_cache` dict is a small class (`UserCache`,
`GoalCache`, `RewardCache`, `IncentiveCache`) passed to the methods that use
it. A foreign-key violation on a goal or reward insert is "the owner has no
`discord_user` row".

Three behaviours of the code that the model keeps as written:

- `Reward.fetch` of a missing id calls `from_db(None)`, which raises
  (`src/models/reward.py:72`, `:84`). So the "already claimed" reply of
  `src/commands/shop.py:147-149` is never reached; `Shop.RedeemReward` ends
  in `NoSuchReward` (the raise) instead.
- Only the create-goal command checks that a goal's reward is positive;
  `Goal` itself accepts any integer.
- The goal-creation command ignores the repeat selection and always stores
  repeat value 0 (`src/commands/create_goal.py:47`).

## Model

| member | source | states |
|---|---|---|
| Ledger.ApplyKeepsNonNegative | src/models/user.py:22-43 | One ledger operation keeps a non-negative balance non-negative when credits are non-negative. A points debit goes through exactly when the balance covers it. When it does, it takes exactly `num`; when it does not, the balance is unchanged. |
| Ledger.RunKeepsNonNegative | src/models/user.py:22-43 | Starting from non-negative balances, any sequence of debits and non-negative credits leaves both balances non-negative. Proved by induction on the sequence. |
| Ledger.ProvisionedRows | src/models/user.py:46-56 | After a `fetch` that misses the cache, the user has a `discord_user` row. |
| Ledger.UserCache.constructor | src/models/user.py:10 | The cache starts empty and satisfies its invariant (every instance is cached under its own id). |
| Ledger.User.constructor | src/models/user.py:12-17 | A new user has balances (0, 0) and replaces whatever was cached under its id. |
| Ledger.User.Create | src/models/user.py:19-20 | Inserts the zero row. It fails with a unique violation, changing nothing, when the row exists. |
| Ledger.User.UsePoints | src/models/user.py:22-29 | Returns false, changing neither `points` nor the row, exactly when `points < num`. Otherwise `points` drops by exactly `num` and the row holds the new value. Share points are untouched. The result equals `Apply(old balance, Debit(num))`. |
| Ledger.User.UseSharePoints | src/models/user.py:31-38 | The same rule for share points: refuses without change exactly when `share_points < num`, otherwise takes `num` and stores it. Points are untouched. |
| Ledger.User.AddPoints | src/models/user.py:40-43 | Both balances grow by the given amounts and both are stored. This equals `Apply(old balance, Credit(...))`. Non-negative amounts keep non-negative balances. |
| Ledger.User.FromDb | src/models/user.py:58-66 | No row gives `None`. Otherwise a new instance with the row's balances, which overwrites the cache slot. |
| Ledger.User.Fetch | src/models/user.py:45-56 | A hit returns the cached instance and changes nothing. A miss builds from the row, or else creates a zero user and inserts its row. Afterwards `_cache[id]` is the returned object, so a second fetch returns the same instance. |
| Goals.RepeatType.Value | src/models/goal.py:13-18 | The stored value of a repeat type lies in 0..4. |
| Goals.RepeatOf | src/models/goal.py:13-18 | `RepeatType(v)` is defined exactly for 0..4 and inverts `.value` there. |
| Goals.RepeatValueRoundTrip | src/models/goal.py:13-18 | Converting a stored value back gives the repeat type that was stored. |
| Goals.RepeatType.Display | src/models/goal.py:20-30 | Only a goal that never repeats is described as "Never". Every other description ends with the reset time, "Midnight UTC". |
| Goals.DisplayDistinct | src/models/goal.py:20-30 | Different repeat types have different descriptions. |
| Goals.CompletionPoints | src/models/goal.py:125 | The payout `reward + reward * 0.1 * n` is the reward scaled by (10 + n) / 10. |
| Goals.CompletionPointsLinear | src/models/goal.py:125 | The completion payout is the reward with no incentives. Each incentive adds exactly a tenth of the reward, with no cap. A positive reward never pays less than itself. |
| Goals.CompletionPointsExample | src/models/goal.py:125 | A reward of 10 with two incentives pays 12 points. |
| Goals.GoalCache.constructor | src/models/goal.py:34 | The goal cache starts empty, so every instance in it is cached under its own id. |
| Goals.Goal.constructor | src/models/goal.py:36-47 | A new goal is not completed, has no id, no reset time, no creation stamp and no incentives. |
| Goals.Goal.Create | src/models/goal.py:88-99 | Appends one row with `completed = false` and no reset time. When the owner had no row, exactly one zero user row is inserted first (the retry). `id` becomes the store-generated id, `SELECT ... WHERE id` finds the new row, and `_cache[id]` is this goal. A goal that had no id keeps the cache invariant. |
| Goals.Goal.InsertRow | src/models/goal.py:89-97 | The insert with its retry: the row gets the next id and stamp, and a zero user row is inserted first exactly when the owner had none. |
| Goals.Goal.Register | src/models/goal.py:94-99 | The new id is stored and the instance is cached under it, replacing any entry there. An instance that had no id keeps every cached goal under its own id. |
| Goals.Goal.Edit | src/models/goal.py:101-120 | A field changes exactly when its argument is given. The row with this id is rewritten from all four current fields; other rows, ids and stamps are unchanged. |
| Goals.Goal.Complete | src/models/goal.py:122-125 | The goal is marked completed in memory and in its row. The owner's ledger, as `User.fetch` resolves it, is credited `reward + reward*0.1*len(incentives)` points and one share point, and the row stores it. The user cache gains at most the owner's key; no other cached user changes. |
| Goals.Goal.FromDb | src/models/goal.py:146-154 | Maps a row's fields one to one, with no incentives. A missing row, or a repeat value outside 0..4, raises. |
| Goals.Goal.Fetch | src/models/goal.py:127-135 | A hit returns the cached goal, which under the cache invariant is the goal with that id. A miss builds a new instance from the row with one incentive per incentive row of the goal. The miss does not write the cache, so repeated misses give distinct objects. A missing row raises. |
| Goals.Goal.FetchUserGoals | src/models/goal.py:137-144 | Returns exactly the user's goals (only uncompleted ones unless asked), one new instance per row with no incentives loaded, in strictly increasing creation order. It raises exactly when one of those rows has an invalid repeat value. |
| Rewards.RewardCache.constructor | src/models/reward.py:11 | The reward cache starts empty and satisfies its invariant (every instance is cached under its own id). |
| Rewards.Reward.constructor | src/models/reward.py:13-20 | A new reward has no id and is not deleted. |
| Rewards.Reward.ShortDisplay | src/models/reward.py:25-41 | The shop button is disabled exactly when the reward is deleted. For a stored reward, its custom id reads back as the reward's id. |
| Rewards.Reward.Create | src/models/reward.py:43-54 | Appends the row. When the owner had no row, one zero user row is inserted first and the insert is retried. `id` becomes the new id, the new row is found by id, and `_cache[id]` is this reward. A reward that had no id keeps the cache invariant. |
| Rewards.Reward.InsertRow | src/models/reward.py:44-52 | The insert with its retry: the row gets the next id and stamp, and a zero user row is inserted first exactly when the owner had none. |
| Rewards.Reward.Register | src/models/reward.py:48-54 | The new id is stored and the instance is cached under it, replacing any entry there. An instance that had no id keeps every cached instance under its own id. |
| Rewards.Reward.Delete | src/models/reward.py:59-65 | The id is evicted from the cache (a missing key is tolerated). The row is removed and no row with that id remains. `deleted` becomes true. |
| Rewards.Reward.FromDb | src/models/reward.py:82-89 | A new instance with the row's fields, cached under the row's id (overwriting the slot). A missing row raises. |
| Rewards.Reward.Fetch | src/models/reward.py:67-74 | A hit returns the cached object. A miss builds through `from_db`, which caches it, so the next fetch returns the same instance. A missing row raises. |
| Rewards.Reward.FetchUserRewards | src/models/reward.py:76-80 | One new instance per reward row of the user, in strictly increasing creation order. Each replaces whatever was cached under its id; every other cache entry is unchanged, and the cache invariant is kept. |
| Rewards.Reward.FromRows | src/models/reward.py:80 | The comprehension that builds the result, over rows with distinct ids: one new, undeleted instance per row holding its fields. Each is cached under its row's id, the cache gains exactly those keys, every other entry is unchanged, and the cache invariant is kept. |
| Incentives.IncentiveCache.constructor | src/models/incentive.py:9-10 | The incentive cache starts empty. |
| Incentives.Incentive.constructor | src/models/incentive.py:12-14 | Holds the given sender and goal. |
| Incentives.Incentive.Create | src/models/incentive.py:16-18 | Appends one `(sender, goal)` row with no uniqueness check, so a repeated boost adds another row to the goal's list. It fails with a foreign-key violation, changing nothing, exactly when the sender or the goal is missing. |
| Incentives.Incentive.FromDb | src/models/incentive.py:35-39 | Keeps the row's sender and goal. A missing row raises. |
| Incentives.Incentive.Fetch | src/models/incentive.py:20-27 | Looks up the cache under `(goal, sender)`. On a miss, it succeeds exactly when a matching row exists and returns that sender and goal. |
| Incentives.Incentive.FetchAllGoal | src/models/incentive.py:29-33 | One instance per incentive row of the goal, in order, duplicates included. |
| Incentives.FetchReadsTable | src/models/incentive.py:20-27 | With the cache as nothing ever fills it, `fetch` succeeds exactly when the table has a matching row. |
| GoalRepeat.ClearsOn | src/commands/goal_repeat.py:14-21 | Never-repeating goals are never reset and daily goals always are. A day that resets yearly goals is January 1st. Any reset of a non-daily goal falls on a Monday or on the 1st of a month. |
| GoalRepeat.Uncomplete | src/commands/goal_repeat.py:8-21 | The four conditional bulk updates leave the goal table equal to `Tick(old table, date)`. |
| GoalRepeat.Tick | src/commands/goal_repeat.py:12-21 | The table after a reset has the same rows in which only `completed` can change. No goal becomes completed, and a goal is cleared exactly when its period starts that day. |
| GoalRepeat.TickIdempotent | src/commands/goal_repeat.py:12-21 | Running the tick twice for the same date gives the same table as running it once. |
| GoalRepeat.TickNeverAndDaily | src/commands/goal_repeat.py:12-14 | Never-repeating goals, and rows with a value outside 0..4, are never changed. Daily goals are uncompleted after every tick. |
| GoalRepeat.PeriodsNest | src/commands/goal_repeat.py:16-21 | A date that resets yearly goals also resets monthly ones. Weekly goals are reset exactly on Mondays (weekday 0). |
| Shop.Chunks | src/commands/shop.py:65 | Every page holds one to five rewards, and every page but the last holds exactly five. |
| Shop.ChunksShape | src/commands/shop.py:65 | There are ceil(n/5) pages, none exactly when there are no rewards. Item j of page k is reward 5k + j. |
| Shop.FlattenChunksPrefix | src/commands/shop.py:65 | The first k pages laid end to end are the first 5k rewards (or all of them). |
| Shop.FlattenChunks | src/commands/shop.py:65 | Concatenating the pages gives the reward list back, in order. |
| Shop.PageLabel | src/commands/shop.py:97 | The text before the "/" of the page label reads back as the page number `index + 1`, and the text after it as the page count. |
| Shop.NavFor | src/commands/shop.py:96-98 | Back is disabled exactly on the first page and forward exactly on the last. With more than one page, at least one of the two buttons is enabled. |
| Shop.RewardListPaginator.constructor | src/commands/shop.py:64-87 | Shows page 1. A navigation row exists exactly when there are more than five rewards; it then has back disabled, forward enabled and label "1/n". |
| Shop.RewardListPaginator.Nav | src/commands/shop.py:89-104 | The index moves by one in the clicked direction and stays within the pages. The shown page is that chunk, and the navigation row matches it. |
| Shop.RewardListPaginator.NavClick | src/commands/shop.py:55-60 | The page turns exactly when the clicker is the user the list was opened for. Anyone else's click changes nothing. |
| Shop.Dispatch | src/commands/shop.py:135-141 | A click goes to redemption exactly when its custom id starts with `shop_reward::`, and to the refresh exactly when it starts with `reward_list_refresh::`. Anything else, or no custom id, is ignored. |
| Shop.ButtonId | src/commands/shop.py:145 | A custom id without "::" has no id, and neither has one whose text after "::" is "None". |
| Shop.ButtonIdInvertsShopCustomId | src/commands/shop.py:145 | Reading the id back from `"shop_reward::" + str(id)` gives `id`, including `None` for an unsaved reward. |
| Shop.ShopCustomIdIsRedeemed | src/models/reward.py:37 | Every shop button's custom id, stored or not, starts with `"shop_reward::"`, the prefix the interaction handler routes to redemption. |
| Shop.ShopButtonRoundTrip | src/commands/shop.py:138-145 | The button `short_display` draws for a stored reward is dispatched to redemption, which reads back that reward's id. |
| Shop.CreateShopItem | src/commands/shop.py:25-47 | Refuses, storing nothing, exactly when the cost is not a positive integer. Otherwise it creates the user's reward with that cost, renewable exactly when "forever" was selected. When the user had no row, exactly one zero user row is inserted first; otherwise the user table is unchanged. The reward cache invariant is kept. |
| Shop.LookUp | src/commands/shop.py:145-146 | A custom id whose text after "::" is not an integer fails as `BadCustomId`. An id with no cached reward and no row fails as `NoSuchReward`. Otherwise it returns the cached reward, or a new one mirroring its row and now cached. Only that cache slot changes. |
| Shop.Charge | src/commands/shop.py:151-152 | The debit is refused exactly when the clicker's balance, as `User.fetch` resolves it, is below the cost; then no balance changes. Otherwise exactly the cost is taken and stored. Only the clicker's cache slot and only the clicker's in-memory points can change. |
| Shop.Settle | src/commands/shop.py:151-161 | The debit is refused exactly when the clicker's balance is below the cost; then no balance changes and the reward is neither deleted nor evicted. Otherwise the balance drops by exactly the cost. A non-renewable reward is then deleted (row and cache entry); a renewable one stays. Only the clicker's cache slot and points change among the cached users. |
| Shop.RedeemReward | src/commands/shop.py:144-165 | A custom id whose text after "::" is not an integer, or an id with no cached reward and no row, changes nothing. Otherwise the fetched reward is the cached one or a new one mirroring its row, and the payment follows `Settle`. After a refusal or a renewable redemption, the reward cache only gained that reward, and its `deleted` flag is as it was. After a once-only redemption, the reward cache is the old one without that id. No other cached reward's `deleted` flag, and no other cached user's slot or points, can change. |
| CreateGoalCommand.CreateGoalCallback | src/commands/create_goal.py:31-53 | Refuses, inserting nothing, exactly when the crumb reward is not a positive integer. Otherwise it appends a goal with repeat 0 and `completed = false`. When the user had no row, exactly one zero user row is inserted before the one retry. The reply is the inserted goal's id. |
| Numerals.NatText | src/models/reward.py:37 | `str` of a non-negative integer is a non-empty run of digits without a leading zero. |
| Numerals.NatTextValue | src/commands/shop.py:145 | Reading the digits `str` wrote for a non-negative integer gives that integer back. |
| Numerals.IntTextRoundTrip | src/commands/shop.py:145 | `int(str(n)) == n` for every integer. |
| Numerals.ParseInt | src/commands/shop.py:145 | The model's reading of `int()` on the custom id's tail: an optional "-" followed by digits, and nothing else, parses. Without the "-" the result is non-negative, and a negative result was written with "-". |
| Numerals.NoneIsNotAnInt | src/models/reward.py:37 | The button of a reward with no id says "None", which does not parse as an integer. |
| Numerals.AfterSeparator | src/commands/shop.py:145 | `split("::", 1)[1]` is the end of the text, immediately after a "::". |
| Numerals.AfterSeparatorFirst | src/commands/shop.py:145 | The split fails exactly when the text has no "::", and the "::" it splits at is the first one. |
| Numerals.AfterSeparatorOfPrefix | src/commands/shop.py:145 | For a prefix without ':', the text after the first "::" of `prefix + "::" + rest` is `rest`. |
| Numerals.PrefixedId | src/models/reward.py:37 | A button custom id, prefix + "::" + `str(id)` for a prefix without ':' (`"shop_reward"` here, `"view_goal"` at `src/models/goal.py:84`): the text after the first "::" is `str(id)`, and parsing it gives the id back. For an instance never stored it is "None", which does not parse. |
| Query.Filter | src/models/goal.py:140-142 | A `WHERE` selection never returns more rows than the table holds. |
| Query.First | src/models/reward.py:71 | `fetch_one` returns a row of the table that satisfies the clause. It returns nothing exactly when no row does. |
| Query.FirstOfAppended | src/models/goal.py:89-93 | A row appended after rows that all fail the clause is the one `fetch_one` finds. |
| Query.FilterSelects | src/models/reward.py:78 | A row is selected exactly when it is in the table and satisfies the clause. |
| Query.FilterSatisfies | src/models/reward.py:78 | Every selected row satisfies the clause. |
| Query.FilterKeepsOrder | src/models/goal.py:140-142 | Selection keeps a strictly increasing key (such as `created`) strictly increasing, and every selected key is a key of the table. |
| Query.FilterNone | src/models/goal.py:140-142 | If no row satisfies the clause, nothing is selected. |
| Query.FilterAll | src/models/goal.py:140-142 | If every row satisfies the clause, the whole table is selected. |
| Store.WithPoints | src/models/user.py:28 | `UPDATE discord_user SET points` never adds or removes a user row. |
| Store.WithSharePoints | src/models/user.py:37 | `UPDATE discord_user SET share_points` never adds or removes a user row. |
| Store.WithLedger | src/models/user.py:43 | Updating both balances never adds or removes a user row. |
| Store.SetGoalFields | src/models/goal.py:112-120 | The goal `UPDATE` keeps the number of rows, every id and every creation stamp. |
| Store.ClearCompleted | src/commands/goal_repeat.py:12 | `UPDATE goal SET completed=FALSE WHERE repeat=$1` changes no field other than `completed`. |
| Store.DeleteRemoves | src/models/reward.py:64 | `DELETE FROM reward WHERE id=$1` removes exactly the rows with that id. |
| Store.Database.SelectGoal | src/models/goal.py:131-132 | Any row found has the requested id. |
| Store.Database.GoalsOf | src/models/goal.py:139-143 | Every row returned belongs to the owner, and is uncompleted unless completed goals were asked for. |
| Store.Database.SelectReward | src/models/reward.py:71-72 | Any row found has the requested id. |
| Store.Database.RewardsOf | src/models/reward.py:78-79 | Every row returned belongs to the owner. |
| Store.Database.IncentivesOn | src/models/incentive.py:31-32 | Every row returned is on that goal, and there are no more of them than the table holds. |
| Store.Database.SelectIncentive | src/models/incentive.py:24-25 | Returns the `(sender, goal)` row exactly when the table has one. |
| Store.Database.InsertUser | src/models/user.py:20 | Inserts a zero row. It raises a unique violation, changing nothing, when the row exists. |
| Store.Database.UpdatePoints | src/models/user.py:28 | Stores the new points of an existing row. |
| Store.Database.UpdateSharePoints | src/models/user.py:37 | Stores the new share points of an existing row. |
| Store.Database.UpdateLedger | src/models/user.py:43 | Stores both new balances of an existing row. |
| Store.Database.InsertGoal | src/models/goal.py:89-93 | Raises a foreign-key violation, changing nothing, exactly when the owner has no row. Otherwise it appends the row under the next id and stamp, and keeps the table invariant. |
| Store.Database.UpdateGoal | src/models/goal.py:112-120 | Rewrites the four fields of the row with that id and keeps the table invariant. |
| Store.Database.ResetCompleted | src/commands/goal_repeat.py:12 | Clears `completed` on every goal with that repeat value and keeps the table invariant. |
| Store.Database.InsertReward | src/models/reward.py:44-48 | Raises a foreign-key violation, changing nothing, exactly when the owner has no row. Otherwise it appends the row under the next id and stamp. |
| Store.Database.DeleteReward | src/models/reward.py:64 | Removes the rows with that id (none for a `None` id) and keeps the table invariant. |
| Store.Database.InsertIncentive | src/models/incentive.py:17-18 | Appends the pair exactly when the sender and the goal exist; otherwise it raises a foreign-key violation and changes nothing. |

## Left out

- The connection pool, asyncpg calls, the jsonb codec and timeouts of `src/utils/database.py`. The store is four abstract tables, and each SQL statement is one method of `Store.Database`.
- Bot start-up (`src/main.py`), message and embed rendering (`src/utils/component_factory.py`) and `src/commands/view_goals.py` are not part of this model. Of `display`/`short_display`, the model keeps the custom ids, the shop button's `disabled` flag and the repeat descriptions of `RepeatType.display`; the rest of the display text is left out, as are the response messages.
- Asynchronous interleavings: every handler is one sequential method. So the model does not show the debit race between two concurrent redemptions on the same cached `User`.
- Goals.Goal.Create, Rewards.Reward.Create, CreateGoalCommand.CreateGoalCallback: the retried insert cannot fail again in a sequential model, because the owner row was just inserted. So the propagation of a second foreign-key violation is not observable here. Failures of the store itself (connectivity, timeouts) are not modelled.
- Points are `real`: the `Decimal` read from the database and the `float` credited by `complete` are not distinguished, and float rounding is not modelled.
- Ledger.User.AddPoints, Goals.Goal.Complete: for a ledger loaded by `from_db`, `self.points` is a `Decimal`, and `Decimal + float` raises `TypeError` (`src/models/user.py:41`). The model adds the two as reals, so it credits where the code as written would raise.
- Shop.CreateShopItem, CreateGoalCommand.CreateGoalCallback: the text the user typed arrives as the result of `int()` (`None` when it raises). The full grammar `int()` accepts (whitespace, `+`, underscores) is not modelled, nor is the input's length limit (6 characters for a cost, 2 for a crumb reward).
- Numerals.ParseInt, Shop.RedeemReward: the custom id is read with a parser for an optional `-` followed by digits. That is exactly what `str(id)` writes, but other texts `int()` would accept (whitespace, `+`, underscores) are treated as malformed.
- Shop.RedeemReward: disabling the clicked button in the edited message after a once-only reward is deleted is left out (message rendering). The `removed` flag of the outcome says when that edit happens.
- GoalRepeat.Uncomplete: `src/commands/goal_repeat.py:14` passes the enum member rather than its value to the driver. `RepeatType` is a plain `Enum` (`src/models/goal.py:13`), so the driver's integer encoder likely refuses it, and the nightly reset would then raise before any update. The model compares the stored repeat value with the member's value, as the statement intends, and does not capture that failure.
- Incentives.Incentive.FetchAllGoal, Goals.Goal.Fetch: `SELECT goal, sender FROM incentive WHERE goal=$1` (`src/models/incentive.py:31`) has no `ORDER BY`, so the database promises only which rows come back, not their order. The model returns them in table order, which is one order the database may choose.
- Goals.Goal.FetchUserGoals, Rewards.Reward.FetchUserRewards: the store gives every insert a strictly later `created` stamp (`Store.Database.Valid`). A `created timestamp default now` column can give two rows the same stamp, and `ORDER BY created` then leaves their order open. The model's strictly increasing order is one of the orders the database may return.
- `datetime.now(UTC)` and the `tasks.loop` schedule: the date of a tick is an input (`GoalRepeat.UtcDate`).
- `RewardListPaginator.on_timeout`, the `reward_list_refresh` handler, and the `shop`/`create_reward` slash commands are not part of this model. `Shop.Dispatch` routes to the refresh but does not model it. The paginator's display name, crumb total and interaction object are display-only.
- Shop.RewardListPaginator.Nav, Shop.RewardListPaginator.NavClick: both require that the clicked button is enabled, because Discord does not deliver clicks on disabled buttons. Clicks past either end are therefore not modelled.
- Every member that reads a cache through an instance's id requires the cache invariant of that cache (`UserCache.Valid`, `RewardCache.Valid`, `GoalCache.Valid`: every instance is cached under its own id): Ledger.User.Fetch, Goals.Goal.Complete, Shop.LookUp, Shop.Charge, Shop.Settle and Shop.RedeemReward; Goals.Goal.Fetch states what a hit returns under it. Every modelled operation that writes a cache keeps them, except that `create` called twice on the same instance would leave a stale entry under its first id; `Goals.Goal.Create` and `Rewards.Reward.Create` promise the invariant only for an instance that had no id.
- No shown code calls `use_share_points` or `Incentive.create` from a handler, so no incentive-purchase flow is modelled.
- `Reward.display` and `Reward.edit` are unimplemented stubs in the source and are left out.
