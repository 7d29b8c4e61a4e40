# Kudos bot ledger — a Dafny model

This project models the core of a Discord "kudos" bot. Members award each other kudos by reacting to
messages with a configured emoji. The author of the message receives 2 kudos and the reacting member 1,
up to a daily award limit per reactor. Removing the reaction takes the kudos back. An hourly loop runs
once per day: it decays balances and gives a bonus to the top holder. A second hourly loop runs on the
first of each month: it promotes the month's winner one lifetime level and zeroes every balance. Level
roles in the guild follow the stored level.

The model is organised as follows:

- `ledger.dfy` (module `Ledger`): the `users` table as a map from user id to a row. It has one pure
  function per SQL update of `database.py`, with frame conditions ("every other row is unchanged").
- `store.dfy` (module `Store`): the class `UserStore`, which holds that map and updates it in place.
  There is one method per `database.py` operation, each proved against the `Ledger` function. The two
  queries are loops proved against what they promise:
  - `ORDER BY monthly_kudos DESC LIMIT 1` returns some row of maximal balance;
  - the leaderboard returns exactly the positive rows, each once, in non-increasing order.
- `handlers.dfy` (module `Handlers`): the decision logic of `on_raw_reaction_add`,
  `on_raw_reaction_remove`, `on_message` and the `add_kudos` command, as step functions. They work on
  the table plus the award log, which is a set of (message id, reactor id) keys. The module also holds
  the lemmas about them: the daily quota bound over any run of reactions by people, idempotent retraction, and
  award-then-retract.
- `schedule.dfy` (module `Schedule`): the "last run" guards of the two hourly loops and what they
  guarantee over a run of ticks, plus `get_next_month`.
- `roles.dfy` (module `Roles`): the role diff of `_sync_roles_helper` and of the winner promotion in
  `monthly_reset_loop`.
- `bot.dfy` (module `Bot`): the class `KudosBot`. It holds a `UserStore`, the award log, the
  last-message dates and the two markers of the configuration file. Each handler, loop tick and command
  is a method whose new state is proved equal to the step functions above.

"Today" is a parameter of every operation. It stands for both `date.today()` in `database.py` and the
Vancouver date in `main.py`. Dates are day numbers, and a message's age is a whole number of days.
Discord lookups become fields of the event records:
- whether the channel was found;
- whether the message was found, with its author and age;
- whether the reacting member was found;
- whether the guild was found;
- whether the emoji was found.

The model follows what the code does, including where the source's own texts say otherwise:

- `remove_kudos` has no floor, so a balance can go negative (`database.py:151-158`).
- `monthly_reset` neither archives the month nor clears the award log (`database.py:129-140`). No
  loop touches the log. The winner announcement says "All logs have been archived and reset"
  (`main.py:718`). The history embed says "Historical data is preserved permanently" (`main.py:156`).
- `apply_daily_maintenance` decays for any `decay` value and adds the bonus whatever its sign
  (`database.py:111-115`).
- `apply_daily_maintenance` and `monthly_reset` return nothing only when the table has no rows. A
  table whose balances are all 0 or negative still yields an id or a row. Their doc comments say
  "None if no users have kudos" (`database.py:108`, `database.py:127`).
- A row with balance exactly `decay` is decayed to 0, because the condition is
  `monthly_kudos > decay - 1`. For example, with decay 2 a balance of 2 becomes 0.
- The add path never consults the award log. A repeated add event for a key that is still logged is
  awarded again when the quota allows (`Handlers.LoggedReactionAwardedAgain`).
- `daily_maintenance_loop` writes LAST_MAINTENANCE_DATE only after the bonus announcement
  (`main.py:663-676`). If that announcement raises, the marker keeps its previous value and the next run of the
  loop on the same date decays and pays the bonus again (`Schedule.DailyRerunAfterRaisedAnnouncement`).
  The announcement can raise when LEADERBOARD_CHANNEL_ID is missing, or when a lookup or send fails
  with anything but NotFound.

## Model

| member | source | states |
|---|---|---|
| Ledger.GetOrCreate | database.py:36-52 | the id gets a row; an absent id gets the column defaults (0 kudos, level 1, count 0, no date); a present id leaves the table unchanged; every other row is unchanged |
| Ledger.AddKudos | database.py:64-67 | one row's balance moves by `k`; its other columns and every other row are unchanged; a missing id changes nothing |
| Ledger.Award | database.py:54-73 | creator +2; reactor +1, daily count +1, award date today; all other rows unchanged; the same id as both gets +3, one more award counted and today as its award date, its level kept |
| Ledger.Remove | database.py:142-160 | creator -2 and reactor -1 with no floor; no other column changes; other rows unchanged |
| Ledger.ResetDailyIfNeeded | database.py:75-87 | the row exists afterwards, dated today; its count is the number of awards it had already given today (0 when the stored date is stale); balance and level are kept; an up-to-date row is left as it was |
| Ledger.Decay | database.py:111 | exactly the rows with balance above `decay - 1` lose `decay`; no other column changes; with `decay >= 0` no non-negative balance becomes negative |
| Ledger.CloseMonth | database.py:129-138 | every balance becomes 0; only the winner's level grows, by one; daily counts and dates are kept |
| Ledger.ZeroBalances | database.py:136 | every row keeps all columns except the balance, which becomes 0 |
| Ledger.AwardThenRemove | database.py:142-160 | award followed by removal for the same pair restores the table except for the reactor's daily count (+1) and award date |
| Ledger.ResetDailyIdempotent | database.py:75-87 | a second quota reset on the same day changes nothing |
| Ledger.GetOrCreateIdempotent | database.py:36-52 | a second get-or-create of the same id changes nothing |
| Ledger.CloseMonthKeepsLevels | database.py:123-140 | the monthly sweep never lowers a level and keeps every level at least 1 |
| Store.InsertRanked | database.py:96 | inserting a row into a list ordered by descending balance keeps it ordered and adds exactly that row |
| Store.SelectTop | database.py:113 | some id of maximal balance, and no id exactly when the table is empty |
| Store.LeaderboardData | database.py:89-98 | in non-increasing balance order; only rows of the table with a positive balance; every such row exactly once |
| Store.UserStore.constructor | database.py:17-33 | a fresh store holds no rows |
| Store.UserStore.GetOrCreateUser | database.py:36-52 | the table becomes `GetOrCreate` of the old one; the returned row is the stored row, the old one when the id existed |
| Store.UserStore.AwardKudos | database.py:54-73 | the table becomes `Award` of the old one |
| Store.UserStore.RemoveKudos | database.py:142-160 | the table becomes `Remove` of the old one |
| Store.UserStore.ResetDailyLimitIfNeeded | database.py:75-87 | the table becomes `ResetDailyIfNeeded` of the old one |
| Store.UserStore.AdjustKudos | main.py:601-608 | the table becomes `AddKudos` of the old one for the given amount |
| Store.UserStore.ApplyDailyMaintenance | database.py:100-121 | decay runs, then the bonus goes to one id of maximal post-decay balance, which is returned; no id only when the old table was empty |
| Store.UserStore.MonthlyReset | database.py:123-140 | the returned winner row is the pre-update row of an id with maximal balance; the table becomes `CloseMonth` for it; no winner only for an empty table |
| Store.UserStore.GetLeaderboardData | database.py:89-98 | the ranked positive rows of the current table, each once |
| Handlers.OnReactionAdd | main.py:243-313 | failed gates (emoji, guild, channel, message, age, bot author, missing member, self) change nothing; the bot's own reaction logs its key; a peer reaction is awarded iff the reactor's awards given today are below the limit; it touches only the author's and reactor's rows, keeps every level, and adds rows only for them (only for the reactor at the quota); an award gives +2/+1, adds the log key and counts one more award, keeps every other column of the author's row (the defaults for a new row), and gives the reactor its old or default level and today's award date; at the quota the table is exactly the quota reset of the reactor's row and the log is unchanged |
| Handlers.OnReactionRemove | main.py:315-356 | retracts iff the gates pass and the (message, reactor) key is logged; then the key leaves the log and the balances drop by 2 and 1; otherwise nothing changes |
| Handlers.RetractIdempotent | main.py:347-352 | a second identical removal changes nothing |
| Handlers.AwardThenRetract | main.py:296-352 | an award followed by its retraction restores every balance and the log, but the reactor's count of awards given today stays one higher |
| Handlers.LoggedReactionAwardedAgain | main.py:295-313 | the add path awards a reaction even when its key is already logged |
| Handlers.AddStepAwardsGiven | main.py:296-312 | one add event raises a user's count of awards given today by one exactly when that user's own reaction is awarded, which happens only below the limit |
| Handlers.RemoveKeepsAwardsGiven | main.py:347-352 | a retraction never changes anyone's count of awards given today: the quota is not refunded |
| Handlers.QuotaBound | main.py:296-352 | over any run of reactions added and removed by people on one day, the awards a user gives are counted exactly and never take the day's count above the limit, so removing and re-adding a reaction does not get round it |
| Handlers.ToggleCountsTwice | main.py:296-352 | a reactor one award below the limit who adds, removes and re-adds a reaction is awarded once and then refused |
| Handlers.OnMessage | main.py:358-419 | a person's guild message creates the author's row with the column defaults when it is missing; on a new day the last-message date becomes today; the reaction is added iff the author has a stored date other than today and the emoji exists; bots and direct messages change nothing |
| Handlers.SecondMessageSameDay | main.py:379-388 | a second message on the same day changes nothing and adds no reaction |
| Handlers.AddKudosCommand | main.py:562-609 | a non-owner caller, a missing member or amount, or an amount of 0 or less changes nothing; otherwise only that member's balance grows by the amount, after lazy creation |
| Schedule.DailyTick | main.py:659-676 | maintenance runs iff the stored date is not today; the marker is today afterwards unless the announcement after the run raised, which leaves it as it was |
| Schedule.DailyRunsOncePerDate | main.py:654-677 | over ticks with non-decreasing dates and no raised announcement, maintenance runs at most once per date, only on dates seen, and after the stored marker |
| Schedule.DailyRunsEveryDate | main.py:659-661 | maintenance runs on every date a tick sees that the stored marker did not already hold |
| Schedule.DailyRerunAfterRaisedAnnouncement | main.py:663-676 | a raised announcement followed by another tick on the same date runs maintenance twice |
| Schedule.MonthlyTick | main.py:685-725 | the reset runs iff it is the first of the month and the marker is not today; the marker is written unless a winner was found and the guild was not |
| Schedule.MonthlyTickFixed | main.py:685-725 | the reset runs under the same condition, and the marker is written whenever it ran |
| Schedule.MonthlyRunsOncePerDate | main.py:685-727 | with the marker written after every run, the reset runs at most once per date, and only on dates after the stored marker |
| Schedule.MonthlyRunsOnFirsts | main.py:688 | as written or with the fix, every run is on a first of the month that a tick saw |
| Schedule.MonthlyRerunWithoutGuild | main.py:688-694 | as written, two ticks on the same first of the month with a winner and no guild run the reset twice; with the fix, once |
| Schedule.NextMonthStart | main.py:44-51 | the first day of the following month, rolling December into January of the next year, at 00:00:00, keeping the microseconds |
| Roles.LevelRoleIds | main.py:175 | exactly the role ids the level mapping uses |
| Roles.PartitionLevelRoles | main.py:187-197 | whether the target is held, and for removal exactly the held level roles other than the target, in the order the member holds them |
| Roles.OtherLevelRolesMembers | main.py:191-196 | the roles collected for removal are exactly the member's level roles other than the target, never more entries than the member holds |
| Roles.SyncMember | main.py:177-213 | an unmapped level leaves the roles alone; otherwise non-level roles are kept and the level roles become exactly the target, or none when the target is neither held nor in the guild |
| Roles.WinnerRoles | main.py:700-713 | the winner loses every held role that another level maps to and gains the new level's role when the guild has it; an unmapped level changes nothing |
| Roles.WinnerRolesSynced | main.py:700-713 | when no two levels share a role, the winner's roles afterwards are those the role sync would give for the new level |
| Bot.KudosBot.constructor | main.py:40-41 | empty table, empty log, no last-message dates, no markers |
| Bot.KudosBot.OnRawReactionAdd | main.py:243-313 | the new table, log and outcome are those of `OnReactionAdd`; dates and markers are unchanged |
| Bot.KudosBot.OnRawReactionRemove | main.py:315-356 | the new table, log and result are those of `OnReactionRemove`; dates and markers are unchanged |
| Bot.KudosBot.OnChatMessage | main.py:358-419 | the new table, dates and result are those of `OnMessage`; log and markers are unchanged |
| Bot.KudosBot.AddKudos | main.py:562-609 | the new table is that of `AddKudosCommand` |
| Bot.KudosBot.DailyMaintenanceLoop | main.py:654-677 | runs and sets the marker as `DailyTick` says, where the announcement is attempted only for a recipient and a positive bonus; when it runs, the table changes as `ApplyDailyMaintenance` promises |
| Bot.KudosBot.MonthlyResetLoop | main.py:679-727 | runs as `MonthlyTickFixed` says and then writes the marker, also when the guild is missing; when it runs, the table changes as `MonthlyReset` promises |
| Bot.KudosBot.SyncRoles | main.py:165-215 | bots keep their roles; every other member gets a row and ends up `Synced` with the level stored for it; existing rows are unchanged, new rows have the defaults, and rows are added for exactly the members that are not bots |
| Bot.PersonIds | main.py:177-181 | exactly the ids of the members that are not bots |

## Left out

- Discord I/O is reduced to fields of the event records. This covers fetching channels, messages,
  members and users, sending and deleting messages, removing a late or over-quota reaction, adding the
  greeting reaction and reply, and the role add/remove calls with their permission errors.
- The leaderboard and history embeds (`main.py:53-163`), `on_ready`, `init_leaderboard`,
  `init_history`, `test_embed`, `systemtime`, `update_leaderboard_loop` and the forum bumping loop
  (`main.py:729-787`) are presentation or network code.
- `award_daily_greeting_kudos` is not part of this model. Its effect on the table is the parameter
  `greet` of the reaction handler, and nothing is assumed about it.
- `log_kudos`, `check_kudos_exists` and `delete_kudos_log` are not part of this model. The award log is
  a set of (message id, reactor id) keys: adding records a key, and removal deletes it.
- `update_last_message_date` is not part of this model. The last-message dates are a separate map, and
  the greeting opt-out (`greeting_enabled`, `toggle_greeting`) only decides whether a reply is sent.
- The `reset_daily_limits` command (`main.py:478-522`) calls a database routine that is not part of
  this model.
- `load_config`/`save_config`, the SQLite connection handling and `setup_database` are I/O. The
  configuration is the record `Handlers.Config`, and the two markers are fields of `KudosBot`.
- `get_vancouver_now`/`get_vancouver_today` and `date.today()` are clocks. They become a "today" day
  number, and message age becomes a whole number of days.
- Concurrency: each handler is one sequential step; async interleavings are not modelled.
- Handlers.QuotaBound: the bot's own greeting reactions are outside the run. Their effect on the
  table goes through `award_daily_greeting_kudos`, which is not part of this model.
- Handlers.AddKudosCommand: balances are unbounded integers, and the 64-bit INTEGER column is not
  modelled. The source fails with OverflowError for an amount of 2^63 or more, after the row has
  been created. The model adds such an amount like any other. A sum past 2^63-1, which SQLite would
  store as a floating-point value, is not modelled either.
- Bot.KudosBot.DailyMaintenanceLoop: a tick whose announcement raises ends the method there. That
  the raised exception also stops the loop until it is started again is not modelled. The next
  tick stands for that restart.
- Bot.KudosBot.DailyMaintenanceLoop: a recipient whose id is 0 is treated as a recipient, while the
  source treats it as falsy.
- `Store.SelectTop`: SQLite's choice among tied rows is left open. The model returns some row of
  maximal balance.
- `Bot.KudosBot.SyncRoles`: a level whose mapped role id is 0 is treated as mapped. The source skips
  it because the id is falsy.
- `Bot.KudosBot.MonthlyResetLoop`: the winner's role update and announcement are not performed by the
  method. The role update is modelled separately by `Roles.WinnerRoles`. The method writes the marker
  whenever the reset ran, as corrected under "## Findings". The early return as written is
  `Schedule.MonthlyTick`.
- `Schedule.NextMonthStart`: the time zone attached to the result is not modelled.

## Findings

| source | as written | input that shows it | evidently intended | confidence | as-written member | corrected member |
|---|---|---|---|---|---|---|
| main.py:693-694 | when the reset finds a winner but the guild lookup fails, the loop returns before writing LAST_MONTHLY_RESET_DATE | two hourly ticks on the first of a month, with a non-empty table and the guild unavailable: the reset runs on both, promoting a winner twice and zeroing balances twice | the marker is written once the reset has run, so it runs at most once per date (proved for the corrected tick by Schedule.MonthlyRunsOncePerDate) | medium; not executed | Schedule.MonthlyRerunWithoutGuild | Schedule.MonthlyTickFixed |
