/**
 * The kudos ledger: one `users` table keyed by user id, and the effect of
 * each SQL statement of database.py on it, as functions on the table.
 * The class in store.dfy performs these updates in place; the functions
 * here are what its methods are proved against.
 */
module Ledger {

  type UserId = int

  /** A calendar day, as a day number; only equality and order matter. */
  type Date = int

  datatype Option<T> = None | Some(value: T)

  /** One row of the `users` table. */
  datatype User = User(
    monthlyKudos: int,
    lifetimeLevel: int,
    dailyAwardsGiven: int,
    lastAwardDate: Option<Date>)

  type Table = map<UserId, User>

  /** A row as a query returns it: the key together with its columns. */
  datatype Row = Row(id: UserId, user: User)

  /** The column defaults of the `users` table: 0 kudos, level 1, no award given. */
  const NewUser: User := User(0, 1, 0, None)

  /** Balance of a row, or 0 for an id that has no row yet. */
  function BalanceOf(t: Table, id: UserId): int
  {
    if id in t then t[id].monthlyKudos else 0
  }

  /** Level of a row, or the default level 1 for an id that has no row yet. */
  function LevelOf(t: Table, id: UserId): int
  {
    if id in t then t[id].lifetimeLevel else 1
  }

  /** Rows other than those in `ids` are the same in both tables. */
  ghost predicate OthersUnchanged(t: Table, r: Table, ids: set<UserId>)
  {
    forall u :: u in t && u !in ids ==> u in r && r[u] == t[u]
  }

  /**
   * get_or_create_user: insert a row with the column defaults when the id is
   * absent; otherwise the table is left as it is.
   */
  function GetOrCreate(t: Table, id: UserId): (r: Table)
    ensures id in r && r.Keys == t.Keys + {id}
    ensures id in t ==> r == t
    ensures id !in t ==> r[id] == NewUser
    ensures OthersUnchanged(t, r, {id})
  {
    if id in t then t else t[id := NewUser]
  }

  /**
   * `UPDATE users SET monthly_kudos = monthly_kudos + k WHERE user_id = id`:
   * an update of a missing row touches nothing.
   */
  function AddKudos(t: Table, id: UserId, k: int): (r: Table)
    ensures r.Keys == t.Keys
    ensures OthersUnchanged(t, r, {id})
    ensures id in t ==> r[id].monthlyKudos == t[id].monthlyKudos + k
    ensures id in t ==> r[id].(monthlyKudos := 0) == t[id].(monthlyKudos := 0)
  {
    if id in t then t[id := t[id].(monthlyKudos := t[id].monthlyKudos + k)] else t
  }

  /** The reactor's half of award_kudos: +1 kudos, +1 award given, dated today. */
  function RecordGiven(u: User, today: Date): User
  {
    u.(monthlyKudos := u.monthlyKudos + 1,
       dailyAwardsGiven := u.dailyAwardsGiven + 1,
       lastAwardDate := Some(today))
  }

  /** award_kudos: the two UPDATE statements, creator first, then reactor. */
  function Award(t: Table, creator: UserId, reactor: UserId, today: Date): (r: Table)
    ensures r.Keys == t.Keys
    ensures OthersUnchanged(t, r, {creator, reactor})
    ensures creator != reactor && creator in t ==>
      r[creator].monthlyKudos == t[creator].monthlyKudos + 2 &&
      r[creator].(monthlyKudos := 0) == t[creator].(monthlyKudos := 0)
    ensures creator != reactor && reactor in t ==>
      r[reactor].monthlyKudos == t[reactor].monthlyKudos + 1 &&
      r[reactor].dailyAwardsGiven == t[reactor].dailyAwardsGiven + 1 &&
      r[reactor].lastAwardDate == Some(today) &&
      r[reactor].lifetimeLevel == t[reactor].lifetimeLevel
    ensures creator == reactor && creator in t ==>
      r[creator] == t[creator].(monthlyKudos := t[creator].monthlyKudos + 3,
                                dailyAwardsGiven := t[creator].dailyAwardsGiven + 1,
                                lastAwardDate := Some(today))
  {
    var t1 := AddKudos(t, creator, 2);
    if reactor in t1 then t1[reactor := RecordGiven(t1[reactor], today)] else t1
  }

  /**
   * remove_kudos: -2 for the creator, -1 for the reactor, with no floor; the
   * daily award count and date are not touched.
   */
  function Remove(t: Table, creator: UserId, reactor: UserId): (r: Table)
    ensures r.Keys == t.Keys
    ensures OthersUnchanged(t, r, {creator, reactor})
    ensures forall u :: u in t ==>
      r[u].monthlyKudos == t[u].monthlyKudos
                           - (if u == creator then 2 else 0)
                           - (if u == reactor then 1 else 0)
    ensures forall u :: u in t ==> r[u].(monthlyKudos := 0) == t[u].(monthlyKudos := 0)
  {
    AddKudos(AddKudos(t, creator, -2), reactor, -1)
  }

  /**
   * The awards a user counts as given today: the stored count when the stored
   * date is today, and 0 otherwise (the count is stale then).
   */
  function AwardsGivenOn(t: Table, id: UserId, today: Date): int
  {
    if id in t && t[id].lastAwardDate == Some(today) then t[id].dailyAwardsGiven else 0
  }

  /**
   * reset_daily_limit_if_needed: create the row if needed, then zero the count
   * and stamp today's date exactly when the stored date is not today.
   */
  function ResetDailyIfNeeded(t: Table, id: UserId, today: Date): (r: Table)
    ensures id in r && r.Keys == t.Keys + {id}
    ensures OthersUnchanged(t, r, {id})
    ensures r[id].lastAwardDate == Some(today)
    ensures r[id].dailyAwardsGiven == AwardsGivenOn(t, id, today)
    ensures r[id].monthlyKudos == BalanceOf(t, id)
    ensures r[id].lifetimeLevel == (if id in t then t[id].lifetimeLevel else 1)
    ensures id in t && t[id].lastAwardDate == Some(today) ==> r == t
  {
    var t1 := GetOrCreate(t, id);
    if t1[id].lastAwardDate != Some(today) then
      t1[id := t1[id].(dailyAwardsGiven := 0, lastAwardDate := Some(today))]
    else
      t1
  }

  /**
   * The decay sweep of apply_daily_maintenance:
   * `UPDATE users SET monthly_kudos = monthly_kudos - decay WHERE monthly_kudos > decay - 1`.
   */
  function Decay(t: Table, decay: int): (r: Table)
    ensures r.Keys == t.Keys
    ensures forall u :: u in t ==>
      r[u].monthlyKudos == (if t[u].monthlyKudos >= decay then t[u].monthlyKudos - decay
                            else t[u].monthlyKudos)
    ensures forall u :: u in t ==> r[u].(monthlyKudos := 0) == t[u].(monthlyKudos := 0)
    ensures decay >= 0 ==> forall u :: u in t && t[u].monthlyKudos >= 0 ==> r[u].monthlyKudos >= 0
  {
    map u | u in t :: if t[u].monthlyKudos > decay - 1
                      then t[u].(monthlyKudos := t[u].monthlyKudos - decay)
                      else t[u]
  }

  /** `w` holds a maximum balance of the table (some row an ORDER BY ... DESC LIMIT 1 may return). */
  ghost predicate IsTop(t: Table, w: UserId)
  {
    w in t && forall u :: u in t ==> t[u].monthlyKudos <= t[w].monthlyKudos
  }

  /**
   * The sweep of monthly_reset once the winner is chosen: the winner's level
   * goes up by one, then every balance becomes 0.
   */
  function CloseMonth(t: Table, winner: UserId): (r: Table)
    ensures r.Keys == t.Keys
    ensures forall u :: u in t ==> r[u].monthlyKudos == 0
    ensures forall u :: u in t ==>
      r[u].lifetimeLevel == t[u].lifetimeLevel + (if u == winner then 1 else 0)
    ensures forall u :: u in t ==>
      r[u].dailyAwardsGiven == t[u].dailyAwardsGiven && r[u].lastAwardDate == t[u].lastAwardDate
  {
    var t1 := if winner in t then t[winner := t[winner].(lifetimeLevel := t[winner].lifetimeLevel + 1)] else t;
    ZeroBalances(t1)
  }

  /** `UPDATE users SET monthly_kudos = 0`. */
  function ZeroBalances(t: Table): (r: Table)
    ensures r.Keys == t.Keys
    ensures forall u :: u in t ==> r[u] == t[u].(monthlyKudos := 0)
  {
    map u | u in t :: t[u].(monthlyKudos := 0)
  }

  /** Every row's level is at least 1. */
  ghost predicate LevelsPositive(t: Table)
  {
    forall u :: u in t ==> t[u].lifetimeLevel >= 1
  }

  /**
   * award_kudos followed by remove_kudos for the same pair restores every
   * balance exactly, but not the reactor's daily award count and date.
   */
  lemma AwardThenRemove(t: Table, creator: UserId, reactor: UserId, today: Date)
    ensures Remove(Award(t, creator, reactor, today), creator, reactor)
         == (if reactor in t then t[reactor := t[reactor].(dailyAwardsGiven := t[reactor].dailyAwardsGiven + 1,
                                                          lastAwardDate := Some(today))]
             else t)
  {
    var r := Remove(Award(t, creator, reactor, today), creator, reactor);
    var e := if reactor in t then t[reactor := t[reactor].(dailyAwardsGiven := t[reactor].dailyAwardsGiven + 1,
                                                          lastAwardDate := Some(today))]
             else t;
    assert r.Keys == e.Keys;
    forall u | u in r ensures r[u] == e[u] {
    }
  }

  /** Resetting the daily limit a second time on the same day changes nothing. */
  lemma ResetDailyIdempotent(t: Table, id: UserId, today: Date)
    ensures ResetDailyIfNeeded(ResetDailyIfNeeded(t, id, today), id, today)
         == ResetDailyIfNeeded(t, id, today)
  {
  }

  /** A second get_or_create_user for the same id is a no-op. */
  lemma GetOrCreateIdempotent(t: Table, id: UserId)
    ensures GetOrCreate(GetOrCreate(t, id), id) == GetOrCreate(t, id)
  {
  }

  /** No ledger sweep lowers a level, and levels stay at least 1. */
  lemma CloseMonthKeepsLevels(t: Table, winner: UserId)
    requires LevelsPositive(t)
    ensures LevelsPositive(CloseMonth(t, winner))
    ensures forall u :: u in t ==> CloseMonth(t, winner)[u].lifetimeLevel >= t[u].lifetimeLevel
  {
  }
}
