/**
 * The `users` table as database.py uses it: an object whose table each
 * operation reads and rewrites in place. Every mutating method is proved
 * against the matching function of module Ledger; the two queries
 * (`ORDER BY monthly_kudos DESC LIMIT 1` and the leaderboard) are scans
 * proved against what they promise.
 */
module Store {
  import opened Ledger

  /** Balances never increase from left to right. */
  ghost predicate Ranked(s: seq<Row>)
  {
    forall i, j :: 0 <= i < j < |s| ==> s[i].user.monthlyKudos >= s[j].user.monthlyKudos
  }

  /** A non-empty set of ids has a member to pick. */
  lemma NonEmptyHasMember(s: set<UserId>)
    requires s != {}
    ensures exists u :: u in s
  {
    if forall u :: u !in s {
      assert false;
    }
  }

  /** Put `x` in front of the first row whose balance is not above its own. */
  function InsertRanked(s: seq<Row>, x: Row): (r: seq<Row>)
    requires Ranked(s)
    ensures Ranked(r)
    ensures multiset(r) == multiset(s) + multiset{x}
  {
    if s == [] then [x]
    else if x.user.monthlyKudos >= s[0].user.monthlyKudos then [x] + s
    else
      var rest := InsertRanked(s[1..], x);
      assert s == [s[0]] + s[1..];
      var r := [s[0]] + rest;
      assert forall k :: 0 < k < |r| ==> r[k] == rest[k - 1];
      assert forall k :: 0 <= k < |rest| ==> s[0].user.monthlyKudos >= rest[k].user.monthlyKudos by {
        forall k | 0 <= k < |rest|
          ensures s[0].user.monthlyKudos >= rest[k].user.monthlyKudos
        {
          assert rest[k] in multiset(rest);
          assert rest[k] in multiset(s[1..]) || rest[k] == x;
        }
      }
      r
  }

  /**
   * `SELECT ... FROM users ORDER BY monthly_kudos DESC LIMIT 1`: some row
   * with the largest balance, or nothing exactly when the table is empty.
   * Which of several tied rows comes back is left open, as in SQLite.
   */
  method SelectTop(t: Table) returns (w: Option<UserId>)
    ensures w.None? <==> t == map[]
    ensures w.Some? ==> IsTop(t, w.value)
  {
    w := None;
    var rest := t.Keys;
    while rest != {}
      invariant rest <= t.Keys
      invariant w.None? ==> rest == t.Keys
      invariant w.Some? ==> w.value in t
      invariant w.Some? ==> forall u :: u in t && u !in rest ==> t[u].monthlyKudos <= t[w.value].monthlyKudos
      decreases rest
    {
      NonEmptyHasMember(rest);
      var u :| u in rest;
      if w.None? || t[u].monthlyKudos > t[w.value].monthlyKudos {
        w := Some(u);
      }
      rest := rest - {u};
    }
    if w.None? {
      assert t.Keys == {};
      assert t == map[];
    }
  }

  /**
   * get_leaderboard_data:
   * `SELECT * FROM users WHERE monthly_kudos > 0 ORDER BY monthly_kudos DESC`.
   * The result holds every row with a positive balance exactly once, as
   * stored, and nothing else, in non-increasing order of balance.
   */
  method LeaderboardData(t: Table) returns (board: seq<Row>)
    ensures Ranked(board)
    ensures forall y :: y in board ==> y.id in t && y.user == t[y.id] && y.user.monthlyKudos > 0
    ensures forall u :: u in t && t[u].monthlyKudos > 0 ==> multiset(board)[Row(u, t[u])] == 1
  {
    board := [];
    var rest := t.Keys;
    while rest != {}
      invariant rest <= t.Keys
      invariant Ranked(board)
      invariant forall y :: y in board ==>
        y.id in t && y.id !in rest && y.user == t[y.id] && y.user.monthlyKudos > 0
      invariant forall u :: u in t && t[u].monthlyKudos > 0 ==>
        multiset(board)[Row(u, t[u])] == if u in rest then 0 else 1
      decreases rest
    {
      NonEmptyHasMember(rest);
      var u :| u in rest;
      if t[u].monthlyKudos > 0 {
        var prev := board;
        board := InsertRanked(board, Row(u, t[u]));
        forall y | y in board ensures y in prev || y == Row(u, t[u]) {
          assert y in multiset(board);
        }
      }
      rest := rest - {u};
    }
  }

  class UserStore {
    var users: Table

    constructor ()
      ensures users == map[]
    {
      users := map[];
    }

    /** get_or_create_user: returns the (possibly new) row of `id`. */
    method GetOrCreateUser(id: UserId) returns (user: User)
      modifies this
      ensures users == GetOrCreate(old(users), id)
      ensures user == users[id]
      ensures id in old(users) ==> user == old(users)[id] && users == old(users)
    {
      if id !in users {
        users := users[id := NewUser];
      }
      user := users[id];
    }

    /** award_kudos: +2 to the creator, +1 and one award given today to the reactor. */
    method AwardKudos(creator: UserId, reactor: UserId, today: Date)
      modifies this
      ensures users == Award(old(users), creator, reactor, today)
    {
      users := AddKudos(users, creator, 2);
      if reactor in users {
        users := users[reactor := RecordGiven(users[reactor], today)];
      }
    }

    /** remove_kudos: -2 from the creator, -1 from the reactor, no floor. */
    method RemoveKudos(creator: UserId, reactor: UserId)
      modifies this
      ensures users == Remove(old(users), creator, reactor)
    {
      users := AddKudos(users, creator, -2);
      users := AddKudos(users, reactor, -1);
    }

    /** reset_daily_limit_if_needed. */
    method ResetDailyLimitIfNeeded(id: UserId, today: Date)
      modifies this
      ensures users == ResetDailyIfNeeded(old(users), id, today)
    {
      var user := GetOrCreateUser(id);
      if user.lastAwardDate != Some(today) {
        users := users[id := user.(dailyAwardsGiven := 0, lastAwardDate := Some(today))];
      }
    }

    /** The raw `monthly_kudos + amount` update that the add_kudos command issues. */
    method AdjustKudos(id: UserId, amount: int)
      modifies this
      ensures users == AddKudos(old(users), id, amount)
    {
      users := AddKudos(users, id, amount);
    }

    /**
     * apply_daily_maintenance: decay every balance of at least `decay`, then
     * add `bonus` to one row of largest post-decay balance and return its id;
     * nothing is returned only when the table is empty.
     */
    method ApplyDailyMaintenance(decay: int, bonus: int) returns (top: Option<UserId>)
      modifies this
      ensures top.None? <==> old(users) == map[]
      ensures top.None? ==> users == old(users)
      ensures top.Some? ==> IsTop(Decay(old(users), decay), top.value)
      ensures top.Some? ==> users == AddKudos(Decay(old(users), decay), top.value, bonus)
    {
      users := Decay(users, decay);
      top := SelectTop(users);
      if top.Some? {
        users := AddKudos(users, top.value, bonus);
      }
    }

    /**
     * monthly_reset: promote one row of largest balance, zero every balance,
     * and return the winner's row as it was read before the updates.
     */
    method MonthlyReset() returns (winner: Option<Row>)
      modifies this
      ensures winner.None? <==> old(users) == map[]
      ensures winner.None? ==> users == old(users)
      ensures winner.Some? ==> IsTop(old(users), winner.value.id)
      ensures winner.Some? ==> winner.value.user == old(users)[winner.value.id]
      ensures winner.Some? ==> users == CloseMonth(old(users), winner.value.id)
    {
      var w := SelectTop(users);
      winner := None;
      if w.Some? {
        winner := Some(Row(w.value, users[w.value]));
        users := users[w.value := users[w.value].(lifetimeLevel := users[w.value].lifetimeLevel + 1)];
      }
      users := ZeroBalances(users);
      if w.None? {
        assert old(users) == map[];
      }
    }

    /** get_leaderboard_data on the current table. */
    method GetLeaderboardData() returns (board: seq<Row>)
      ensures Ranked(board)
      ensures forall y :: y in board ==> y.id in users && y.user == users[y.id] && y.user.monthlyKudos > 0
      ensures forall u :: u in users && users[u].monthlyKudos > 0 ==> multiset(board)[Row(u, users[u])] == 1
    {
      board := LeaderboardData(users);
    }
  }
}
