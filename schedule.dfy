/**
 * The period guards of the two hourly loops of main.py and the date
 * arithmetic of get_next_month. A loop tick compares the stored "last run"
 * date with today; the trace lemmas show what that comparison guarantees
 * over a run of ticks whose dates never go backwards.
 */
module Schedule {
  import opened Ledger

  ghost predicate StrictlyIncreasing(ds: seq<Date>)
  {
    forall i, j :: 0 <= i < j < |ds| ==> ds[i] < ds[j]
  }

  lemma PrependIncreasing(x: Date, s: seq<Date>)
    requires StrictlyIncreasing(s)
    requires forall y :: y in s ==> x < y
    ensures StrictlyIncreasing([x] + s)
  {
    forall i, j | 0 <= i < j < |[x] + s| ensures ([x] + s)[i] < ([x] + s)[j] {
      assert ([x] + s)[j] == s[j - 1];
      if i > 0 {
        assert ([x] + s)[i] == s[i - 1];
      } else {
        assert s[j - 1] in s;
      }
    }
  }

  /**
   * What one hourly tick of daily_maintenance_loop sees: today's date, and
   * whether the announcement of the bonus raised an exception that the loop
   * does not catch (a missing LEADERBOARD_CHANNEL_ID, or a lookup or send
   * failing with anything but NotFound). The announcement is attempted only
   * after maintenance ran with a bonus recipient and a positive bonus.
   */
  datatype DailyObservation = DailyObservation(today: Date, announcementRaised: bool)

  /**
   * One tick of daily_maintenance_loop: it runs when the stored
   * LAST_MAINTENANCE_DATE is not today. The marker becomes today, except when
   * the announcement raised after the run: then the loop stops before the
   * marker is written. The result is (ran, new marker).
   */
  function DailyTick(marker: Option<Date>, o: DailyObservation): (r: (bool, Option<Date>))
    ensures r.0 <==> marker != Some(o.today)
    ensures r.1 == (if r.0 && o.announcementRaised then marker else Some(o.today))
  {
    if marker == Some(o.today) then (false, marker)
    else if o.announcementRaised then (true, marker)
    else (true, Some(o.today))
  }

  /** The dates on which maintenance ran, over ticks `os`. */
  function DailyRuns(marker: Option<Date>, os: seq<DailyObservation>): seq<Date>
    decreases |os|
  {
    if os == [] then []
    else
      var tick := DailyTick(marker, os[0]);
      (if tick.0 then [os[0].today] else []) + DailyRuns(tick.1, os[1..])
  }

  /** Dates never decrease along the run of daily ticks. */
  ghost predicate DailyDatesNonDecreasing(os: seq<DailyObservation>)
  {
    forall i, j :: 0 <= i < j < |os| ==> os[i].today <= os[j].today
  }

  /**
   * While no announcement raises, daily maintenance runs at most once per
   * date (the run dates strictly increase), only on dates a tick saw, and
   * only after the stored marker.
   */
  lemma {:induction false} DailyRunsOncePerDate(marker: Option<Date>, os: seq<DailyObservation>)
    requires DailyDatesNonDecreasing(os)
    requires forall i :: 0 <= i < |os| ==> !os[i].announcementRaised
    ensures StrictlyIncreasing(DailyRuns(marker, os))
    ensures forall x :: x in DailyRuns(marker, os) ==> exists i :: 0 <= i < |os| && os[i].today == x
    ensures marker.Some? && (forall i :: 0 <= i < |os| ==> marker.value <= os[i].today) ==>
      forall x :: x in DailyRuns(marker, os) ==> marker.value < x
    decreases |os|
  {
    if os != [] {
      var tick := DailyTick(marker, os[0]);
      var rest := DailyRuns(tick.1, os[1..]);
      assert DailyDatesNonDecreasing(os[1..]);
      DailyRunsOncePerDate(tick.1, os[1..]);
      assert forall i :: 0 <= i < |os[1..]| ==> os[0].today <= os[1..][i].today;
      assert forall x :: x in rest ==> os[0].today < x;
      if tick.0 {
        PrependIncreasing(os[0].today, rest);
      }
      forall x | x in DailyRuns(marker, os) ensures exists i :: 0 <= i < |os| && os[i].today == x {
        if x in rest {
          var k :| 0 <= k < |os[1..]| && os[1..][k].today == x;
          assert os[k + 1] == os[1..][k];
        } else {
          assert os[0].today == x;
        }
      }
    }
  }

  /**
   * Whatever the announcements do, maintenance runs on every date a tick
   * sees, unless the stored marker already held that date.
   */
  lemma {:induction false} DailyRunsEveryDate(marker: Option<Date>, os: seq<DailyObservation>)
    ensures forall i :: 0 <= i < |os| ==> os[i].today in DailyRuns(marker, os) || marker == Some(os[i].today)
    decreases |os|
  {
    if os != [] {
      var tick := DailyTick(marker, os[0]);
      DailyRunsEveryDate(tick.1, os[1..]);
      forall i | 0 <= i < |os| ensures os[i].today in DailyRuns(marker, os) || marker == Some(os[i].today) {
        if i > 0 {
          assert os[i] == os[1..][i - 1];
        }
      }
    }
  }

  /**
   * A raised announcement leaves the marker unset, so the next tick of the
   * same day (once the loop is started again) runs decay and bonus a second
   * time.
   */
  lemma DailyRerunAfterRaisedAnnouncement(marker: Option<Date>, today: Date)
    requires marker != Some(today)
    ensures DailyRuns(marker, [DailyObservation(today, true), DailyObservation(today, false)]) == [today, today]
  {
    var os := [DailyObservation(today, true), DailyObservation(today, false)];
    assert os[1..] == [DailyObservation(today, false)];
    assert [DailyObservation(today, false)][1..] == [];
    assert DailyRuns(marker, [DailyObservation(today, false)]) == [today];
  }

  /**
   * What one hourly tick of monthly_reset_loop sees: today's date, the day of
   * the month, whether monthly_reset found a winner (the table is not empty)
   * and whether the guild could be looked up afterwards.
   */
  datatype MonthlyObservation = MonthlyObservation(
    today: Date,
    dayOfMonth: int,
    winnerFound: bool,
    guildFound: bool)

  /** The monthly reset runs on the first of a month not yet marked as done. */
  predicate MonthlyDue(marker: Option<Date>, o: MonthlyObservation)
  {
    o.dayOfMonth == 1 && marker != Some(o.today)
  }

  /**
   * One tick of monthly_reset_loop as written: after running, the marker is
   * written only if the loop did not return early, and it returns early when
   * there was a winner and the guild lookup failed.
   */
  function MonthlyTick(marker: Option<Date>, o: MonthlyObservation): (r: (bool, Option<Date>))
    ensures r.0 <==> MonthlyDue(marker, o)
    ensures r.1 == (if r.0 && (o.guildFound || !o.winnerFound) then Some(o.today) else marker)
  {
    var ran := o.dayOfMonth == 1 && marker != Some(o.today);
    if !ran then (false, marker)
    else if o.winnerFound && !o.guildFound then (true, marker)
    else (true, Some(o.today))
  }

  /** One tick of monthly_reset_loop with the marker written whenever the reset ran. */
  function MonthlyTickFixed(marker: Option<Date>, o: MonthlyObservation): (r: (bool, Option<Date>))
    ensures r.0 <==> MonthlyDue(marker, o)
    ensures r.0 ==> r.1 == Some(o.today)
    ensures !r.0 ==> r.1 == marker
  {
    if MonthlyDue(marker, o) then (true, Some(o.today)) else (false, marker)
  }

  /** One tick, as written or with the fix. */
  function MonthlyStep(marker: Option<Date>, o: MonthlyObservation, fixed: bool): (bool, Option<Date>)
  {
    if fixed then MonthlyTickFixed(marker, o) else MonthlyTick(marker, o)
  }

  /** The dates on which the monthly reset ran, as written or with the fix. */
  function MonthlyRuns(marker: Option<Date>, os: seq<MonthlyObservation>, fixed: bool): seq<Date>
    decreases |os|
  {
    if os == [] then []
    else
      var tick := MonthlyStep(marker, os[0], fixed);
      (if tick.0 then [os[0].today] else []) + MonthlyRuns(tick.1, os[1..], fixed)
  }

  ghost predicate DatesNonDecreasing(os: seq<MonthlyObservation>)
  {
    forall i, j :: 0 <= i < j < |os| ==> os[i].today <= os[j].today
  }

  /**
   * The monthly reset runs at most once per date, and only after the stored
   * marker, provided the marker is written after every run: always with the
   * fix, and as written only while no tick returns early.
   */
  lemma {:induction false} MonthlyRunsOncePerDate(marker: Option<Date>, os: seq<MonthlyObservation>, fixed: bool)
    requires DatesNonDecreasing(os)
    requires fixed || forall i :: 0 <= i < |os| ==> os[i].guildFound || !os[i].winnerFound
    ensures StrictlyIncreasing(MonthlyRuns(marker, os, fixed))
    ensures marker.Some? && (forall i :: 0 <= i < |os| ==> marker.value <= os[i].today) ==>
      forall x :: x in MonthlyRuns(marker, os, fixed) ==> marker.value < x
    decreases |os|
  {
    if os != [] {
      var tick := MonthlyStep(marker, os[0], fixed);
      assert tick.0 ==> tick.1 == Some(os[0].today);
      var rest := MonthlyRuns(tick.1, os[1..], fixed);
      assert DatesNonDecreasing(os[1..]);
      MonthlyRunsOncePerDate(tick.1, os[1..], fixed);
      assert forall i :: 0 <= i < |os[1..]| ==> os[0].today <= os[1..][i].today;
      if tick.0 {
        PrependIncreasing(os[0].today, rest);
      }
    }
  }

  /** Every run, as written or with the fix, happens on a first of the month that a tick saw. */
  lemma {:induction false} MonthlyRunsOnFirsts(marker: Option<Date>, os: seq<MonthlyObservation>, fixed: bool)
    ensures forall x :: x in MonthlyRuns(marker, os, fixed) ==>
      exists i :: 0 <= i < |os| && os[i].today == x && os[i].dayOfMonth == 1
    decreases |os|
  {
    if os != [] {
      var tick := MonthlyStep(marker, os[0], fixed);
      var rest := MonthlyRuns(tick.1, os[1..], fixed);
      MonthlyRunsOnFirsts(tick.1, os[1..], fixed);
      forall x | x in MonthlyRuns(marker, os, fixed)
        ensures exists i :: 0 <= i < |os| && os[i].today == x && os[i].dayOfMonth == 1
      {
        if x in rest {
          var k :| 0 <= k < |os[1..]| && os[1..][k].today == x && os[1..][k].dayOfMonth == 1;
          assert os[k + 1] == os[1..][k];
        } else {
          assert os[0].today == x && os[0].dayOfMonth == 1;
        }
      }
    }
  }

  /**
   * As written, a first-of-month tick that finds a winner but cannot look up
   * the guild leaves the marker unset, so the next tick of the same day runs
   * the reset (and promotes a winner) again; with the fix it does not.
   */
  lemma MonthlyRerunWithoutGuild(marker: Option<Date>, today: Date)
    requires marker != Some(today)
    ensures var o := MonthlyObservation(today, 1, true, false);
            && MonthlyRuns(marker, [o, o], false) == [today, today]
            && MonthlyRuns(marker, [o, o], true) == [today]
  {
    var o := MonthlyObservation(today, 1, true, false);
    assert [o, o][1..] == [o];
    assert [o][1..] == [];
    assert MonthlyRuns(marker, [o], false) == [today];
    assert MonthlyRuns(Some(today), [o], true) == [];
  }

  /** A wall-clock reading in the bot's time zone. */
  datatype DateTime = DateTime(
    year: int, month: int, day: int,
    hour: int, minute: int, second: int, microsecond: int)

  /**
   * get_next_month: the first day of the following month at 00:00:00; the
   * microseconds are carried over, since only hour, minute and second are
   * replaced.
   */
  function NextMonthStart(now: DateTime): (r: DateTime)
    requires 1 <= now.month <= 12
    ensures 1 <= r.month <= 12
    ensures r.year * 12 + r.month == now.year * 12 + now.month + 1
    ensures r.day == 1 && r.hour == 0 && r.minute == 0 && r.second == 0
    ensures r.microsecond == now.microsecond
    ensures r.year > now.year || (r.year == now.year && r.month > now.month)
  {
    if now.month == 12 then DateTime(now.year + 1, 1, 1, 0, 0, 0, now.microsecond)
    else DateTime(now.year, now.month + 1, 1, 0, 0, 0, now.microsecond)
  }
}
