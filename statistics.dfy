/**
 * The activity statistics of noor_app/statistics.py over the `statistics`
 * table: recording a day, daily and weekly rows, totals, the streak of
 * consecutive active days, the Ramadan plan summary and pruning old rows.
 */
module Statistics {
  import opened Wrappers
  import opened Storage
  import Tables

  /**
   * `record_daily_activity`: today's row is set to the given counts,
   * replacing (not adding to) any earlier row for today.
   */
  method RecordDailyActivity(db: Store, today: Day, ayahsRead: int := 0, adhkarCount: int := 0, khatmaCount: int := 0)
    modifies db`statistics
    ensures db.statistics == old(db.statistics)[today := DailyStat(ayahsRead, adhkarCount, khatmaCount)]
  {
    var row := DailyStat(ayahsRead, adhkarCount, khatmaCount);
    if today in db.statistics {
      db.statistics := db.statistics[today := row];  // UPDATE
    } else {
      db.statistics := db.statistics[today := row];  // INSERT
    }
  }

  /** `get_daily_stats(date)`: the row of that date, or None. */
  function GetDailyStats(db: Store, date: Day): (r: Option<DailyStat>)
    reads db
    ensures r.Some? <==> date in db.statistics
    ensures r.Some? ==> r.value == db.statistics[date]
  {
    if date in db.statistics then Some(db.statistics[date]) else None
  }

  datatype WeekRow = WeekRow(date: Day, ayahsRead: int, adhkarCount: int, khatmaCount: int)

  function RowOf(date: Day, s: DailyStat): WeekRow {
    WeekRow(date, s.ayahsRead, s.adhkarCount, s.khatmaCount)
  }

  /** The dates from `today - 7` through `today` that have a row. */
  function Window(stats: map<Day, DailyStat>, today: Day): (w: set<Day>)
    ensures forall d :: d in w <==> d in stats && today - 7 <= d <= today
  {
    set d | d in stats && today - 7 <= d <= today
  }

  /** The rows of the given dates, in the given order. */
  function RowsOf(stats: map<Day, DailyStat>, dates: seq<Day>): (r: seq<WeekRow>)
    requires forall i :: 0 <= i < |dates| ==> dates[i] in stats
    ensures |r| == |dates|
    ensures forall i :: 0 <= i < |r| ==> r[i] == RowOf(dates[i], stats[dates[i]])
  {
    seq(|dates|, i requires 0 <= i < |dates| => RowOf(dates[i], stats[dates[i]]))
  }

  /**
   * `get_weekly_stats`: the rows dated `today - 7` through `today`, newest
   * first. The query groups by date, and a date has at most one row, so each
   * group's sums are that row's counts.
   */
  function GetWeeklyStats(db: Store, today: Day): (r: seq<WeekRow>)
    reads db
    ensures forall i :: 0 <= i < |r| ==>
      r[i].date in db.statistics && today - 7 <= r[i].date <= today &&
      r[i] == RowOf(r[i].date, db.statistics[r[i].date])
    ensures forall d :: d in db.statistics && today - 7 <= d <= today ==>
      exists i :: 0 <= i < |r| && r[i].date == d
    ensures forall i, j :: 0 <= i < j < |r| ==> r[i].date > r[j].date
  {
    var stats := db.statistics;
    var window := Window(stats, today);
    var dates := Tables.SortedDesc(window);
    Tables.SortedDescMembers(window);
    var r := RowsOf(stats, dates);
    assert forall d :: d in window ==> exists i :: 0 <= i < |r| && r[i].date == d by {
      forall d | d in window
        ensures exists i :: 0 <= i < |r| && r[i].date == d
      {
        var i := Tables.SortedDescPosition(window, d);
        assert r[i].date == d;
      }
    }
    r
  }

  datatype Column = Ayahs | Adhkar | Khatmas

  function ColumnOf(stats: map<Day, DailyStat>, c: Column): (m: map<Day, int>)
    ensures m.Keys == stats.Keys
  {
    map d | d in stats :: match c
      case Ayahs => stats[d].ayahsRead
      case Adhkar => stats[d].adhkarCount
      case Khatmas => stats[d].khatmaCount
  }

  datatype Totals = Totals(daysActive: int, totalAyahs: int, totalAdhkar: int, totalKhatmas: int)

  /** `get_total_stats`: the number of active days and the column sums over the whole table. */
  function TotalsOf(stats: map<Day, DailyStat>): (r: Totals)
    ensures r.daysActive == |stats|
    ensures stats == map[] ==> r == Totals(0, 0, 0, 0)
  {
    Totals(|stats.Keys|,
      Tables.SumOver(ColumnOf(stats, Ayahs), stats.Keys),
      Tables.SumOver(ColumnOf(stats, Adhkar), stats.Keys),
      Tables.SumOver(ColumnOf(stats, Khatmas), stats.Keys))
  }

  /** `get_total_stats` on the store. */
  function GetTotalStats(db: Store): (r: Totals)
    reads db
    ensures r.daysActive == |db.statistics|
    ensures db.statistics == map[] ==> r == Totals(0, 0, 0, 0)
    ensures forall d :: d in db.statistics ==> TotalsWithout(r, db.statistics, d)
  {
    TotalsRemoveRows(db.statistics);
    TotalsOf(db.statistics)
  }

  /** The totals `t` of `stats` are those without day `d`'s row plus that row's counts. */
  predicate TotalsWithout(t: Totals, stats: map<Day, DailyStat>, d: Day)
    requires d in stats
  {
    var rest := TotalsOf(stats - {d});
    var row := stats[d];
    t == Totals(rest.daysActive + 1, rest.totalAyahs + row.ayahsRead,
      rest.totalAdhkar + row.adhkarCount, rest.totalKhatmas + row.khatmaCount)
  }

  /**
   * Each row contributes exactly its own counts, and one active day, to the
   * totals; with the empty table giving zeros this fixes the totals of every
   * table.
   */
  lemma TotalsRemoveRow(stats: map<Day, DailyStat>, d: Day)
    requires d in stats
    ensures TotalsWithout(TotalsOf(stats), stats, d)
  {
    var rest := stats - {d};
    assert rest.Keys == stats.Keys - {d};
    assert |stats.Keys| == |rest.Keys| + 1;
    forall c: Column
      ensures Tables.SumOver(ColumnOf(stats, c), stats.Keys) ==
        Tables.SumOver(ColumnOf(rest, c), rest.Keys) + ColumnOf(stats, c)[d]
    {
      Tables.SumOverRemove(ColumnOf(stats, c), stats.Keys, d);
      Tables.SumOverAgree(ColumnOf(stats, c), ColumnOf(rest, c), rest.Keys);
    }
  }

  lemma TotalsRemoveRows(stats: map<Day, DailyStat>)
    ensures forall d :: d in stats ==> TotalsWithout(TotalsOf(stats), stats, d)
  {
    forall d | d in stats
      ensures TotalsWithout(TotalsOf(stats), stats, d)
    {
      TotalsRemoveRow(stats, d);
    }
  }

  lemma {:induction false} ColumnSumReplace(stats: map<Day, DailyStat>, today: Day, row: DailyStat, c: Column)
    ensures var after := stats[today := row];
      var v := ColumnOf(map[today := row], c)[today];
      var old_ := if today in stats then ColumnOf(stats, c)[today] else 0;
      Tables.SumOver(ColumnOf(after, c), after.Keys) ==
        Tables.SumOver(ColumnOf(stats, c), stats.Keys) - old_ + v
  {
    var after := stats[today := row];
    var before, now := ColumnOf(stats, c), ColumnOf(after, c);
    var v := ColumnOf(map[today := row], c)[today];
    var rest := stats.Keys - {today};
    Tables.SumOverAgree(before, now, rest);
    if today in stats {
      Tables.SumOverRemove(before, stats.Keys, today);
    } else {
      assert stats.Keys - {today} == stats.Keys;
    }
    Tables.SumOverRemove(now, after.Keys, today);
    assert after.Keys - {today} == rest;
  }

  /**
   * Recording today's activity replaces today's counts in the totals rather
   * than adding to them: the totals lose the old row's counts and gain the
   * new ones, and a new date adds one active day.
   */
  lemma RecordReplacesInTotals(stats: map<Day, DailyStat>, today: Day, row: DailyStat)
    ensures var before := TotalsOf(stats);
      var after := TotalsOf(stats[today := row]);
      var o := if today in stats then stats[today] else DailyStat(0, 0, 0);
      after.daysActive == before.daysActive + (if today in stats then 0 else 1) &&
      after.totalAyahs == before.totalAyahs - o.ayahsRead + row.ayahsRead &&
      after.totalAdhkar == before.totalAdhkar - o.adhkarCount + row.adhkarCount &&
      after.totalKhatmas == before.totalKhatmas - o.khatmaCount + row.khatmaCount
  {
    ColumnSumReplace(stats, today, row, Ayahs);
    ColumnSumReplace(stats, today, row, Adhkar);
    ColumnSumReplace(stats, today, row, Khatmas);
    if today !in stats {
      assert (stats[today := row]).Keys == stats.Keys + {today};
    } else {
      assert (stats[today := row]).Keys == stats.Keys;
    }
  }

  /** Every day from `today - k + 1` through `today` has a row. */
  ghost predicate ActiveRun(keys: set<Day>, today: Day, k: int) {
    forall d :: today - k < d <= today ==> d in keys
  }

  /**
   * What the streak is: 0 when there are no rows or the newest row is not
   * today's (a row dated after today also gives 0); otherwise the length of
   * the run of consecutive days with a row that ends today.
   */
  ghost predicate IsStreak(keys: set<Day>, today: Day, streak: int) {
    if keys == {} || Tables.Max(keys) != today then streak == 0
    else streak >= 1 && ActiveRun(keys, today, streak) && today - streak !in keys
  }

  /** The streak is determined by the rows and today's date. */
  lemma StreakIsUnique(keys: set<Day>, today: Day, a: int, b: int)
    requires IsStreak(keys, today, a) && IsStreak(keys, today, b)
    ensures a == b
  {
  }

  /**
   * `get_streak`: walk the dates newest first, counting while each is the
   * day `streak` days before today, and stop at the first that is not.
   */
  method GetStreak(db: Store, today: Day) returns (streak: int)
    ensures IsStreak(db.statistics.Keys, today, streak)
  {
    ghost var keys := db.statistics.Keys;
    var dates := Tables.SortedDesc(db.statistics.Keys);
    if |dates| == 0 {
      assert keys == {};
      return 0;
    }
    streak := 0;
    var i := 0;
    while i < |dates|
      invariant 0 <= i <= |dates| && streak == i
      invariant forall k :: 0 <= k < i ==> dates[k] == today - k
    {
      if today - streak == dates[i] {
        streak := streak + 1;
      } else {
        break;
      }
      i := i + 1;
    }
    StreakOfSorted(keys, dates, today, streak);
  }

  /**
   * When the first `streak` of the dates (newest first) are today, the day
   * before, and so on, and the next date (if any) breaks the pattern, then
   * `streak` is the streak.
   */
  lemma StreakOfSorted(keys: set<Day>, dates: seq<Day>, today: Day, streak: int)
    requires dates == Tables.SortedDesc(keys) && |dates| > 0
    requires 0 <= streak <= |dates|
    requires forall k :: 0 <= k < streak ==> dates[k] == today - k
    requires streak == |dates| || dates[streak] != today - streak
    ensures IsStreak(keys, today, streak)
  {
    assert dates[0] == Tables.Max(keys);
    Tables.SortedDescMembers(keys);
    if dates[0] == today {
      assert streak >= 1;
      forall d | today - streak < d <= today
        ensures d in keys
      {
        assert dates[today - d] == d;
      }
      forall j | 0 <= j < |dates|
        ensures dates[j] != today - streak
      {
        if j >= streak {
          assert dates[streak - 1] == today - streak + 1;
          assert dates[streak] < dates[streak - 1];
          assert j == streak || dates[j] < dates[streak];
        }
      }
      forall x | x in keys
        ensures x != today - streak
      {
        var j := Tables.SortedDescPosition(keys, x);
      }
    } else {
      assert streak == 0;
    }
  }

  datatype PlanStats = PlanStats(planDays: int, pagesRead: int, avgPerDay: real)

  /**
   * `get_ramadan_plan_stats`: None without a plan; otherwise the plan's
   * days and pages and the pages per planned day (0 for a zero-day plan).
   */
  function GetRamadanPlanStats(db: Store): (r: Option<PlanStats>)
    reads db
    ensures r.None? <==> db.ramadanPlan.None?
    ensures r.Some? ==> var p := db.ramadanPlan.value;
      r.value.planDays == p.planDays && r.value.pagesRead == p.pagesRead &&
      (p.planDays == 0 ==> r.value.avgPerDay == 0.0) &&
      (p.planDays != 0 ==> r.value.avgPerDay * (p.planDays as real) == p.pagesRead as real)
  {
    match db.ramadanPlan
    case None => None
    case Some(p) =>
      var avg := if p.planDays != 0 then (p.pagesRead as real) / (p.planDays as real) else 0.0;
      Some(PlanStats(p.planDays, p.pagesRead, avg))
  }

  /** `clear_old_stats(days)`: delete the rows dated before `today - days`. */
  method ClearOldStats(db: Store, today: Day, days: int := 90)
    modifies db`statistics
    ensures forall d :: d in db.statistics <==> d in old(db.statistics) && d >= today - days
    ensures forall d :: d in db.statistics ==> db.statistics[d] == old(db.statistics)[d]
  {
    var cutoff := today - days;
    db.statistics := map d | d in db.statistics && d >= cutoff :: db.statistics[d];
  }
}
