/**
 * The record-store helpers of noor_app/database.py: last read position,
 * daily tasbih count, settings, reading log and the Ramadan reading plan.
 * The clock's "today" is a parameter.
 */
module Database {
  import opened Wrappers
  import opened Storage
  import Tables

  /** Pages of the mushaf; one full recitation. */
  const QuranPages := 604

  const DefaultSurah := "الفاتحة"

  // ---- last_read ----

  method SaveLastRead(db: Store, surah: string, ayah: int)
    modifies db`lastRead
    ensures db.lastRead == Some(LastRead(surah, ayah))
  {
    db.lastRead := Some(LastRead(surah, ayah));
  }

  /** The saved position, or the first ayah of al-Fatiha when nothing was saved. */
  function GetLastRead(db: Store): (r: LastRead)
    reads db
    ensures db.lastRead.None? ==> r == LastRead(DefaultSurah, 1)
    ensures db.lastRead.Some? ==> r == db.lastRead.value
  {
    db.lastRead.GetOr(LastRead(DefaultSurah, 1))
  }

  // ---- tasbih and reading_log: accumulate on conflict ----

  /**
   * The upsert of `add_tasbih` and `log_reading`: the row of `day` becomes
   * its old value (0 when absent) plus `n`; no other row changes.
   */
  function Accumulate(t: map<Day, int>, day: Day, n: int): (r: map<Day, int>)
    ensures r.Keys == t.Keys + {day}
    ensures Lookup(r, day) == Lookup(t, day) + n
    ensures forall d :: d != day ==> Lookup(r, d) == Lookup(t, d)
  {
    t[day := Lookup(t, day) + n]
  }

  /** Two accumulations on one day are one accumulation of the sum. */
  lemma AccumulateTwice(t: map<Day, int>, day: Day, a: int, b: int)
    ensures Accumulate(Accumulate(t, day, a), day, b) == Accumulate(t, day, a + b)
  {
  }

  /** Accumulating n on a day inside a window adds n to the window's SUM. */
  lemma AccumulateGrowsSum(t: map<Day, int>, window: set<Day>, day: Day, n: int)
    requires window <= t.Keys && day !in window
    ensures var r := Accumulate(t, day, n);
      window + {day} <= r.Keys &&
      Tables.SumOver(r, window + {day}) == Tables.SumOver(t, window) + Lookup(t, day) + n
  {
    var r := Accumulate(t, day, n);
    Tables.SumOverInsert(t, window, day, Lookup(t, day) + n);
    assert r == t[day := Lookup(t, day) + n];
  }

  /** `add_tasbih`: returns today's count after adding. */
  method AddTasbih(db: Store, today: Day, count: int := 1) returns (total: int)
    modifies db`tasbih
    ensures db.tasbih == Accumulate(old(db.tasbih), today, count)
    ensures total == Lookup(old(db.tasbih), today) + count
  {
    if today in db.tasbih {
      var newCount := db.tasbih[today] + count;
      db.tasbih := db.tasbih[today := newCount];
    } else {
      db.tasbih := db.tasbih[today := count];
    }
    total := GetTasbihCount(db, today);
  }

  /** `get_tasbih_count`: today's count, 0 before the first glorification of the day. */
  function GetTasbihCount(db: Store, today: Day): (r: int)
    reads db
    ensures today !in db.tasbih ==> r == 0
    ensures today in db.tasbih ==> r == db.tasbih[today]
  {
    Lookup(db.tasbih, today)
  }

  /** `log_reading`: returns today's pages after adding. */
  method LogReading(db: Store, today: Day, pages: int) returns (total: int)
    modifies db`readingLog
    ensures db.readingLog == Accumulate(old(db.readingLog), today, pages)
    ensures total == Lookup(old(db.readingLog), today) + pages
  {
    if today in db.readingLog {
      var newCount := db.readingLog[today] + pages;
      db.readingLog := db.readingLog[today := newCount];
    } else {
      db.readingLog := db.readingLog[today := pages];
    }
    total := GetReadingPages(db, today);
  }

  /** `get_reading_pages`: the pages logged on `date`, 0 when nothing was logged. */
  function GetReadingPages(db: Store, date: Day): (r: int)
    reads db
    ensures date !in db.readingLog ==> r == 0
    ensures date in db.readingLog ==> r == db.readingLog[date]
  {
    Lookup(db.readingLog, date)
  }

  /** The rows `WHERE date >= start`: no upper bound. */
  function RowsFrom(log: map<Day, int>, start: Day): (w: set<Day>)
    ensures forall d :: d in w <==> d in log && d >= start
  {
    set d | d in log && d >= start
  }

  /**
   * `get_average_reading(days)`: `AVG(pages)` over the rows dated from
   * `today - (days - 1)` on, or 0 when there are none. It divides by the
   * number of logged rows, not by `days`.
   */
  function GetAverageReading(db: Store, today: Day, days: int := 7): (r: real)
    reads db
    ensures var w := RowsFrom(db.readingLog, today - (days - 1));
      (w == {} ==> r == 0.0) &&
      (w != {} ==> r * (|w| as real) == Tables.SumOver(db.readingLog, w) as real)
  {
    var w := RowsFrom(db.readingLog, today - (days - 1));
    if w == {} then 0.0
    else Tables.SumOver(db.readingLog, w) as real / (|w| as real)
  }

  /** Two logged days with 5 and 9 pages in the last week average 7 pages, whatever the window length. */
  lemma AverageOverLoggedDaysOnly(db: Store, today: Day)
    requires db.readingLog == map[today - 1 := 5, today - 4 := 9]
    ensures GetAverageReading(db, today, 7) == 7.0
  {
    var w := RowsFrom(db.readingLog, today - 6);
    assert w == {today - 1, today - 4};
    Tables.SumOverRemove(db.readingLog, w, today - 1);
    assert w - {today - 1} == {today - 4};
    Tables.SumOverRemove(db.readingLog, {today - 4}, today - 4);
    assert Tables.SumOver(db.readingLog, w) == 14;
  }

  // ---- settings: overwrite on conflict ----

  /** `update_settings`: UPDATE when the key exists, INSERT otherwise; either way the key now has `value`. */
  method UpdateSettings(db: Store, key: string, value: string)
    modifies db`settings
    ensures db.settings == old(db.settings)[key := value]
  {
    db.settings := db.settings[key := value];
  }

  /** The stored value of `key`, or `default` when the key was never set. */
  function GetSetting(db: Store, key: string, default: string := ""): (r: string)
    reads db
    ensures key !in db.settings ==> r == default
    ensures key in db.settings ==> r == db.settings[key]
  {
    if key in db.settings then db.settings[key] else default
  }

  // ---- ramadan_plan ----

  /** `set_ramadan_plan`: the only plan is now a fresh one started today; `days` is not checked. */
  method SetRamadanPlan(db: Store, today: Day, days: int)
    modifies db`ramadanPlan
    ensures db.ramadanPlan == Some(Plan(days, today, 0))
  {
    db.ramadanPlan := None;
    db.ramadanPlan := Some(Plan(days, today, 0));
  }

  /** `get_ramadan_plan`: the plan row, None exactly when there is none. */
  function GetRamadanPlan(db: Store): (r: Option<Plan>)
    reads db
    ensures r.None? <==> db.ramadanPlan.None?
    ensures r.Some? ==> r.value == db.ramadanPlan.value
  {
    db.ramadanPlan
  }

  /**
   * `add_ramadan_pages`: with no plan, nothing changes and the result is
   * None; otherwise `pages_read` grows by `pages` (with no cap at 604), the
   * new total is returned and the same pages go to today's reading log.
   */
  method AddRamadanPages(db: Store, today: Day, pages: int := 1) returns (r: Option<int>)
    modifies db`ramadanPlan, db`readingLog
    ensures old(db.ramadanPlan).None? ==>
      r == None && db.ramadanPlan == None && db.readingLog == old(db.readingLog)
    ensures old(db.ramadanPlan).Some? ==>
      var p := old(db.ramadanPlan).value;
      r == Some(p.pagesRead + pages) &&
      db.ramadanPlan == Some(p.(pagesRead := p.pagesRead + pages)) &&
      db.readingLog == Accumulate(old(db.readingLog), today, pages)
  {
    var plan := GetRamadanPlan(db);
    if plan.None? {
      return None;
    }
    var newTotal := plan.value.pagesRead + pages;
    db.ramadanPlan := Some(plan.value.(pagesRead := newTotal));
    var _ := LogReading(db, today, pages);
    r := Some(newTotal);
  }

  /** `(604 + d - 1) // d` is the least whole number of pages a day that covers 604 pages in d days. */
  lemma CeilingDivision(d: int)
    requires d > 0
    ensures var t := (QuranPages + d - 1) / d; t * d >= QuranPages && (t - 1) * d < QuranPages
  {
    var t := (QuranPages + d - 1) / d;
    var r := (QuranPages + d - 1) % d;
    assert QuranPages + d - 1 == t * d + r && 0 <= r < d;
    assert t * d - d == (t - 1) * d;
  }

  /**
   * `get_ramadan_daily_target`: None without a plan or with `plan_days <= 0`;
   * otherwise the ceiling of 604 / plan_days.
   */
  function GetRamadanDailyTarget(db: Store): (r: Option<int>)
    reads db
    ensures r.None? <==> db.ramadanPlan.None? || db.ramadanPlan.value.planDays <= 0
    ensures r.Some? ==> var d := db.ramadanPlan.value.planDays;
      r.value * d >= QuranPages && (r.value - 1) * d < QuranPages
  {
    var plan := GetRamadanPlan(db);
    if plan.None? || plan.value.planDays <= 0 then None
    else
      CeilingDivision(plan.value.planDays);
      Some((QuranPages + plan.value.planDays - 1) / plan.value.planDays)
  }

  /** A ten-day plan asks for 61 pages a day. */
  lemma TenDayTarget(db: Store)
    requires db.ramadanPlan.Some? && db.ramadanPlan.value.planDays == 10
    ensures GetRamadanDailyTarget(db) == Some(61)
  {
  }
}
