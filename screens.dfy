/**
 * The logic that noor_app/screens.py keeps inside its screens, apart from
 * building widgets: choosing the next Islamic occasion, the ayah cursor of
 * the reading screen, the tasbih counter, and the Ramadan plan screen's
 * summary, calendar and page entry.
 */
module Screens {
  import opened Wrappers
  import opened Storage
  import Hijri
  import Database
  import Khatma
  import Achievements
  import Performance
  import Tables

  // ---- next occasion ----

  /** An occasion's Hijri (month, day). */
  type EventDay = (int, int)

  /** Strictly earlier in (month, day) order. */
  predicate Before(a: EventDay, b: EventDay) {
    a.0 < b.0 || (a.0 == b.0 && a.1 < b.1)
  }

  lemma {:induction false} EarliestExists(s: set<EventDay>)
    requires s != {}
    ensures exists m :: m in s && forall k :: k in s && k != m ==> Before(m, k)
    decreases |s|
  {
    var x := Tables.Pick(s);
    var rest := s - {x};
    var first := x;
    if rest != {} {
      EarliestExists(rest);
      var m :| m in rest && forall k :: k in rest && k != m ==> Before(m, k);
      first := if Before(m, x) then m else x;
    }
    forall k | k in s && k != first
      ensures Before(first, k)
    {
      if k != x {
        assert k in rest;
      }
    }
  }

  /** The earliest (month, day) of a non-empty set: what sorting by (month, day) puts first. */
  function Earliest(s: set<EventDay>): (m: EventDay)
    requires s != {}
    ensures m in s && forall k :: k in s && k != m ==> Before(m, k)
  {
    EarliestExists(s);
    var m :| m in s && forall k :: k in s && k != m ==> Before(m, k); m
  }

  /**
   * The occasions considered: those later in the current month (today
   * included) when there are any, otherwise those in later months. Earlier
   * months never wrap around to next year.
   */
  function Candidates(events: map<EventDay, string>, month: int, day: int): (c: set<EventDay>)
    ensures (exists k :: k in events && k.0 == month && k.1 >= day) ==>
      forall k :: k in c <==> k in events && k.0 == month && k.1 >= day
    ensures (forall k :: k in events && k.0 == month ==> k.1 < day) ==>
      forall k :: k in c <==> k in events && k.0 > month
  {
    var same := set k | k in events && k.0 == month && k.1 >= day;
    assert forall k :: k in events && k.0 == month && k.1 >= day ==> k in same;
    if same != {} then same else set k | k in events && k.0 > month
  }

  /** The next occasion from Hijri (`month`, `day`) on, with its name, if any. */
  function NextEvent(events: map<EventDay, string>, month: int, day: int): (r: Option<(EventDay, string)>)
    ensures r.None? <==> forall k :: k in events ==> k.0 < month || (k.0 == month && k.1 < day)
    ensures r.Some? ==> r.value.0 in events && r.value.1 == events[r.value.0]
    ensures (exists k :: k in events && k.0 == month && k.1 >= day) ==>
      r.Some? && r.value.0.0 == month && r.value.0.1 >= day &&
      forall k :: k in events && k.0 == month && k.1 >= day ==> r.value.0.1 <= k.1
    ensures r.Some? && (forall k :: k in events && k.0 == month ==> k.1 < day) ==>
      r.value.0.0 > month && forall k :: k in events && k.0 > month ==> k == r.value.0 || Before(r.value.0, k)
  {
    var c := Candidates(events, month, day);
    if c == {} then None
    else
      var k := Earliest(c);
      Some((k, events[k]))
  }

  const NoEventsText := "لا توجد مناسبات قريبة"
  const NextEventLabel := "الحدث القادم: "

  /** `HomeScreen.get_next_event_text`: the next occasion after converting today to the Hijri calendar. */
  function NextEventText(events: map<EventDay, string>, today: Hijri.GDate): (s: string)
    ensures var h := Hijri.GregorianToHijri(today);
      var e := NextEvent(events, h.month, h.day);
      (e.None? ==> s == NoEventsText) &&
      (e.Some? ==> s != NoEventsText && NextEventLabel + e.value.1 <= s)
  {
    var h := Hijri.GregorianToHijri(today);
    match NextEvent(events, h.month, h.day)
    case None => NoEventsText
    case Some((k, name)) =>
      var s := NextEventLabel + name + " (" + Hijri.IntText(k.0) + "/" + Hijri.IntText(k.1) + ")";
      assert s[0] == NextEventLabel[0] != NoEventsText[0];
      assert (NextEventLabel + name) == s[..|NextEventLabel + name|];
      s
  }

  // ---- the reading screen's ayah cursor ----

  /** An entry of the surah list: name, number and number of ayahs. */
  datatype Surah = Surah(name: string, number: int, ayahs: int)

  /** The position of the first surah satisfying `p`, like Python's `next(...)` over a generator. */
  function FirstWhere(surahs: seq<Surah>, p: Surah -> bool): (r: Option<nat>)
    ensures r.None? <==> forall i :: 0 <= i < |surahs| ==> !p(surahs[i])
    ensures r.Some? ==>
      r.value < |surahs| && p(surahs[r.value]) && forall i :: 0 <= i < r.value ==> !p(surahs[i])
    decreases |surahs|
  {
    if |surahs| == 0 then None
    else if p(surahs[0]) then Some(0)
    else
      match FirstWhere(surahs[1..], p)
      case None => None
      case Some(i) => Some(i + 1)
  }

  class QuranScreen {
    const surahs: seq<Surah>
    var currentSurah: int
    var currentAyah: int

    /** The list entry of the current surah, if the number is listed. */
    function Current(): Option<Surah>
      reads this
    {
      var n := currentSurah;
      match FirstWhere(surahs, (s: Surah) => s.number == n)
      case None => None
      case Some(i) => Some(surahs[i])
    }

    /** Every surah has an ayah, and the cursor is on one of the current surah's ayahs. */
    ghost predicate Valid()
      reads this
    {
      (forall i :: 0 <= i < |surahs| ==> surahs[i].ayahs >= 1) &&
      1 <= currentAyah &&
      (Current().Some? ==> currentAyah <= Current().value.ayahs)
    }

    /** The screen opens at the first ayah of surah 1. */
    constructor (surahs: seq<Surah>)
      requires forall i :: 0 <= i < |surahs| ==> surahs[i].ayahs >= 1
      ensures this.surahs == surahs && currentSurah == 1 && currentAyah == 1
      ensures Valid()
    {
      this.surahs := surahs;
      currentSurah := 1;
      currentAyah := 1;
    }

    /**
     * `on_surah_selected`: move to the first surah with that name, at its
     * first ayah; an unknown name changes nothing.
     */
    method OnSurahSelected(text: string)
      requires Valid()
      modifies this
      ensures Valid()
      ensures match FirstWhere(surahs, (s: Surah) => s.name == text)
        case None => currentSurah == old(currentSurah) && currentAyah == old(currentAyah)
        case Some(i) => currentSurah == surahs[i].number && currentAyah == 1
    {
      var i := 0;
      while i < |surahs|
        invariant 0 <= i <= |surahs|
        invariant forall j :: 0 <= j < i ==> surahs[j].name != text
        invariant currentSurah == old(currentSurah) && currentAyah == old(currentAyah)
      {
        if surahs[i].name == text {
          currentSurah := surahs[i].number;
          currentAyah := 1;
          break;
        }
        i := i + 1;
      }
      if Current().Some? {
        ghost var n := currentSurah;
        ghost var k := FirstWhere(surahs, (s: Surah) => s.number == n).value;
        assert surahs[k].ayahs >= 1;
      }
    }

    /** `prev_ayah`: one ayah back, never before the first. */
    method PrevAyah()
      requires Valid()
      modifies this
      ensures Valid()
      ensures currentSurah == old(currentSurah)
      ensures currentAyah == if old(currentAyah) > 1 then old(currentAyah) - 1 else old(currentAyah)
    {
      if currentAyah > 1 {
        currentAyah := currentAyah - 1;
      }
    }

    /**
     * `next_ayah` as the class finally defines it: one ayah forward, never
     * past the surah's last, and nothing when the surah is not listed. This
     * definition does not log the ayah as read.
     */
    method NextAyah()
      requires Valid()
      modifies this
      ensures Valid()
      ensures currentSurah == old(currentSurah)
      ensures var s := Current();
        currentAyah == if s.Some? && old(currentAyah) < s.value.ayahs then old(currentAyah) + 1 else old(currentAyah)
    {
      var surah := Current();
      if surah.Some? && currentAyah < surah.value.ayahs {
        currentAyah := currentAyah + 1;
      }
    }

    /**
     * `next_ayah` as the class first defines it, which also logs the ayah
     * as read today: the behaviour the reading-log test expects.
     */
    method NextAyahLogged(db: Store, today: Day)
      requires Valid()
      modifies this, db`readingLog
      ensures Valid()
      ensures currentSurah == old(currentSurah)
      ensures var s := Current();
        var moved := s.Some? && old(currentAyah) < s.value.ayahs;
        currentAyah == (if moved then old(currentAyah) + 1 else old(currentAyah)) &&
        db.readingLog == (if moved then Database.Accumulate(old(db.readingLog), today, 1) else old(db.readingLog))
    {
      var surah := Current();
      if surah.Some? && currentAyah < surah.value.ayahs {
        currentAyah := currentAyah + 1;
        var _ := Database.LogReading(db, today, 1);
      }
    }
  }

  /**
   * With the effective `next_ayah`, moving forward from the first ayah of
   * al-Fatiha reaches ayah 2 but logs nothing, although the reading log may
   * change: today's pages stay 0 where the reading-log test expects at
   * least 1.
   */
  method NextAyahDoesNotLog(db: Store, today: Day) returns (ayah: int)
    requires db.readingLog == map[]
    modifies db`readingLog
    ensures ayah == 2 && Database.GetReadingPages(db, today) == 0
  {
    var screen := new QuranScreen([Surah("الفاتحة", 1, 7)]);
    screen.NextAyah();
    ayah := screen.currentAyah;
  }

  /** The first definition does log it: one page (ayah) today. */
  method NextAyahLoggedLogs(db: Store, today: Day)
    requires db.readingLog == map[]
    modifies db`readingLog
    ensures Database.GetReadingPages(db, today) == 1
  {
    var screen := new QuranScreen([Surah("الفاتحة", 1, 7)]);
    screen.NextAyahLogged(db, today);
  }

  /** A surah that satisfies `p` is found, at its position or before. */
  lemma FirstWhereFindsListed(surahs: seq<Surah>, p: Surah -> bool, i: nat)
    requires i < |surahs| && p(surahs[i])
    ensures FirstWhere(surahs, p).Some? && FirstWhere(surahs, p).value <= i
  {
  }

  // ---- the tasbih counter ----

  class TasbihScreen {
    var count: int

    constructor ()
      ensures count == 0
    {
      count := 0;
    }

    /** `increment`: one more glorification. */
    method Increment()
      modifies this
      ensures count == old(count) + 1
    {
      count := count + 1;
    }

    /** `reset`: back to zero. */
    method Reset()
      modifies this
      ensures count == 0
    {
      count := 0;
    }

    /** `save`: add the counter to today's stored tasbih count; the counter itself is kept. */
    method Save(db: Store, today: Day)
      modifies db`tasbih
      ensures db.tasbih == Database.Accumulate(old(db.tasbih), today, count)
    {
      var _ := Database.AddTasbih(db, today, count);
    }
  }

  // ---- the Ramadan plan screen ----

  /** What `update_plan_info` shows about the current plan. */
  datatype PlanInfo = PlanInfo(planDays: int, startDate: Day, pagesRead: int, target: Option<int>, remaining: int)

  /**
   * `update_plan_info`: no information without a plan; otherwise the plan,
   * the daily target, and the pages left out of 604, which is negative once
   * more than 604 pages have been read.
   */
  function UpdatePlanInfo(db: Store): (r: Option<PlanInfo>)
    reads db
    ensures r.None? <==> db.ramadanPlan.None?
    ensures r.Some? ==> var p := db.ramadanPlan.value;
      r.value.planDays == p.planDays && r.value.startDate == p.startDate &&
      r.value.pagesRead == p.pagesRead && r.value.target == Database.GetRamadanDailyTarget(db) &&
      r.value.pagesRead + r.value.remaining == Database.QuranPages &&
      (r.value.remaining < 0 <==> p.pagesRead > Database.QuranPages)
  {
    match Database.GetRamadanPlan(db)
    case None => None
    case Some(p) =>
      Some(PlanInfo(p.planDays, p.startDate, p.pagesRead, Database.GetRamadanDailyTarget(db),
        Database.QuranPages - p.pagesRead))
  }

  /** One calendar line: the date with its suhur (fajr) and iftar (maghrib) times. */
  datatype CalendarEntry = CalendarEntry(date: Day, suhur: string, iftar: string)

  /**
   * The prayer times fetched for `date`: none without a stored location,
   * and none for a day whose fetch failed (absent from `fetched`).
   */
  function PrayerTimes(located: bool, fetched: map<Day, map<string, string>>, date: Day): map<string, string> {
    if located && date in fetched then fetched[date] else map[]
  }

  /**
   * The calendar line for `date`: fajr as suhur and maghrib as iftar, each
   * empty when not located or when the fetch gave no such time.
   */
  function EntryOn(located: bool, fetched: map<Day, map<string, string>>, date: Day): (e: CalendarEntry)
    ensures e.date == date
    ensures !located || date !in fetched ==> e.suhur == "" && e.iftar == ""
    ensures located && date in fetched && "fajr" in fetched[date] ==> e.suhur == fetched[date]["fajr"]
    ensures located && date in fetched && "maghrib" in fetched[date] ==> e.iftar == fetched[date]["maghrib"]
    ensures located && date in fetched && "fajr" !in fetched[date] ==> e.suhur == ""
    ensures located && date in fetched && "maghrib" !in fetched[date] ==> e.iftar == ""
  {
    var times := PrayerTimes(located, fetched, date);
    CalendarEntry(date, Performance.Find(times, "fajr", ""), Performance.Find(times, "maghrib", ""))
  }

  /**
   * `get_ramadan_calendar`: no entries without a plan; otherwise one entry
   * per plan day (none for a plan of zero or fewer days), on consecutive
   * dates from the plan's start.
   */
  method GetRamadanCalendar(db: Store, located: bool, fetched: map<Day, map<string, string>>)
    returns (cal: seq<CalendarEntry>)
    ensures db.ramadanPlan.None? ==> cal == []
    ensures db.ramadanPlan.Some? ==> var p := db.ramadanPlan.value;
      |cal| == (if p.planDays > 0 then p.planDays else 0) &&
      forall i :: 0 <= i < |cal| ==> cal[i] == EntryOn(located, fetched, p.startDate + i)
  {
    var plan := Database.GetRamadanPlan(db);
    if plan.None? {
      return [];
    }
    var start := plan.value.startDate;
    var days := plan.value.planDays;
    cal := [];
    var i := 0;
    while i < days
      invariant 0 <= i && (days > 0 ==> i <= days) && (days <= 0 ==> i == 0)
      invariant |cal| == i
      invariant forall j :: 0 <= j < i ==> cal[j] == EntryOn(located, fetched, start + j)
    {
      var date := start + i;
      var times := if located then PrayerTimes(located, fetched, date) else map[];
      var suhur := Performance.Find(times, "fajr", "");
      var iftar := Performance.Find(times, "maghrib", "");
      cal := cal + [CalendarEntry(date, suhur, iftar)];
      i := i + 1;
    }
  }

  /** Consecutive calendar entries are consecutive days. */
  lemma CalendarDaysConsecutive(cal: seq<CalendarEntry>, located: bool, fetched: map<Day, map<string, string>>, start: Day)
    requires forall i :: 0 <= i < |cal| ==> cal[i] == EntryOn(located, fetched, start + i)
    ensures forall i :: 0 < i < |cal| ==> cal[i].date == cal[i - 1].date + 1
  {
  }

  const RamadanKhatmaBadge := "ختمة رمضان"

  /** The number typed into the page-entry box; text that is not a whole number counts as 0. */
  function PagesEntered(parsed: Option<int>): (pages: int)
    ensures parsed.None? ==> pages == 0
    ensures parsed.Some? ==> pages == parsed.value
  {
    parsed.GetOr(0)
  }

  /**
   * `add_pages.on_confirm`: a positive number of pages goes to the plan
   * (and today's reading log) and to the khatma counter, the latter even
   * without a plan; reaching 604 plan pages unlocks the Ramadan khatma
   * badge. Nothing changes otherwise. The result says whether the
   * daily-target notification is sent.
   */
  method OnConfirm(db: Store, today: Day, parsed: Option<int>) returns (notify: bool)
    modifies db`ramadanPlan, db`readingLog, db`khatma, db`badges
    ensures var pages := PagesEntered(parsed);
      pages <= 0 ==>
        !notify && db.ramadanPlan == old(db.ramadanPlan) && db.readingLog == old(db.readingLog) &&
        db.khatma == old(db.khatma) && db.badges == old(db.badges)
    ensures var pages := PagesEntered(parsed);
      pages > 0 && old(db.ramadanPlan).None? ==>
        !notify && db.ramadanPlan == None && db.readingLog == old(db.readingLog) &&
        db.khatma == Some(Khatma.KhatmaAfter(old(db.khatma), pages)) && db.badges == old(db.badges)
    ensures var pages := PagesEntered(parsed);
      pages > 0 && old(db.ramadanPlan).Some? ==>
        var p := old(db.ramadanPlan).value;
        var total := p.pagesRead + pages;
        var target := Database.GetRamadanDailyTarget(db);
        db.ramadanPlan == Some(p.(pagesRead := total)) &&
        db.readingLog == Database.Accumulate(old(db.readingLog), today, pages) &&
        db.khatma == Some(Khatma.KhatmaAfter(old(db.khatma), pages)) &&
        (notify <==> target.Some? && total >= target.value) &&
        db.badges == old(db.badges) + (if total >= Database.QuranPages then {RamadanKhatmaBadge} else {})
  {
    var pages := PagesEntered(parsed);
    notify := false;
    if pages > 0 {
      var added := Database.AddRamadanPages(db, today, pages);
      Khatma.UpdateKhatma(db, pages);
      var target := Database.GetRamadanDailyTarget(db);
      if target.Some? && target.value != 0 && added.Some? && added.value >= target.value {
        notify := true;
      }
      if added.Some? && added.value != 0 && added.value >= Database.QuranPages {
        var _ := Achievements.UnlockBadge(db, RamadanKhatmaBadge);
      }
    }
  }
}
