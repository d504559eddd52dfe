/**
 * The tables of the local record store (noor.db) that the core reads and
 * writes. Every operation of the core works on one shared store, as the
 * source's modules all open the same database file.
 *
 * A date is a day number (consecutive calendar days differ by one). The
 * source stores dates as "YYYY-MM-DD" text, whose order and equality agree
 * with those of day numbers for four-digit years.
 */
module Storage {
  import opened Wrappers

  type Day = int

  datatype LastRead = LastRead(surah: string, ayah: int)
  datatype Plan = Plan(planDays: int, startDate: Day, pagesRead: int)
  datatype KhatmaRow = KhatmaRow(pages: int, completed: int)
  datatype DailyStat = DailyStat(ayahsRead: int, adhkarCount: int, khatmaCount: int)

  class Store {
    /** `last_read`: at most one row. */
    var lastRead: Option<LastRead>
    /** `tasbih`: one count per date. */
    var tasbih: map<Day, int>
    /** `reading_log`: pages read per date. */
    var readingLog: map<Day, int>
    /** `statistics`: the daily activity counts per date. */
    var statistics: map<Day, DailyStat>
    /** `ramadan_plan`: at most one row. */
    var ramadanPlan: Option<Plan>
    /** `settings`: text values by key. */
    var settings: map<string, string>
    /** `khatma`: at most one row. */
    var khatma: Option<KhatmaRow>
    /** `achievements`: names in insertion order. */
    var achievements: seq<string>
    /** `badges`: names, UNIQUE. */
    var badges: set<string>

    /** A freshly created database: every table empty. */
    constructor ()
      ensures lastRead == None && ramadanPlan == None && khatma == None
      ensures tasbih == map[] && readingLog == map[] && statistics == map[] && settings == map[]
      ensures achievements == [] && badges == {}
    {
      lastRead := None;
      tasbih := map[];
      readingLog := map[];
      statistics := map[];
      ramadanPlan := None;
      settings := map[];
      khatma := None;
      achievements := [];
      badges := {};
    }
  }

  /** `row[0] if row else 0` for a table keyed by date. */
  function Lookup(t: map<Day, int>, d: Day): int {
    if d in t then t[d] else 0
  }
}
