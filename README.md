# Noor: a verified model of the app's core logic

Noor is a Kivy app for reading the Quran and tracking worship, backed by a
local SQLite database. This project models the deterministic logic under its
user interface in Dafny and proves what that logic promises:

- the Gregorian-to-Hijri conversion, the formatted Hijri date and the search
  for this year's Ramadan (`hijri_utils.py`);
- the record store's helpers: the last-read position, the daily tasbih
  count, settings, the reading log, and the Ramadan reading plan with its
  daily target (`database.py`);
- the khatma counter: pages toward one full recitation of 604 pages, and
  the completed recitations (`khatma.py`);
- the activity statistics: daily rows, the week, totals, the streak of
  consecutive active days, the plan summary, and pruning (`statistics.py`);
- achievements and badges (`achievements.py`), and the in-memory cache
  (`performance.py`);
- the non-widget logic of the screens: the next Islamic occasion, the
  reading screen's ayah cursor, the tasbih counter, and the Ramadan plan
  screen's summary, calendar and page entry (`screens.py`).

Every module opens the same database file, so the model has one shared
`Storage.Store` object with one field per table. A table keyed by date is a
`map` from day numbers. A table that its writers keep to at most one row is
an `Option`. The achievement rows are a `seq` in insertion order, and the
UNIQUE badge names are a `set`. The clock's "today" is a parameter. In the
Hijri module a day number is the Julian Day Number, and
`Hijri.NextDayAdvancesJdn` shows that stepping one calendar day adds one to
it. `ORDER BY date DESC` and `SUM` over rows are pure functions in module
`Tables`; `COUNT` is the size of a map or set, and `AVG` is the body of
`Database.GetAverageReading`. Default arguments of the source's functions
are Dafny default parameter values. The source files are `wrappers.dfy`,
`tables.dfy`, `storage.dfy`, `hijri.dfy`, `database.dfy`, `khatma.dfy`,
`statistics.dfy`, `achievements.dfy`, `performance.dfy` and `screens.dfy`.

## Model

| member | source | states |
|---|---|---|
| Hijri.JulianDay | noor_app/hijri_utils.py:15-19 | 1 January of year 1 is day 1721426 and 1 January 2000 is day 2451545, the Julian Day Numbers of those dates |
| Hijri.NextDayAdvancesJdn | noor_app/hijri_utils.py:15-19 | the Julian Day Number of the calendar day after any valid Gregorian date is exactly one more |
| Hijri.HijriOfJdn | noor_app/hijri_utils.py:22-29 | the tabular Islamic conversion is total: every day number gets a month in 1..12 and a day in 1..30 |
| Hijri.GregorianToHijri | noor_app/hijri_utils.py:4-30 | the conversion is defined for every date and yields a month in 1..12 and a day in 1..30 |
| Hijri.HijriNextDay | noor_app/hijri_utils.py:22-29 | the day after any day number is the next day of the same Hijri month, or the first of the next month, or after month 12 the first of month 1 of the next year |
| Hijri.RamadanStartOf | noor_app/hijri_utils.py:22-29 | a day of month 9 with day-of-month d lies d-1 days after a first of Ramadan |
| Hijri.FirstOfRamadan1442 | noor_app/test_features.py:12-16 | 2021-04-13 has Julian Day Number 2459318 and converts to 1442/9/1 |
| Hijri.RamadanNextDay | noor_app/hijri_utils.py:22-29 | inside month 9 the next day is the next day of month 9 of the same year, and the day after day 30 is in month 10 |
| Hijri.NatTextValue | noor_app/hijri_utils.py:37 | the decimal text of a number reads back as that number |
| Hijri.Pad2 | noor_app/hijri_utils.py:37 | `:02d` text has no '/', and for 0..99 is two digits that read back as the number |
| Hijri.HijriTextFields | noor_app/hijri_utils.py:37 | the "Y/MM/DD" text of a date with month 1..12 and day 1..30 splits at '/' into the year and two two-digit fields reading back as the month and day |
| Hijri.GetHijriDate | noor_app/hijri_utils.py:33-37 | splitting today's Hijri date text at '/' gives exactly three fields: the year, then the month and the day as two digits reading back as their values |
| Hijri.RamadanDates | noor_app/hijri_utils.py:40-65 | the result is empty exactly when no first of Ramadan lies in the 370 days back from today; otherwise it starts at the most recent one in that window, has 30 entries, lists consecutive days that all convert to month 9 day k+1, and the day after the last is not in month 9; when today is in month 9 the result contains today |
| Hijri.RamadanStartInWindow | noor_app/hijri_utils.py:45-53 | when today is in month 9 the 370-day search back from today finds a first of Ramadan |
| Hijri.TodayInRamadan | noor_app/hijri_utils.py:40-65 | a day of month 9 is among the 30 days from the most recent first of Ramadan before it |
| Tables.SortedDesc | noor_app/statistics.py:110-113 | `ORDER BY date DESC` keeps exactly the given dates, each once, in strictly decreasing order |
| Tables.SortedDescPosition | noor_app/statistics.py:110-113 | every date of the set has a position in the ordering |
| Tables.SumOverRemove | noor_app/statistics.py:84-89 | `SUM` over rows does not depend on the order they are visited: any row can be taken out first |
| Database.SaveLastRead | noor_app/database.py:80-83 | the one last-read row becomes the given surah and ayah, whatever was saved before |
| Database.GetLastRead | noor_app/database.py:85-88 | the saved position, or al-Fatiha ayah 1 when none was saved |
| Database.Accumulate | noor_app/database.py:90-101 | the upsert adds n to the day's value (0 when absent) and leaves every other day unchanged |
| Database.AccumulateTwice | noor_app/database.py:128-139 | two accumulations on a day equal one accumulation of their sum |
| Database.AccumulateGrowsSum | noor_app/database.py:128-153 | accumulating n on a day outside a window gives, over the window with that day added, the old window `SUM` plus that day's old value (0 when absent) plus n |
| Database.AddTasbih | noor_app/database.py:90-101 | today's count grows by the given count (from 0 when absent), other days are unchanged, and the new count is returned |
| Database.GetTasbihCount | noor_app/database.py:103-107 | today's count, 0 when there is no row for today |
| Database.LogReading | noor_app/database.py:128-139 | today's pages grow by the given pages (from 0 when absent), other dates are unchanged, and the new total is returned |
| Database.GetReadingPages | noor_app/database.py:142-145 | the pages logged on a date, 0 when none were |
| Database.GetAverageReading | noor_app/database.py:148-153 | the mean over logged rows dated from today-(days-1) on, with no upper bound and dividing by the number of rows; 0 when there are none |
| Database.AverageOverLoggedDaysOnly | noor_app/database.py:148-153 | two logged days of 5 and 9 pages in the window average 7, although the window has 7 days |
| Database.UpdateSettings | noor_app/database.py:109-115 | the key's value is overwritten (or inserted) and no other key changes |
| Database.GetSetting | noor_app/database.py:117-120 | the stored value, or the default for a key never set |
| Database.SetRamadanPlan | noor_app/database.py:158-165 | the only plan becomes (days, today, 0), discarding any earlier plan and its progress; days is not checked |
| Database.GetRamadanPlan | noor_app/database.py:168-174 | None exactly when there is no plan row |
| Database.AddRamadanPages | noor_app/database.py:177-189 | without a plan: None, and neither the plan nor the reading log changes; with one: pages_read grows by the pages with no cap, the new total is returned, and today's reading log grows by the same pages |
| Database.CeilingDivision | noor_app/database.py:196-198 | (604+d-1)//d is the least whole t with t*d >= 604 |
| Database.GetRamadanDailyTarget | noor_app/database.py:192-198 | None exactly when there is no plan or plan_days <= 0; otherwise t with t*d >= 604 and (t-1)*d < 604 |
| Database.TenDayTarget | noor_app/test_features.py:92-97 | a ten-day plan asks for 61 pages a day |
| Khatma.UpdateKhatma | noor_app/khatma.py:13-28 | the row becomes KhatmaAfter of the old row: a first call stores its pages as given with 0 completions; later calls add, and at 604 or more count one completion and restart at 0 |
| Khatma.GetKhatmaPages | noor_app/khatma.py:30-34 | the stored pages, 0 when there is no row |
| Khatma.GetCompletedKhatmas | noor_app/khatma.py:36-40 | the stored completions, 0 when there is no row |
| Khatma.IncrementCompleted | noor_app/khatma.py:42-45 | the completions grow by exactly 1, and an empty table stays empty |
| Khatma.KhatmaAfter | noor_app/khatma.py:13-28 | a first update stores its pages with 0 completions; once a row exists, an update leaves fewer than 604 pages (none negative for non-negative input) and never lowers the completions |
| Khatma.UpdateDiscardsOverflow | noor_app/khatma.py:19-24 | on reaching 604 the completions grow by exactly 1 and the pages beyond 604 are lost; below 604 the pages add up and completions stay |
| Khatma.SixHundredThenTen | noor_app/khatma.py:19-24 | 600 stored pages plus 10 give 0 pages and one more completion |
| Khatma.FirstUpdateUnchecked | noor_app/khatma.py:18-26 | a first update of 700 stores 700 pages, and a following update of 0 completes one khatma |
| Statistics.RecordDailyActivity | noor_app/statistics.py:10-27 | today's three counts are set to the given values, replacing any earlier row for today; other dates are unchanged |
| Statistics.RecordReplacesInTotals | noor_app/statistics.py:10-27 | recording replaces today's counts in the totals instead of adding to them, and a new date adds one active day |
| Statistics.GetDailyStats | noor_app/statistics.py:30-45 | exactly the row of the date, or None when it has none |
| Statistics.GetWeeklyStats | noor_app/statistics.py:48-61 | exactly the rows dated today-7 through today, each with its own counts, in strictly descending date order |
| Statistics.TotalsOf | noor_app/statistics.py:82-105 | the number of active days is the number of rows, and an empty table gives all zeros |
| Statistics.TotalsRemoveRow | noor_app/statistics.py:84-89 | each row adds exactly one active day and its own three counts to the totals, so with the empty table's zeros the totals are the column sums |
| Statistics.GetTotalStats | noor_app/statistics.py:82-105 | the store's totals: one active day per row, zeros for an empty table, and every row contributing exactly its own counts |
| Statistics.IsStreak | noor_app/statistics.py:108-129 | the streak is 0 without rows or when the newest row is not today's; otherwise every day from today back over the streak has a row and the day before does not |
| Statistics.StreakIsUnique | noor_app/statistics.py:108-129 | at most one number is the streak for given rows and today |
| Statistics.GetStreak | noor_app/statistics.py:108-129 | walking the dates newest first and stopping at the first gap yields the streak |
| Statistics.GetRamadanPlanStats | noor_app/statistics.py:132-141 | None without a plan; otherwise its days and pages, with the average equal to pages/days, or 0 for a zero-day plan |
| Statistics.ClearOldStats | noor_app/statistics.py:167-172 | exactly the rows dated on or after today-days remain, with their values unchanged |
| Achievements.WithAchievement | noor_app/achievements.py:30-33 | a guarded insert: the name is present afterwards, and the rows change only when it was absent, by appending it |
| Achievements.CheckAchievements | noor_app/achievements.py:25-47 | the rows become Checked of the old rows, the plan's presence and today's logged pages |
| Achievements.Checked | noor_app/achievements.py:25-47 | after a check the first-step achievement is present, earlier rows are kept in order, and at most three rows are added |
| Achievements.CheckedPlanIff | noor_app/achievements.py:35-40 | the plan achievement is present after a check exactly when it was before or a plan exists |
| Achievements.CheckedReadingIff | noor_app/achievements.py:42-47 | the first-reading achievement is present after a check exactly when it was before or today's pages are positive |
| Achievements.CheckedAddsOnlyBuiltIns | noor_app/achievements.py:25-47 | a check adds no name other than the three built-in ones |
| Achievements.CheckedNoDuplicates | noor_app/achievements.py:30-47 | checks never create two rows with the same name |
| Achievements.CheckedIdempotent | noor_app/achievements.py:30-47 | a second check with the same plan and pages changes nothing |
| Achievements.UnlockBadge | noor_app/achievements.py:49-57 | returns true exactly when the badge was not yet unlocked; afterwards the badge is unlocked and no other badge changes |
| Achievements.GetAchievementCount | noor_app/achievements.py:69-72 | the number of achievement rows |
| Achievements.FirstCheckCountsOne | noor_app/achievements.py:25-47 | on a fresh database without plan or reading, a check leaves exactly the first-step achievement |
| Performance.Find | noor_app/performance.py:77-79 | the stored value, or the default for a missing key |
| Performance.CacheManager.Get | noor_app/performance.py:77-79 | the stored value, or the default for a missing key |
| Performance.CacheManager.Set | noor_app/performance.py:81-83 | the key now maps to the value and no other key changes |
| Performance.CacheManager.Clear | noor_app/performance.py:85-87 | the cache is empty |
| Performance.FindAfterStore | noor_app/performance.py:77-83 | after a store a lookup of the key yields the value, and lookups of other keys are unaffected |
| Performance.StoreOverwrites | noor_app/performance.py:81-83 | storing twice under a key keeps only the second value |
| Performance.FindAfterClear | noor_app/performance.py:77-87 | after clearing every lookup yields its default |
| Screens.Earliest | noor_app/screens.py:155-158 | sorting by (month, day) puts first the candidate earlier than every other |
| Screens.Candidates | noor_app/screens.py:145-154 | the occasions later in the current month, today included, when there are any, else those in later months |
| Screens.NextEvent | noor_app/screens.py:142-160 | None exactly when every occasion is earlier in the year; otherwise a listed occasion with its name, the earliest day in the current month from today on if one exists, else the earliest (month, day) of a later month, never wrapping to earlier months |
| Screens.NextEventText | noor_app/screens.py:142-160 | the no-occasions text exactly when there is no next occasion; otherwise a text starting with the label and the occasion's name |
| Screens.FirstWhere | noor_app/screens.py:222-226 | the position of the first list entry that matches, None when none does |
| Screens.QuranScreen.constructor | noor_app/screens.py:165-171 | the screen starts at ayah 1 of surah 1 with the cursor on a valid ayah |
| Screens.QuranScreen.OnSurahSelected | noor_app/screens.py:222-228 | selecting a listed name moves to the first surah with that name at ayah 1; an unknown name changes nothing; the cursor stays valid |
| Screens.QuranScreen.PrevAyah | noor_app/screens.py:299-302 | one ayah back only when past the first; the surah does not change |
| Screens.QuranScreen.NextAyah | noor_app/screens.py:313-317 | one ayah forward only while before the surah's last, nothing for an unlisted surah; the cursor stays within the surah's ayahs |
| Screens.QuranScreen.NextAyahLogged | noor_app/screens.py:304-311 | as NextAyah, and a move forward also adds one to today's reading log |
| Screens.NextAyahDoesNotLog | noor_app/screens.py:313-317 | the effective next_ayah moves from ayah 1 to ayah 2 of al-Fatiha, yet although the reading log may change, today's logged pages are still 0 |
| Screens.NextAyahLoggedLogs | noor_app/test_features.py:48-55 | with logging, the same move leaves one page logged today, as the test expects |
| Screens.TasbihScreen.constructor | noor_app/screens.py:468-472 | the counter starts at 0 |
| Screens.TasbihScreen.Increment | noor_app/screens.py:523-525 | the counter grows by exactly 1 |
| Screens.TasbihScreen.Reset | noor_app/screens.py:527-529 | the counter becomes 0 |
| Screens.TasbihScreen.Save | noor_app/screens.py:531-533 | today's stored tasbih count grows by the counter |
| Screens.UpdatePlanInfo | noor_app/screens.py:759-771 | nothing without a plan; otherwise the plan, its daily target, and the remaining pages with pages read plus remaining equal to 604, negative exactly when more than 604 were read |
| Screens.GetRamadanCalendar | noor_app/screens.py:779-797 | no entries without a plan; otherwise one entry per plan day (none for a non-positive plan), on consecutive dates from the start date, with the fajr and maghrib times fetched for that date or empty text |
| Screens.EntryOn | noor_app/screens.py:789-796 | a calendar line carries its date, fajr as suhur and maghrib as iftar when located and fetched, and empty text for a time that is missing or when not located |
| Screens.CalendarDaysConsecutive | noor_app/screens.py:789-796 | consecutive calendar entries are consecutive days |
| Screens.PagesEntered | noor_app/screens.py:843-846 | text that `int()` rejects counts as 0 pages; a parsed number is used as it is |
| Screens.OnConfirm | noor_app/screens.py:842-858 | non-positive or unparsable input changes nothing; positive pages go to the khatma counter even without a plan, and with a plan also to the plan and today's reading log, notify exactly when the new total reaches the daily target, and unlock the Ramadan khatma badge when it reaches 604 |

## Left out

- Notifications (`notifications.py`), the prayer-times HTTP client and location store (`prayer_utils.py`), app start-up (`main.py`) and the import checker: I/O, timers, randomness and network. The prayer times that `get_ramadan_calendar` fetches are a parameter: whether a location is stored, and the times fetched per date.
- Widget construction, popups, `update_ayah_display`, `load_quran_data` (JSON file reading) and `save_progress` in `screens.py`.
- `ISLAMIC_EVENTS` and `SURAHS` live in a data module that is not part of this model; both are parameters.
- The clock: "today" is a parameter everywhere. `Hijri.RamadanDates` returns day numbers (JDNs), not "YYYY-MM-DD" text. The other date columns are day numbers too, whose order and equality agree with the source's text dates.
- Screens.OnConfirm: the typed text's `int()` parse is a parameter, `None` where `int()` raises, which the source turns into 0. The notification itself is not sent; the method returns whether it would be.
- `get_monthly_stats` (grouping by `strftime('%Y-%m')`), `export_stats_json`, `get_progress_percentage` (float rounding), `get_achievements`, `get_badges`, `get_statistics` and the logging, garbage-collection and uptime helpers of `performance.py`.
- Floating point: averages are exact `real` values, stated by multiplication (`avg * count == sum`), not Python floats.
- SQLite itself: connections, commits, the `CURRENT_TIMESTAMP` and `datetime.now()` columns, and failures other than the UNIQUE violation in `unlock_badge`.
- Statistics.GetDailyStats: the date is always given; the source's `date=None`, meaning today, is the caller passing today.
- Performance.CacheManager.Get: the default is always given, because the cache's value type is generic and has no `None`; the source's default is `None`.
- Screens.QuranScreen.constructor: requires every listed surah to have at least one ayah, which the source assumes of its surah data without checking.
- The screen's `next_ayah` is defined twice; Python keeps the second definition, which the model uses (see Findings).

## Findings

| source | as written | input that shows it | evidently intended | confidence | as-written member | corrected member |
|---|---|---|---|---|---|---|
| noor_app/screens.py:304-317 | `next_ayah` is defined twice and the second definition, without `log_reading(1)`, replaces the first | empty reading log, surah al-Fatiha at ayah 1, one press of next: today's pages stay 0 | each ayah read is logged, as the first definition does and noor_app/test_features.py:54-55 expects (pages >= 1) | medium, not executed | Screens.NextAyahDoesNotLog | Screens.QuranScreen.NextAyahLogged |
