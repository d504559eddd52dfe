/**
 * The achievements and badges of noor_app/achievements.py. Achievements are
 * named rows in insertion order; each of the three built-in ones is added at
 * most once because every insert first checks that the name is absent.
 * Badge names are UNIQUE, so a badge is a member of a set.
 */
module Achievements {
  import opened Wrappers
  import opened Storage
  import Database

  const FirstStep := "أول خطوة في الختمة"
  const PlanStarted := "بدأت خطة رمضان"
  const FirstReading := "سجلت قراءتك الأولى"

  /** Insert `name` unless a row with that name exists. */
  function WithAchievement(names: seq<string>, name: string): (r: seq<string>)
    ensures name in r
    ensures name in names ==> r == names
    ensures name !in names ==> r == names + [name]
  {
    if name in names then names else names + [name]
  }

  /**
   * The achievements after a check: the first-step achievement always, the
   * plan achievement when a Ramadan plan exists, and the reading achievement
   * when today's logged pages are positive, each only if not yet present.
   * Earlier rows are kept, in order, and at most three rows are added.
   */
  function Checked(names: seq<string>, hasPlan: bool, pagesToday: int): (r: seq<string>)
    ensures FirstStep in r && names <= r && |r| <= |names| + 3
  {
    var a := WithAchievement(names, FirstStep);
    var b := if hasPlan then WithAchievement(a, PlanStarted) else a;
    if pagesToday > 0 then WithAchievement(b, FirstReading) else b
  }

  /** `check_achievements`: three guarded inserts, in the source's order. */
  method CheckAchievements(db: Store, today: Day)
    modifies db`achievements
    ensures db.achievements ==
      Checked(old(db.achievements), db.ramadanPlan.Some?, Database.GetReadingPages(db, today))
  {
    if FirstStep !in db.achievements {
      db.achievements := db.achievements + [FirstStep];
    }
    var plan := Database.GetRamadanPlan(db);
    if plan.Some? {
      if PlanStarted !in db.achievements {
        db.achievements := db.achievements + [PlanStarted];
      }
    }
    var pages := Database.GetReadingPages(db, today);
    if pages > 0 {
      if FirstReading !in db.achievements {
        db.achievements := db.achievements + [FirstReading];
      }
    }
  }

  /** No name occurs in two rows. */
  predicate NoDuplicates(names: seq<string>) {
    forall i, j :: 0 <= i < j < |names| ==> names[i] != names[j]
  }

  /** The plan achievement is present after a check exactly when it was before or a plan exists. */
  lemma CheckedPlanIff(names: seq<string>, hasPlan: bool, pagesToday: int)
    ensures PlanStarted in Checked(names, hasPlan, pagesToday) <==> PlanStarted in names || hasPlan
  {
    var a := WithAchievement(names, FirstStep);
    var b := if hasPlan then WithAchievement(a, PlanStarted) else a;
    assert PlanStarted in b <==> PlanStarted in names || hasPlan;
  }

  /** The reading achievement is present after a check exactly when it was before or pages were read today. */
  lemma CheckedReadingIff(names: seq<string>, hasPlan: bool, pagesToday: int)
    ensures FirstReading in Checked(names, hasPlan, pagesToday) <==> FirstReading in names || pagesToday > 0
  {
    var a := WithAchievement(names, FirstStep);
    var b := if hasPlan then WithAchievement(a, PlanStarted) else a;
    assert FirstReading in b <==> FirstReading in names;
  }

  /** A check adds no name other than the three built-in ones. */
  lemma CheckedAddsOnlyBuiltIns(names: seq<string>, hasPlan: bool, pagesToday: int)
    ensures forall x :: x in Checked(names, hasPlan, pagesToday) ==>
      x in names || x == FirstStep || x == PlanStarted || x == FirstReading
  {
  }

  lemma WithAchievementNoDuplicates(names: seq<string>, name: string)
    requires NoDuplicates(names)
    ensures NoDuplicates(WithAchievement(names, name))
  {
    if name !in names {
      var r := names + [name];
      forall i, j | 0 <= i < j < |r|
        ensures r[i] != r[j]
      {
        if j == |names| {
          assert r[i] == names[i];
        }
      }
    }
  }

  /** Checks never create two rows with the same name. */
  lemma CheckedNoDuplicates(names: seq<string>, hasPlan: bool, pagesToday: int)
    requires NoDuplicates(names)
    ensures NoDuplicates(Checked(names, hasPlan, pagesToday))
  {
    var a := WithAchievement(names, FirstStep);
    WithAchievementNoDuplicates(names, FirstStep);
    var b := if hasPlan then WithAchievement(a, PlanStarted) else a;
    if hasPlan {
      WithAchievementNoDuplicates(a, PlanStarted);
    }
    if pagesToday > 0 {
      WithAchievementNoDuplicates(b, FirstReading);
    }
  }

  /** A second check with the same plan and pages changes nothing. */
  lemma {:induction false} CheckedIdempotent(names: seq<string>, hasPlan: bool, pagesToday: int)
    ensures var r := Checked(names, hasPlan, pagesToday);
      Checked(r, hasPlan, pagesToday) == r
  {
    var r := Checked(names, hasPlan, pagesToday);
    CheckedPlanIff(names, hasPlan, pagesToday);
    CheckedReadingIff(names, hasPlan, pagesToday);
    assert WithAchievement(r, FirstStep) == r;
  }

  /**
   * `unlock_badge`: insert the badge; the UNIQUE constraint makes the insert
   * fail, and the call return false, when the badge is already unlocked.
   */
  method UnlockBadge(db: Store, name: string) returns (ok: bool)
    modifies db`badges
    ensures ok <==> name !in old(db.badges)
    ensures db.badges == old(db.badges) + {name}
  {
    if name in db.badges {
      return false;
    }
    db.badges := db.badges + {name};
    return true;
  }

  /** `get_achievement_count`: `COUNT(*)` over the achievement rows. */
  function GetAchievementCount(db: Store): (r: int)
    reads db
    ensures r == |db.achievements|
  {
    |db.achievements|
  }

  /** On a fresh database one check yields exactly one achievement row. */
  lemma FirstCheckCountsOne(db: Store, today: Day)
    requires db.achievements == [] && db.ramadanPlan.None? && db.readingLog == map[]
    ensures Checked(db.achievements, db.ramadanPlan.Some?, Database.GetReadingPages(db, today)) == [FirstStep]
  {
  }
}
