/**
 * The khatma counter of noor_app/khatma.py: pages read toward one full
 * recitation of 604 pages, and the number of completed recitations.
 */
module Khatma {
  import opened Wrappers
  import opened Storage

  const KhatmaPages := 604

  /**
   * The khatma row after `update_khatma(pages)`. The first call stores its
   * pages as they are, without the threshold check; later calls add, and on
   * reaching 604 count one completion and restart from 0, discarding the
   * pages beyond 604.
   */
  function KhatmaAfter(row: Option<KhatmaRow>, pages: int): (r: KhatmaRow)
    ensures row.None? ==> r == KhatmaRow(pages, 0)
    ensures row.Some? ==> r.pages < KhatmaPages && r.completed >= row.value.completed
    ensures row.Some? && 0 <= row.value.pages && 0 <= pages ==> 0 <= r.pages
  {
    match row
    case None => KhatmaRow(pages, 0)
    case Some(k) =>
      if k.pages + pages >= KhatmaPages then KhatmaRow(0, k.completed + 1)
      else KhatmaRow(k.pages + pages, k.completed)
  }

  /** `update_khatma`. */
  method UpdateKhatma(db: Store, pages: int)
    modifies db`khatma
    ensures db.khatma == Some(KhatmaAfter(old(db.khatma), pages))
  {
    var row := db.khatma;
    if row.Some? {
      var newPages := row.value.pages + pages;
      if newPages >= KhatmaPages {
        IncrementCompleted(db);
        newPages := 0;
      }
      db.khatma := Some(db.khatma.value.(pages := newPages));
    } else {
      db.khatma := Some(KhatmaRow(pages, 0));
    }
  }

  /** `get_khatma_pages`: 0 before the first update. */
  function GetKhatmaPages(db: Store): (r: int)
    reads db
    ensures db.khatma.None? ==> r == 0
    ensures db.khatma.Some? ==> r == db.khatma.value.pages
  {
    if db.khatma.Some? then db.khatma.value.pages else 0
  }

  /** `get_completed_khatmas`: 0 before the first update. */
  function GetCompletedKhatmas(db: Store): (r: int)
    reads db
    ensures db.khatma.None? ==> r == 0
    ensures db.khatma.Some? ==> r == db.khatma.value.completed
  {
    if db.khatma.Some? then db.khatma.value.completed else 0
  }

  /** `increment_completed`: one more completion; an UPDATE of no row when the table is empty. */
  method IncrementCompleted(db: Store)
    modifies db`khatma
    ensures old(db.khatma).None? ==> db.khatma == None
    ensures old(db.khatma).Some? ==>
      db.khatma == Some(old(db.khatma).value.(completed := old(db.khatma).value.completed + 1))
  {
    if db.khatma.Some? {
      db.khatma := Some(db.khatma.value.(completed := db.khatma.value.completed + 1));
    }
  }

  /**
   * Reaching 604 counts exactly one completion, however far past 604 the
   * total goes: the progress `604 * completed + pages` grows by `pages`
   * less the overflow beyond 604, which is lost.
   */
  lemma UpdateDiscardsOverflow(k: KhatmaRow, pages: int)
    ensures var r := KhatmaAfter(Some(k), pages);
      var overflow := if k.pages + pages >= KhatmaPages then k.pages + pages - KhatmaPages else 0;
      (r.completed == k.completed + 1 <==> k.pages + pages >= KhatmaPages) &&
      (r.completed == k.completed <==> k.pages + pages < KhatmaPages) &&
      KhatmaPages * r.completed + r.pages == KhatmaPages * k.completed + k.pages + pages - overflow
  {
  }

  /** 600 pages and then 10 more: one completion and 0 pages; the 6 extra pages are lost. */
  lemma SixHundredThenTen()
    ensures KhatmaAfter(Some(KhatmaAfter(None, 600)), 10) == KhatmaRow(0, 1)
  {
  }

  /** The first update stores its pages unchecked: 700 pages on an empty table stays 700. */
  lemma FirstUpdateUnchecked()
    ensures KhatmaAfter(None, 700) == KhatmaRow(700, 0)
    ensures KhatmaAfter(Some(KhatmaAfter(None, 700)), 0) == KhatmaRow(0, 1)
  {
  }
}
