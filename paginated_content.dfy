/**
 * The page navigator of `PaginatedContent`: it holds the index of the page on show, moves
 * it back and forth with the two buttons, resets it when a new set of pages arrives, and
 * derives from it the content shown, the "Page x of y" label and whether each button is
 * disabled.
 */
module PaginatedContent {
  import opened Numeric

  /** `goToPrev`'s update `p => Math.max(0, p - 1)`. */
  function PrevIndex(p: int): int {
    Max(0, p - 1)
  }

  /** `goToNext`'s update `p => Math.min(pages.length - 1, p + 1)`. */
  function NextIndex(len: nat, p: int): int {
    Min(len - 1, p + 1)
  }

  /** An index that shows a page: inside the pages when there are any, and 0 (where the
      navigator starts and where new pages put it) when there are none. */
  predicate InRange(len: nat, p: int) {
    0 <= p && (len > 0 ==> p < len) && (len == 0 ==> p == 0)
  }

  /** Both moves keep a valid index valid, as long as there is a page. */
  lemma MovesStayInRange(len: nat, p: int)
    requires len >= 1 && InRange(len, p)
    ensures InRange(len, PrevIndex(p)) && InRange(len, NextIndex(len, p))
    ensures PrevIndex(p) == (if p == 0 then 0 else p - 1)
    ensures NextIndex(len, p) == (if p == len - 1 then p else p + 1)
  {
  }

  /** `pages[currentPage] || ""`: the page at the index, or the empty string when the
      index holds none. */
  function ContentAt(pages: seq<string>, p: int): (c: string)
    ensures 0 <= p < |pages| ==> c == pages[p]
    ensures !(0 <= p < |pages|) ==> c == ""
  {
    if 0 <= p < |pages| && pages[p] != "" then pages[p] else ""
  }

  /** The "Page x of y" label, and whether it is visible (`pages.length > 1`). */
  datatype Label = Label(visible: bool, current: int, total: int)

  /** The label: `x = min(currentPage + 1, max(len, 1))`, `y = max(len, 1)`. */
  function PageLabel(len: nat, p: int): Label {
    Label(len > 1, Min(p + 1, Max(len, 1)), Max(len, 1))
  }

  /** For a valid index the label counts pages from 1: it reads `p + 1` of the number of
      pages (of 1 when there are none), so its figures satisfy `1 <= x <= y`. */
  lemma LabelCounts(len: nat, p: int)
    requires InRange(len, p)
    ensures var l := PageLabel(len, p);
            && 1 <= l.current <= l.total
            && l.total == (if len == 0 then 1 else len)
            && (len > 0 ==> l.current == p + 1)
            && (l.visible <==> len > 1)
  {
  }

  /** `disabled={currentPage === 0 || pages.length <= 1}`. */
  predicate PrevDisabled(len: nat, p: int) {
    p == 0 || len <= 1
  }

  /** `disabled={currentPage === pages.length - 1 || pages.length <= 1}`. */
  predicate NextDisabled(len: nat, p: int) {
    p == len - 1 || len <= 1
  }

  /** With a valid index, a button is disabled exactly when pressing it would not move. */
  lemma DisabledIffStuck(len: nat, p: int)
    requires len >= 1 && InRange(len, p)
    ensures PrevDisabled(len, p) <==> PrevIndex(p) == p
    ensures NextDisabled(len, p) <==> NextIndex(len, p) == p
  {
  }

  /** Pressing Next `k` times from `p`. */
  function NextTimes(len: nat, p: int, k: nat): int
    decreases k
  {
    if k == 0 then p else NextIndex(len, NextTimes(len, p, k - 1))
  }

  /** `k` presses of Next from a valid index move `k` pages on, stopping at the last. */
  lemma {:induction false} NextTimesStops(len: nat, p: int, k: nat)
    requires len >= 1 && InRange(len, p)
    ensures NextTimes(len, p, k) == Min(len - 1, p + k)
    decreases k
  {
    if k > 0 {
      NextTimesStops(len, p, k - 1);
    }
  }

  /** The navigator's state: the pages it was given and the `currentPage` state. */
  class PageNavigator {
    var pages: seq<string>
    var currentPage: int

    /** The index shows a page. */
    predicate Valid()
      reads this
    {
      InRange(|pages|, currentPage)
    }

    /** `useState(0)` on first render. */
    constructor (pages: seq<string>)
      ensures this.pages == pages && currentPage == 0 && Valid()
    {
      this.pages := pages;
      currentPage := 0;
    }

    /** The content on show: the current page, or nothing when there are no pages. */
    function Content(): (c: string)
      reads this
      ensures Valid() && pages != [] ==> c == pages[currentPage]
      ensures pages == [] ==> c == ""
    {
      ContentAt(pages, currentPage)
    }

    /** `goToPrev`. */
    method GoToPrev()
      requires Valid()
      modifies this
      ensures pages == old(pages) && currentPage == PrevIndex(old(currentPage))
      ensures Valid()
    {
      currentPage := Max(0, currentPage - 1);
    }

    /** `goToNext`; with no pages it leaves the index at -1, outside the pages. */
    method GoToNext()
      requires Valid()
      modifies this
      ensures pages == old(pages) && currentPage == NextIndex(|pages|, old(currentPage))
      ensures |pages| >= 1 ==> Valid()
    {
      currentPage := Min(|pages| - 1, currentPage + 1);
    }

    /** A click on the Prev button, which does nothing while it is disabled. */
    method PressPrev()
      requires Valid()
      modifies this
      ensures pages == old(pages) && Valid()
      ensures currentPage == if PrevDisabled(|pages|, old(currentPage)) then old(currentPage)
                             else old(currentPage) - 1
    {
      if !PrevDisabled(|pages|, currentPage) {
        GoToPrev();
      }
    }

    /** A click on the Next button, which does nothing while it is disabled; it keeps the
        index valid even when there are no pages. */
    method PressNext()
      requires Valid()
      modifies this
      ensures pages == old(pages) && Valid()
      ensures currentPage == if NextDisabled(|pages|, old(currentPage)) then old(currentPage)
                             else old(currentPage) + 1
    {
      if !NextDisabled(|pages|, currentPage) {
        GoToNext();
      }
    }

    /** New pages arrive: the effect on `[pages]` sets the index back to 0. */
    method SetPages(newPages: seq<string>)
      modifies this
      ensures pages == newPages && currentPage == 0 && Valid()
      ensures Content() == if newPages == [] then "" else newPages[0]
    {
      pages := newPages;
      currentPage := 0;
    }
  }
}
