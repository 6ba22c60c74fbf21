/**
 * The pagination engine of `AutoPaginated`: a text is cut into pages, each the longest
 * slice (found by binary search) whose formatted rendering fits the viewport's height,
 * snapped back to the last natural break among its final 40 characters.
 *
 * The hidden DOM measurer is replaced by a `Surface`: a deterministic `measure` from a
 * formatted string to its rendered height, and the viewport's `available` height. A
 * missing viewport or measurer element is `None`. `setPages` becomes the returned pages.
 */
module AutoPaginated {
  import opened Wrappers
  import opened Numeric
  import Helpers

  /** The `BREAK` set of `naturalBreak`: space, newline, ASCII and full-width sentence and
      clause punctuation, and closing brackets and quotes. */
  predicate IsBreak(c: char) {
    || c == ' ' || c == '\n' || c == ',' || c == '.' || c == ';' || c == ':' || c == '!' || c == '?'
    || c == '\U{FF0C}' || c == '\U{3002}' || c == '\U{FF1B}' || c == '\U{FF01}' || c == '\U{FF1F}'
    || c == '\U{3001}' || c == ']' || c == ')' || c == '\U{3011}' || c == '\U{300B}' || c == '\U{BB}'
  }

  /** How far back from a page's end `naturalBreak` looks for a break. */
  const BreakWindow: nat := 40

  /** `r` is where `naturalBreak(src, start, end)` snaps `end` back to: inside the range,
      within the final 40 characters of a non-empty range, and either `end` itself or just
      after a break character of that window with no break character after it. */
  predicate SnapsTo(src: string, start: nat, end: nat, r: nat) {
    && start <= r <= end <= |src|
    && (start < end ==> start < r && end - BreakWindow < r)
    && (r == end || (Max(start, end - BreakWindow) < r && IsBreak(src[r - 1])))
    && forall k :: Max(start, end - BreakWindow) <= k < end && IsBreak(src[k]) ==>
         k < r && IsBreak(src[r - 1])
  }

  /** `naturalBreak(src, start, end)`: the position just after the last break character
      among the final 40 characters of `src[start..end]`, or `end` when there is none. */
  method NaturalBreak(src: string, start: nat, end: nat) returns (r: nat)
    requires start <= end <= |src|
    ensures SnapsTo(src, start, end, r)
  {
    var windowText := src[start..end];
    var i: int := |windowText| - 1;
    while i >= Max(0, |windowText| - BreakWindow)
      invariant Max(0, |windowText| - BreakWindow) - 1 <= i < |windowText|
      invariant forall k :: i < k < |windowText| ==> !IsBreak(windowText[k])
      decreases i
    {
      if IsBreak(windowText[i]) {
        r := start + i + 1;
        assert src[r - 1] == windowText[i];
        forall k | Max(start, end - BreakWindow) <= k < end && IsBreak(src[k]) ensures k < r {
          assert src[k] == windowText[k - start];
        }
        return;
      }
      i := i - 1;
    }
    forall k | Max(start, end - BreakWindow) <= k < end ensures !IsBreak(src[k]) {
      assert src[k] == windowText[k - start];
    }
    return end;
  }

  /** The measuring environment: the height of a formatted string, and the height the
      viewport has room for. */
  datatype Surface = Surface(measure: string -> int, available: int)

  /** The formatter the display will use: `formatHtml` for marked-up text, which puts no
      raw newline in the markup, otherwise `formatProblemText`, which leaves no Markdown
      mark and no blank-line run; an empty slice formats to the empty string either way. */
  function Format(isHtml: bool, slice: string): (r: string)
    ensures isHtml ==> '\n' !in r
    ensures !isHtml ==> Helpers.Unmarked(r) && !Helpers.HasBlankRun(r)
    ensures slice == "" ==> r == ""
  {
    if isHtml then Helpers.FormatHtml(Some(slice)) else Helpers.FormatProblemText(Some(slice))
  }

  /** What the page loop measures a slice against: the height a slice renders to, and the
      room the viewport has. */
  datatype Gauge = Gauge(height: string -> int, room: int)

  /** The gauge of a surface: a slice is formatted as the display will show it, then
      measured. */
  function GaugeOf(surface: Surface, isHtml: bool): Gauge {
    Gauge(slice => surface.measure(Format(isHtml, slice)), surface.available)
  }

  /** `slice` renders within the viewport (`h <= available`). */
  predicate Fits(g: Gauge, slice: string) {
    g.height(slice) <= g.room
  }

  /** Rendering more of the text from `p` on never takes less height: the assumption under
      which the binary search from `p` finds the longest fitting slice. Only the slices the
      search can probe are constrained. */
  ghost predicate MonotoneAt(g: Gauge, full: string, p: nat) {
    forall a: nat, b: nat :: p <= a <= b <= |full| ==> g.height(full[p..a]) <= g.height(full[p..b])
  }

  /** Slices from every start render monotonically. */
  ghost predicate MonotoneOn(g: Gauge, full: string) {
    forall p: nat :: p <= |full| ==> MonotoneAt(g, full, p)
  }

  /** Rendering more text never takes less height, for any text at all. */
  ghost predicate Monotone(g: Gauge) {
    forall a: string, b: string :: a <= b ==> g.height(a) <= g.height(b)
  }

  /** A shorter slice from the same start is a prefix of a longer one. */
  lemma SlicePrefix(full: string, pos: nat, a: nat, b: nat)
    requires pos <= a <= b <= |full|
    ensures full[pos..a] <= full[pos..b]
  {
    assert full[pos..b][..a - pos] == full[pos..a];
  }

  /** A measure monotone on all strings is monotone on the slices of any text. */
  lemma MonotoneSlices(g: Gauge, full: string)
    requires Monotone(g)
    ensures MonotoneOn(g, full)
  {
    forall p: nat, a: nat, b: nat | p <= a <= b <= |full|
      ensures g.height(full[p..a]) <= g.height(full[p..b])
    {
      SlicePrefix(full, p, a, b);
    }
  }

  /** Under a measure monotone from `pos`, a slice that fits makes every shorter slice from
      the same start fit. */
  lemma FitsShorter(g: Gauge, full: string, pos: nat, a: nat, b: nat)
    requires MonotoneAt(g, full, pos)
    requires pos <= a <= b <= |full|
    requires Fits(g, full[pos..b])
    ensures Fits(g, full[pos..a])
  {
  }

  /** `e` is an end the binary search of `paginate` may settle on for a page starting at
      `p`: it lies in `p + 1 ..|full|` and is only above `p + 1` for a slice that fits;
      under a monotone measure it is the longest fitting end (or `p + 1` when not even one
      character fits). */
  ghost predicate SearchEnd(g: Gauge, full: string, p: nat, e: nat) {
    && p < e <= |full|
    && (e > p + 1 ==> Fits(g, full[p..e]))
    && (MonotoneAt(g, full, p) ==>
          && (Fits(g, full[p..p + 1]) ==> Fits(g, full[p..e]))
          && forall e' :: e < e' <= |full| ==> !Fits(g, full[p..e']))
  }

  /** The binary search of `paginate` for one page starting at `pos`, measuring each probe
      with the gauge. */
  method LargestFit(full: string, pos: nat, g: Gauge) returns (best: nat)
    requires pos < |full|
    ensures SearchEnd(g, full, pos, best)
  {
    var low, high := pos + 1, |full|;
    best := pos + 1;
    while low <= high
      invariant pos + 1 <= low <= high + 1 <= |full| + 1
      invariant pos + 1 <= best <= low && best <= |full|
      invariant best > pos + 1 ==> Fits(g, full[pos..best])
      invariant low > pos + 1 ==> best == low - 1 && Fits(g, full[pos..best])
      invariant MonotoneAt(g, full, pos) ==>
                  forall e :: high < e <= |full| ==> !Fits(g, full[pos..e])
      decreases high + 1 - low
    {
      var mid := (low + high) / 2;
      var slice := full[pos..mid];
      var h := g.height(slice);
      // best only ever grows: every probe lies at or above it.
      assert best <= mid;
      if h <= g.room {
        best := mid;
        low := mid + 1;
      } else {
        if MonotoneAt(g, full, pos) {
          forall e | mid <= e <= |full| ensures !Fits(g, full[pos..e]) {
            if Fits(g, full[pos..e]) {
              FitsShorter(g, full, pos, mid, e);
            }
          }
        }
        high := mid - 1;
      }
    }
  }

  /** A page may run from `p` to `q`: `q` is the snap of an end the search may settle on. */
  ghost predicate PageFrom(g: Gauge, full: string, p: nat, q: nat) {
    exists e: nat :: SearchEnd(g, full, p, e) && SnapsTo(full, p, e, q)
  }

  /** One page of `paginate` starting at `pos`: search for the end, fall back to 50
      characters when the search found none, and snap back to a natural break. The page
      is never empty, and under a monotone measure it fits unless it is one character. */
  method NextPageEnd(full: string, pos: nat, g: Gauge) returns (safeEnd: nat)
    requires pos < |full|
    ensures pos < safeEnd <= |full|
    ensures PageFrom(g, full, pos, safeEnd)
    ensures MonotoneAt(g, full, pos) && safeEnd - pos > 1 ==> Fits(g, full[pos..safeEnd])
  {
    var best: int := LargestFit(full, pos, g);
    // The fallback below cannot fire: the search never settles below pos + 1.
    if best <= pos {
      best := Min(pos + 50, |full|);
    }
    assert SearchEnd(g, full, pos, best);
    safeEnd := NaturalBreak(full, pos, best);
    if MonotoneAt(g, full, pos) && safeEnd - pos > 1 {
      FitsShorter(g, full, pos, safeEnd, best);
    }
  }

  /** The pages, concatenated in order. */
  function Concat(pages: seq<string>): string
    decreases |pages|
  {
    if pages == [] then "" else Concat(pages[..|pages| - 1]) + pages[|pages| - 1]
  }

  /** Where page `i` starts in the text: the length of the pages before it. */
  function Start(pages: seq<string>, i: nat): nat
    requires i <= |pages|
  {
    |Concat(pages[..i])|
  }

  /** Appending a page leaves the earlier pages' starts where they were. */
  lemma StartAppend(pages: seq<string>, page: string, i: nat)
    requires i <= |pages|
    ensures Start(pages + [page], i) == Start(pages, i)
  {
    assert (pages + [page])[..i] == pages[..i];
  }

  /** Page `i` is a page `paginate` may emit: non-empty, ending at the snap of a search end
      from its start, and fitting under a monotone measure unless it is one character. */
  ghost predicate PageOk(g: Gauge, full: string, pages: seq<string>, i: nat)
    requires i < |pages|
  {
    && pages[i] != ""
    && PageFrom(g, full, Start(pages, i), Start(pages, i) + |pages[i]|)
    && (MonotoneAt(g, full, Start(pages, i)) ==> |pages[i]| <= 1 || Fits(g, pages[i]))
  }

  /** Appending a page keeps each earlier page a page `paginate` may emit. */
  lemma PageOkAppend(g: Gauge, full: string, pages: seq<string>, page: string, i: nat)
    requires i < |pages| && PageOk(g, full, pages, i)
    ensures PageOk(g, full, pages + [page], i)
  {
    StartAppend(pages, page, i);
    StartAppend(pages, page, i + 1);
    assert (pages + [page])[i] == pages[i];
  }

  /** Appending a page appends its text to the concatenation. */
  lemma ConcatAppend(pages: seq<string>, page: string)
    ensures Concat(pages + [page]) == Concat(pages) + page
  {
    assert (pages + [page])[..|pages|] == pages;
  }

  /** An appended page starts where the earlier pages end. */
  lemma StartLast(pages: seq<string>, page: string)
    ensures Start(pages + [page], |pages|) == |Concat(pages)|
    ensures (pages + [page])[|pages|] == page
  {
    assert (pages + [page])[..|pages|] == pages;
  }

  /** Page `i` is a page `paginate` may emit once it is known to be the slice
      `full[p..q]` starting at `p`. */
  lemma PageOkAt(g: Gauge, full: string, pages: seq<string>, i: nat, p: nat, q: nat)
    requires p < q <= |full|
    requires i < |pages| && Start(pages, i) == p && pages[i] == full[p..q]
    requires PageFrom(g, full, p, q)
    requires MonotoneAt(g, full, p) && q - p > 1 ==> Fits(g, full[p..q])
    ensures PageOk(g, full, pages, i)
  {
    assert p + |pages[i]| == q;
  }

  /** Two adjacent slices of `full` from its start make one. */
  lemma SliceJoin(full: string, pos: nat, end: nat)
    requires pos <= end <= |full|
    ensures full[..pos] + full[pos..end] == full[..end]
  {
  }

  /** The page `full[pos..safeEnd]` appended to pages that concatenate to `full[..pos]` is
      a page `paginate` may emit. */
  lemma PageOkLast(g: Gauge, full: string, pages: seq<string>, pos: nat, safeEnd: nat)
    requires pos < safeEnd <= |full| && Concat(pages) == full[..pos]
    requires PageFrom(g, full, pos, safeEnd)
    requires MonotoneAt(g, full, pos) && safeEnd - pos > 1 ==> Fits(g, full[pos..safeEnd])
    ensures Concat(pages + [full[pos..safeEnd]]) == full[..safeEnd]
    ensures PageOk(g, full, pages + [full[pos..safeEnd]], |pages|)
  {
    var page := full[pos..safeEnd];
    ConcatAppend(pages, page);
    SliceJoin(full, pos, safeEnd);
    StartLast(pages, page);
    assert |Concat(pages)| == pos;
    PageOkAt(g, full, pages + [page], |pages|, pos, safeEnd);
  }

  /** Appending the page `full[pos..safeEnd]` to pages that concatenate to `full[..pos]`,
      each a page `paginate` may emit, keeps both facts up to `safeEnd`. */
  lemma PagesExtend(g: Gauge, full: string, pages: seq<string>, pos: nat, safeEnd: nat)
    requires pos < safeEnd <= |full| && Concat(pages) == full[..pos]
    requires forall i :: 0 <= i < |pages| ==> PageOk(g, full, pages, i)
    requires PageFrom(g, full, pos, safeEnd)
    requires MonotoneAt(g, full, pos) && safeEnd - pos > 1 ==> Fits(g, full[pos..safeEnd])
    ensures Concat(pages + [full[pos..safeEnd]]) == full[..safeEnd]
    ensures forall i :: 0 <= i < |pages| + 1 ==> PageOk(g, full, pages + [full[pos..safeEnd]], i)
  {
    var page := full[pos..safeEnd];
    PageOkLast(g, full, pages, pos, safeEnd);
    forall i | 0 <= i < |pages| ensures PageOk(g, full, pages + [page], i) {
      PageOkAppend(g, full, pages, page, i);
    }
  }

  /** Under a gauge monotone on the slices of `full`, pages `paginate` may emit fit unless
      they are one character. */
  lemma PagesFit(g: Gauge, full: string, pages: seq<string>)
    requires forall i :: 0 <= i < |pages| ==> PageOk(g, full, pages, i)
    ensures MonotoneOn(g, full) ==> forall i :: 0 <= i < |pages| ==> |pages[i]| <= 1 || Fits(g, pages[i])
  {
    forall i | 0 <= i < |pages| ensures |pages[i]| <= 1 || !MonotoneOn(g, full) || Fits(g, pages[i]) {
      assert PageOk(g, full, pages, i);
    }
  }

  /** The page loop of `paginate`: pages are cut from the front of `full` until none of
      it is left. The pages concatenate to `full`, each one is non-empty and ends at the
      snap of a search end from its start, and under a monotone gauge each fits unless it
      is one character. */
  method PageLoop(full: string, g: Gauge) returns (result: seq<string>)
    ensures Concat(result) == full
    ensures |result| <= |full|
    ensures full == "" <==> result == []
    ensures forall i :: 0 <= i < |result| ==> PageOk(g, full, result, i)
    ensures MonotoneOn(g, full) ==> forall i :: 0 <= i < |result| ==> |result[i]| <= 1 || Fits(g, result[i])
  {
    result := [];
    var pos: nat := 0;
    while pos < |full|
      invariant pos <= |full|
      invariant Concat(result) == full[..pos]
      invariant |result| <= pos
      invariant pos > 0 ==> result != []
      invariant forall i :: 0 <= i < |result| ==> PageOk(g, full, result, i)
      decreases |full| - pos
    {
      var safeEnd := NextPageEnd(full, pos, g);
      PagesExtend(g, full, result, pos, safeEnd);
      result := result + [full[pos..safeEnd]];
      pos := safeEnd;
    }
    assert full[..pos] == full;
    PagesFit(g, full, result);
  }

  /** `paginate()`: the text (`text || ''`) cut into pages that concatenate back to it.
      Every page of a non-empty text is non-empty, so there are at most as many pages as
      characters, and each page ends at the natural-break snap of an end the binary search
      settles on from the page's start; an empty text gives the one page `""`, and a
      missing measuring environment gives the whole text as one page. Each probe is
      measured formatted as the display will show it; under a monotone measure every page
      fits the viewport unless it is a single character (`MonotoneSlices` gives that
      hypothesis from monotonicity on all strings). */
  method Paginate(text: Option<string>, isHtml: bool, surface: Option<Surface>) returns (pages: seq<string>)
    ensures |pages| >= 1
    ensures Concat(pages) == text.GetOr("")
    ensures text.GetOr("") == "" ==> pages == [""]
    ensures surface.None? ==> pages == [text.GetOr("")]
    ensures surface.Some? && text.GetOr("") != "" ==>
              && |pages| <= |text.GetOr("")|
              && forall i :: 0 <= i < |pages| ==> PageOk(GaugeOf(surface.value, isHtml), text.GetOr(""), pages, i)
    ensures surface.Some? && MonotoneOn(GaugeOf(surface.value, isHtml), text.GetOr("")) ==>
              forall i :: 0 <= i < |pages| ==> |pages[i]| <= 1 || Fits(GaugeOf(surface.value, isHtml), pages[i])
  {
    var full := text.GetOr("");
    if surface.None? {
      return [full];
    }
    var result := PageLoop(full, GaugeOf(surface.value, isHtml));
    pages := if |result| > 0 then result else [full];
  }
}
