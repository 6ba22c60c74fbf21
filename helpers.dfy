/**
 * The text formatters and logic helpers of the practice UI: `formatProblemText` (plain-text
 * display: markdown marks removed, blank-line runs collapsed), `formatHtml` (marked-up
 * display: bold pairs stripped, blank lines dropped, lines joined by `<br />`),
 * `canSubmitGuard` and `cycleOption`, with the option lists they are used with.
 *
 * JavaScript's `null`/`undefined` arguments are `None`; `Some("")` is the empty string.
 *
 * The unit tests' examples are proved from the general lemmas. The `...Pieces` and
 * `ComplexInputJoin` lemmas next to them only split the tests' string literals into the
 * pieces those general lemmas take, because the solver does not split long literals on
 * its own; they state nothing about the helpers.
 */
module Helpers {
  import opened Wrappers
  import opened JsString

  /** JavaScript truthiness of a string-or-missing argument (`!s` is false). */
  predicate Truthy(s: Option<string>) {
    s.Some? && s.value != ""
  }

  // ---------------------------------------------------------------------------------
  // formatProblemText
  // ---------------------------------------------------------------------------------

  /** The characters the class `[\*`]` removes. */
  predicate IsMark(c: char) {
    c == '*' || c == '`'
  }

  /** `s` holds no `*` and no backtick. */
  predicate Unmarked(s: string) {
    forall i :: 0 <= i < |s| ==> !IsMark(s[i])
  }

  /** `s` is nothing but `*` and backticks. */
  predicate AllMarks(s: string) {
    forall i :: 0 <= i < |s| ==> IsMark(s[i])
  }

  /** `.replace(/[\*`]/g, '')`: every `*` and backtick deleted, everything else kept. */
  function StripMarks(s: string): (r: string)
    ensures Unmarked(r)
    ensures |r| <= |s|
    decreases |s|
  {
    if s == "" then "" else (if IsMark(s[0]) then "" else [s[0]]) + StripMarks(s[1..])
  }

  /** Mark removal only deletes: every character of its result is a character of `s`. */
  lemma {:induction false} StripMarksFrom(s: string)
    ensures forall c :: c in StripMarks(s) ==> c in s
    decreases |s|
  {
    if s != "" {
      StripMarksFrom(s[1..]);
      assert forall c :: c in s[1..] ==> c in s;
    }
  }

  /** Removing marks works character by character: it distributes over concatenation. */
  lemma {:induction false} StripMarksAppend(a: string, b: string)
    ensures StripMarks(a + b) == StripMarks(a) + StripMarks(b)
    decreases |a|
  {
    if a != "" {
      assert (a + b)[0] == a[0] && (a + b)[1..] == a[1..] + b;
      StripMarksAppend(a[1..], b);
    } else {
      assert a + b == b;
    }
  }

  /** A string without marks passes through unchanged. */
  lemma {:induction false} StripMarksUnmarked(s: string)
    requires Unmarked(s)
    ensures StripMarks(s) == s
    decreases |s|
  {
    if s != "" {
      StripMarksUnmarked(s[1..]);
    }
  }

  /** The longest prefix of `s` that is all whitespace: what a greedy `\s*` consumes. */
  function LeadingSpace(s: string): (r: string)
    ensures |r| <= |s|
    ensures |r| < |s| ==> !IsSpace(s[|r|])
    decreases |s|
  {
    if s != "" && IsSpace(s[0]) then [s[0]] + LeadingSpace(s[1..]) else ""
  }

  /** The leading whitespace is whitespace throughout. */
  lemma {:induction false} LeadingSpaceAllSpace(s: string)
    ensures AllSpace(LeadingSpace(s))
    decreases |s|
  {
    if s != "" && IsSpace(s[0]) {
      LeadingSpaceAllSpace(s[1..]);
      var t := LeadingSpace(s[1..]);
      forall i | 0 <= i < |t| + 1 ensures IsSpace(([s[0]] + t)[i]) {
        if i > 0 { assert ([s[0]] + t)[i] == t[i - 1]; }
      }
    }
  }

  /** The leading whitespace is a prefix of `s`. */
  lemma {:induction false} LeadingSpacePrefix(s: string)
    ensures LeadingSpace(s) == s[..|LeadingSpace(s)|]
    decreases |s|
  {
    if s != "" && IsSpace(s[0]) {
      LeadingSpacePrefix(s[1..]);
      assert s[..|LeadingSpace(s)|] == [s[0]] + s[1..][..|LeadingSpace(s[1..])|];
    }
  }

  /** Dropping part of the leading whitespace leaves the rest of it leading. */
  lemma {:induction false} LeadingSpaceDrop(u: string, m: nat)
    requires m <= |LeadingSpace(u)|
    ensures LeadingSpace(u[m..]) == LeadingSpace(u)[m..]
    decreases m
  {
    if m > 0 {
      assert u[0] == LeadingSpace(u)[0];
      assert u[m..] == u[1..][m - 1..];
      LeadingSpaceDrop(u[1..], m - 1);
    }
  }

  /** `s.lastIndexOf(c)`: the last position of `c`, or -1. */
  function LastIndexOf(s: string, c: char): (r: int)
    ensures -1 <= r < |s|
    ensures r >= 0 ==> s[r] == c
    decreases |s|
  {
    if s == "" then -1 else if s[|s| - 1] == c then |s| - 1 else LastIndexOf(s[..|s| - 1], c)
  }

  /** No `c` follows the position `lastIndexOf` returns. */
  lemma {:induction false} LastIndexOfLast(s: string, c: char)
    ensures forall i :: LastIndexOf(s, c) < i < |s| ==> s[i] != c
    decreases |s|
  {
    if s != "" && s[|s| - 1] != c {
      LastIndexOfLast(s[..|s| - 1], c);
    }
  }

  /** `.replace(/\n\s*\n/g, '\n')`. At a newline the greedy `\s*` takes the whole
      whitespace run that follows and backs off to its last newline; if the run holds a
      newline, everything from the first newline to that last one becomes one `\n` and the
      scan resumes after it, otherwise the newline is kept and the scan moves on. */
  function CollapseBlankLines(s: string): (r: string)
    ensures |r| <= |s|
    decreases |s|
  {
    if s == "" then ""
    else
      var k := LastIndexOf(LeadingSpace(s[1..]), '\n');
      if s[0] == '\n' && k >= 0 then "\n" + CollapseBlankLines(s[k + 2..])
      else [s[0]] + CollapseBlankLines(s[1..])
  }

  /** The collapse only deletes: every character of its result is a character of `s`. */
  lemma {:induction false} CollapseFrom(s: string)
    ensures forall c :: c in CollapseBlankLines(s) ==> c in s
    decreases |s|
  {
    if s != "" {
      var k := LastIndexOf(LeadingSpace(s[1..]), '\n');
      if s[0] == '\n' && k >= 0 {
        CollapseFrom(s[k + 2..]);
        assert forall c :: c in s[k + 2..] ==> c in s;
      } else {
        CollapseFrom(s[1..]);
        assert forall c :: c in s[1..] ==> c in s;
      }
    }
  }

  /** `t` holds a newline, then only whitespace, then another newline: a match of
      `\n\s*\n`. */
  ghost predicate HasBlankRun(t: string) {
    exists i, j :: BlankRunAt(t, i, j)
  }

  /** `t[i..j + 1]` is a newline, only whitespace, and another newline. */
  predicate BlankRunAt(t: string, i: int, j: int) {
    0 <= i < j < |t| && t[i] == '\n' && t[j] == '\n' && AllSpace(t[i + 1..j])
  }

  /** A blank run in a suffix is a blank run of the whole. */
  lemma SuffixBlankRun(c: char, u: string)
    requires HasBlankRun(u)
    ensures HasBlankRun([c] + u)
  {
    var i, j :| BlankRunAt(u, i, j);
    ShiftBlankRun(c, u, i, j);
  }

  /** A blank run of `u` is the same run, one place on, of `[c] + u`. */
  lemma ShiftBlankRun(c: char, u: string, i: int, j: int)
    requires 0 <= i < j < |u|
    ensures BlankRunAt([c] + u, i + 1, j + 1) == BlankRunAt(u, i, j)
  {
    var t := [c] + u;
    assert t[i + 1] == u[i] && t[j + 1] == u[j];
    assert t[i + 2..j + 1] == u[i + 1..j];
  }

  /** Putting `c` in front of a string without blank runs creates none, unless `c` is a
      newline and the string's leading whitespace holds a newline. */
  lemma ConsNoBlankRun(c: char, u: string)
    requires !HasBlankRun(u)
    requires c == '\n' ==> '\n' !in LeadingSpace(u)
    ensures !HasBlankRun([c] + u)
  {
    var t := [c] + u;
    forall i, j | 0 <= i < j < |t| ensures !BlankRunAt(t, i, j) {
      if i > 0 {
        ShiftBlankRun(c, u, i - 1, j - 1);
      } else if BlankRunAt(t, i, j) {
        var w := u[..j];
        forall k | 0 <= k < |w| ensures IsSpace(w[k]) {
          if k < j - 1 { assert w[k] == t[1..j][k]; } else { assert w[k] == t[j]; }
        }
        LeadingSpaceCovers(u, j);
        LeadingSpacePrefix(u);
        assert false;
      }
    }
  }

  /** A whitespace prefix of length `m` lies inside the leading whitespace. */
  lemma LeadingSpaceCovers(u: string, m: nat)
    requires m <= |u| && AllSpace(u[..m])
    ensures |LeadingSpace(u)| >= m
  {
  }

  /** Collapsing keeps a newline-free leading whitespace run newline-free. */
  lemma {:induction false} CollapseKeepsLead(s: string)
    requires '\n' !in LeadingSpace(s)
    ensures '\n' !in LeadingSpace(CollapseBlankLines(s))
    decreases |s|
  {
    if s != "" && IsSpace(s[0]) {
      assert s[0] != '\n' by { assert LeadingSpace(s)[0] == s[0]; }
      assert LeadingSpace(s) == [s[0]] + LeadingSpace(s[1..]);
      CollapseKeepsLead(s[1..]);
      var r := CollapseBlankLines(s);
      assert r == [s[0]] + CollapseBlankLines(s[1..]);
      assert r[1..] == CollapseBlankLines(s[1..]);
    }
  }

  /** The collapse leaves no newline–whitespace–newline run behind. */
  lemma {:induction false} CollapseNoBlankRun(s: string)
    ensures !HasBlankRun(CollapseBlankLines(s))
    decreases |s|
  {
    if s != "" {
      var lead := LeadingSpace(s[1..]);
      var k := LastIndexOf(lead, '\n');
      if s[0] == '\n' && k >= 0 {
        CollapseNoBlankRun(s[k + 2..]);
        CollapseMatchStep(s);
      } else {
        CollapseNoBlankRun(s[1..]);
        if s[0] == '\n' {
          LastIndexOfLast(lead, '\n');
          CollapseKeepsLead(s[1..]);
        }
        CollapseKeep(s, k);
        ConsNoBlankRun(s[0], CollapseBlankLines(s[1..]));
      }
    }
  }

  /** The step of `CollapseNoBlankRun` where a blank run is replaced by one newline. */
  lemma CollapseMatchStep(s: string)
    requires s != "" && s[0] == '\n'
    requires LastIndexOf(LeadingSpace(s[1..]), '\n') >= 0
    requires !HasBlankRun(CollapseBlankLines(s[LastIndexOf(LeadingSpace(s[1..]), '\n') + 2..]))
    ensures !HasBlankRun(CollapseBlankLines(s))
  {
    var lead := LeadingSpace(s[1..]);
    var k := LastIndexOf(lead, '\n');
    var rest := s[k + 2..];
    CollapseJump(s, k);
    LeadAfterRun(s[1..], k);
    assert rest == s[1..][k + 1..];
    CollapseKeepsLead(rest);
    ConsNoBlankRun('\n', CollapseBlankLines(rest));
  }

  /** Past the last newline of the leading whitespace, the leading whitespace holds no
      newline. */
  lemma LeadAfterRun(u: string, k: int)
    requires k == LastIndexOf(LeadingSpace(u), '\n') && k >= 0
    ensures '\n' !in LeadingSpace(u[k + 1..])
  {
    var lead := LeadingSpace(u);
    var v := u[k + 1..];
    LeadingSpaceDrop(u, k + 1);
    LastIndexOfLast(lead, '\n');
    forall i | 0 <= i < |LeadingSpace(v)| ensures LeadingSpace(v)[i] != '\n' {
      assert LeadingSpace(v)[i] == lead[k + 1 + i];
    }
  }

  /** Text without blank runs is left exactly as it is. */
  lemma {:induction false} CollapseIdentity(s: string)
    requires !HasBlankRun(s)
    ensures CollapseBlankLines(s) == s
    decreases |s|
  {
    if s != "" {
      if s[0] == '\n' {
        NoBlankRunNoMatch(s);
      }
      assert [s[0]] + s[1..] == s;
      if HasBlankRun(s[1..]) {
        SuffixBlankRun(s[0], s[1..]);
      }
      CollapseIdentity(s[1..]);
      assert CollapseBlankLines(s) == [s[0]] + s[1..];
    }
  }

  /** Without blank runs, the whitespace after a leading newline holds no newline. */
  lemma NoBlankRunNoMatch(s: string)
    requires s != "" && s[0] == '\n' && !HasBlankRun(s)
    ensures LastIndexOf(LeadingSpace(s[1..]), '\n') < 0
  {
    MatchIsBlankRun(s);
  }

  /** A newline whose following whitespace holds a newline starts a blank run that ends
      at the last such newline. */
  lemma MatchIsBlankRun(s: string)
    requires s != "" && s[0] == '\n'
    ensures var m := LastIndexOf(LeadingSpace(s[1..]), '\n');
            m >= 0 ==> BlankRunAt(s, 0, m + 1)
  {
    var lead := LeadingSpace(s[1..]);
    var m := LastIndexOf(lead, '\n');
    if m >= 0 {
      LeadingSpacePrefix(s[1..]);
      LeadingSpaceAllSpace(s[1..]);
      assert s[1..][..m + 1] == lead[..m + 1];
      assert s[m + 1] == '\n' && s[1..m + 1] == lead[..m];
    }
  }

  /** The non-whitespace characters of `s`, in order. */
  function NonSpace(s: string): string
    decreases |s|
  {
    if s == "" then "" else (if IsSpace(s[0]) then "" else [s[0]]) + NonSpace(s[1..])
  }

  /** Skipping a whitespace prefix does not change the non-whitespace characters. */
  lemma {:induction false} NonSpaceSkip(u: string, m: nat)
    requires m <= |u| && AllSpace(u[..m])
    ensures NonSpace(u) == NonSpace(u[m..])
    decreases m
  {
    if m > 0 {
      assert IsSpace(u[..m][0]);
      assert u[m..] == u[1..][m - 1..];
      var w := u[1..][..m - 1];
      forall i | 0 <= i < |w| ensures IsSpace(w[i]) {
        assert w[i] == u[..m][i + 1];
      }
      NonSpaceSkip(u[1..], m - 1);
    }
  }

  /** `NonSpace` of a string with one more character in front. */
  lemma NonSpaceCons(c: char, t: string)
    ensures NonSpace([c] + t) == (if IsSpace(c) then "" else [c]) + NonSpace(t)
  {
    assert ([c] + t)[1..] == t;
  }

  /** A step of the collapse at a newline whose following whitespace holds a newline, the
      last one at `k`: the run becomes one newline and the scan resumes after it. */
  lemma CollapseJump(s: string, k: int)
    requires s != "" && k == LastIndexOf(LeadingSpace(s[1..]), '\n')
    requires s[0] == '\n' && k >= 0
    ensures CollapseBlankLines(s) == "\n" + CollapseBlankLines(s[k + 2..])
  {
    assert k + 2 <= |s|;
  }

  /** A step of the collapse anywhere else: the character is kept. */
  lemma CollapseKeep(s: string, k: int)
    requires s != "" && k == LastIndexOf(LeadingSpace(s[1..]), '\n')
    requires s[0] != '\n' || k < 0
    ensures CollapseBlankLines(s) == [s[0]] + CollapseBlankLines(s[1..])
  {
  }

  /** Skipping part of the leading whitespace keeps the non-whitespace characters. */
  lemma NonSpaceAfterLead(u: string, m: nat)
    requires m <= |LeadingSpace(u)|
    ensures NonSpace(u) == NonSpace(u[m..])
  {
    var lead := LeadingSpace(u);
    LeadingSpacePrefix(u);
    LeadingSpaceAllSpace(u);
    forall i | 0 <= i < m ensures IsSpace(u[..m][i]) {
      assert u[..m][i] == lead[i];
    }
    NonSpaceSkip(u, m);
  }

  /** The collapse removes whitespace only. */
  lemma {:induction false} CollapseKeepsNonSpace(s: string)
    ensures NonSpace(CollapseBlankLines(s)) == NonSpace(s)
    decreases |s|
  {
    if s != "" {
      var lead := LeadingSpace(s[1..]);
      var k := LastIndexOf(lead, '\n');
      assert s == [s[0]] + s[1..];
      NonSpaceCons(s[0], s[1..]);
      if s[0] == '\n' && k >= 0 {
        var rest := s[k + 2..];
        CollapseJump(s, k);
        NonSpaceCons('\n', CollapseBlankLines(rest));
        CollapseKeepsNonSpace(rest);
        NonSpaceAfterLead(s[1..], k + 1);
        assert s[1..][k + 1..] == rest;
      } else {
        CollapseKeep(s, k);
        NonSpaceCons(s[0], CollapseBlankLines(s[1..]));
        CollapseKeepsNonSpace(s[1..]);
      }
    }
  }

  /** Whitespace in front of a string is part of its leading whitespace. */
  lemma {:induction false} LeadingSpaceAppend(w: string, rest: string)
    requires AllSpace(w)
    ensures LeadingSpace(w + rest) == w + LeadingSpace(rest)
    decreases |w|
  {
    if w != "" {
      assert w + rest == [w[0]] + (w[1..] + rest);
      assert IsSpace(w[0]);
      assert AllSpace(w[1..]) by {
        forall i | 0 <= i < |w| - 1 ensures IsSpace(w[1..][i]) {
          assert w[1..][i] == w[i + 1];
        }
      }
      LeadingSpaceCons(w[0], w[1..] + rest);
      LeadingSpaceAppend(w[1..], rest);
      assert w + LeadingSpace(rest) == [w[0]] + (w[1..] + LeadingSpace(rest));
    } else {
      assert w + rest == rest;
    }
  }

  /** A whitespace character in front joins the leading whitespace. */
  lemma LeadingSpaceCons(c: char, t: string)
    requires IsSpace(c)
    ensures LeadingSpace([c] + t) == [c] + LeadingSpace(t)
  {
    assert ([c] + t)[1..] == t;
  }

  /** The last `c` of `x + [c] + u` is the one after `x` when `u` holds no `c`. */
  lemma {:induction false} LastIndexOfAfter(x: string, c: char, u: string)
    requires c !in u
    ensures LastIndexOf(x + [c] + u, c) == |x|
    decreases |u|
  {
    if u != "" {
      var t := x + [c] + u;
      assert t[..|t| - 1] == x + [c] + u[..|u| - 1];
      assert t[|t| - 1] == u[|u| - 1];
      LastIndexOfAfter(x, c, u[..|u| - 1]);
    }
  }

  /** A character other than a newline is copied through the collapse. */
  lemma CollapseCons(c: char, t: string)
    requires c != '\n'
    ensures CollapseBlankLines([c] + t) == [c] + CollapseBlankLines(t)
  {
    assert ([c] + t)[1..] == t;
  }

  /** Text without newlines is copied through the collapse. */
  lemma {:induction false} CollapsePrefix(a: string, b: string)
    requires '\n' !in a
    ensures CollapseBlankLines(a + b) == a + CollapseBlankLines(b)
    decreases |a|
  {
    if a != "" {
      assert a + b == [a[0]] + (a[1..] + b);
      assert '\n' !in a[1..] && a[0] != '\n';
      CollapseCons(a[0], a[1..] + b);
      CollapsePrefix(a[1..], b);
      assert a == [a[0]] + a[1..];
    } else {
      assert a + b == b;
    }
  }

  /** A blank-line run, a newline, whitespace and another newline, becomes exactly one
      newline, when the text after it does not continue the run. */
  lemma CollapseRun(w: string, rest: string)
    requires AllSpace(w) && '\n' !in LeadingSpace(rest)
    ensures CollapseBlankLines("\n" + w + "\n" + rest) == "\n" + CollapseBlankLines(rest)
  {
    var s := "\n" + w + "\n" + rest;
    var w1 := w + "\n";
    var u := w1 + rest;
    assert s == "\n" + u;
    assert s[1..] == u;
    assert AllSpace(w1) by {
      forall i | 0 <= i < |w1| ensures IsSpace(w1[i]) {
        if i < |w| { assert w1[i] == w[i]; }
      }
    }
    LeadingSpaceAppend(w1, rest);
    var lead := LeadingSpace(u);
    assert lead == w + ['\n'] + LeadingSpace(rest);
    LastIndexOfAfter(w, '\n', LeadingSpace(rest));
    CollapseJump(s, |w|);
    assert s[|w| + 2..] == rest;
  }

  /** `formatProblemText(s)`. The result has no `*` or backtick, no newline followed by
      only whitespace and another newline, and the same non-whitespace characters, in the
      same order, as `s` without its marks. */
  function FormatProblemText(s: Option<string>): (r: string)
    ensures !Truthy(s) ==> r == ""
    ensures Unmarked(r)
    ensures !HasBlankRun(r)
    ensures Truthy(s) ==> NonSpace(r) == NonSpace(StripMarks(s.value))
  {
    if !Truthy(s) then ""
    else
      var stripped := StripMarks(s.value);
      CollapseNoBlankRun(stripped);
      CollapseKeepsNonSpace(stripped);
      CollapseFrom(stripped);
      var r := CollapseBlankLines(stripped);
      assert forall i :: 0 <= i < |r| ==> r[i] in stripped;
      r
  }

  /** Text that is already clean (no marks, no blank runs) is displayed as it is. */
  lemma FormatProblemTextClean(s: string)
    requires Unmarked(s)
    requires !HasBlankRun(s)
    ensures FormatProblemText(Some(s)) == s
  {
    StripMarksUnmarked(s);
    CollapseIdentity(s);
  }

  /** Formatting twice is formatting once. */
  lemma FormatProblemTextIdempotent(s: Option<string>)
    ensures FormatProblemText(Some(FormatProblemText(s))) == FormatProblemText(s)
  {
    FormatProblemTextClean(FormatProblemText(s));
  }

  /** A run of marks disappears entirely. */
  lemma {:induction false} StripMarksAllMarks(m: string)
    requires AllMarks(m)
    ensures StripMarks(m) == ""
    decreases |m|
  {
    if m != "" {
      StripMarksAllMarks(m[1..]);
    }
  }

  /** A mark-free word between two copies of a mark run keeps only the word. */
  lemma StripMarksWrapped(m: string, a: string, b: string)
    requires AllMarks(m) && Unmarked(a)
    ensures StripMarks(m + (a + (m + b))) == a + StripMarks(b)
  {
    StripMarksAllMarks(m);
    StripMarksUnmarked(a);
    StripMarksAppend(m, a + (m + b));
    StripMarksAppend(a, m + b);
    StripMarksAppend(m, b);
  }

  /** Plain text, a code word and plain text lose the backticks and nothing else. */
  lemma StripMarksCode(b: string, c: string, d: string)
    requires Unmarked(b) && Unmarked(c) && Unmarked(d)
    ensures StripMarks(b + ("`" + (c + ("`" + d)))) == b + (c + d)
  {
    StripMarksAppend(b, "`" + (c + ("`" + d)));
    StripMarksUnmarked(b);
    StripMarksWrapped("`", c, d);
    StripMarksUnmarked(d);
  }

  /** A bold word in front of text `x` keeps the word and what `x` keeps. */
  lemma StripMarksBold(a: string, x: string, y: string)
    requires Unmarked(a) && StripMarks(x) == y
    ensures StripMarks("**" + (a + ("**" + x))) == a + y
  {
    StripMarksWrapped("**", a, x);
  }

  /** A bold word and a code word among plain text lose their marks and nothing else. */
  lemma StripMarksBoldAndCode(a: string, b: string, c: string, d: string)
    requires Unmarked(a) && Unmarked(b) && Unmarked(c) && Unmarked(d)
    ensures StripMarks("**" + (a + ("**" + (b + ("`" + (c + ("`" + d))))))) == a + (b + (c + d))
  {
    StripMarksCode(b, c, d);
    StripMarksBold(a, b + ("`" + (c + ("`" + d))), b + (c + d));
  }

  /** How the unit tests' first input and its expected output are put together.
      A literal-splitting step for the solver only: it states nothing about the helpers. */
  lemma MarksPieces()
    ensures "**Bold** and `code` text"
            == "**" + ("Bold" + ("**" + (" and " + ("`" + ("code" + ("`" + " text"))))))
    ensures "Bold" + (" and " + ("code" + " text")) == "Bold and code text"
    ensures '\n' !in "Bold and code text"
  {
  }

  /** The mark removal of the unit tests' first input. */
  lemma StripMarksExample()
    ensures StripMarks("**Bold** and `code` text") == "Bold and code text"
  {
    MarksPieces();
    StripMarksBoldAndCode("Bold", " and ", "code", " text");
  }

  /** Text whose marks are its only difference from a single line is shown as that line. */
  lemma FormatProblemTextOneLine(s: string)
    requires s != "" && '\n' !in StripMarks(s)
    ensures FormatProblemText(Some(s)) == StripMarks(s)
  {
    CollapseNoNewline(StripMarks(s));
  }

  /** Text without marks is shown with only its blank-line runs collapsed. */
  lemma FormatProblemTextUnmarked(s: string)
    requires s != "" && Unmarked(s)
    ensures FormatProblemText(Some(s)) == CollapseBlankLines(s)
  {
    StripMarksUnmarked(s);
  }

  /** The unit tests' mark removal: `**Bold** and `code` text` reads `Bold and code text`. */
  lemma FormatProblemTextMarksExample()
    ensures FormatProblemText(Some("**Bold** and `code` text")) == "Bold and code text"
  {
    MarksPieces();
    StripMarksExample();
    FormatProblemTextOneLine("**Bold** and `code` text");
  }

  /** Between two lines, any blank-line run becomes one newline. */
  lemma CollapseBetweenLines(a: string, w: string, b: string)
    requires '\n' !in a && AllSpace(w) && '\n' !in LeadingSpace(b)
    ensures CollapseBlankLines(a + ("\n" + w + "\n" + b)) == a + ("\n" + CollapseBlankLines(b))
  {
    CollapsePrefix(a, "\n" + w + "\n" + b);
    CollapseRun(w, b);
  }

  /** Text without a newline is left as it is by the collapse. */
  lemma CollapseNoNewline(a: string)
    requires '\n' !in a
    ensures CollapseBlankLines(a) == a
  {
    CollapsePrefix(a, "");
    assert a + "" == a;
  }

  /** How the unit tests' second input and its expected output are put together.
      A literal-splitting step for the solver only: it states nothing about the helpers. */
  lemma BlankLinesPieces()
    ensures "Line 1\n\n\nLine 2" == "Line 1" + ("\n" + "\n" + "\n" + "Line 2")
    ensures "Line 1" + ("\n" + "Line 2") == "Line 1\nLine 2"
  {
  }

  /** The blank-line collapse of the unit tests' second input. */
  lemma CollapseBlankLinesExample()
    ensures CollapseBlankLines("Line 1\n\n\nLine 2") == "Line 1\nLine 2"
  {
    BlankLinesPieces();
    assert LeadingSpace("Line 2") == "";
    CollapseBetweenLines("Line 1", "\n", "Line 2");
    CollapseNoNewline("Line 2");
  }

  /** The unit tests' blank lines: `Line 1`, two empty lines, `Line 2` read as two lines. */
  lemma FormatProblemTextBlankLinesExample()
    ensures FormatProblemText(Some("Line 1\n\n\nLine 2")) == "Line 1\nLine 2"
  {
    FormatProblemTextUnmarked("Line 1\n\n\nLine 2");
    CollapseBlankLinesExample();
  }

  /** How the marked pieces of the unit tests' complex input are put together.
      A literal-splitting step for the solver only: it states nothing about the helpers. */
  lemma ComplexInputPieces()
    ensures "**Problem:** `array[i]`"
            == "**" + ("Problem:" + ("**" + (" " + ("`" + ("array[i]" + ("`" + ""))))))
    ensures "**Solution:**" == "**" + ("Solution:" + ("**" + ""))
  {
  }

  /** The complex input as its first line, the blank-line run, the bold `Solution:` and the
      tail, joined from the left.
      A literal-splitting step for the solver only: it states nothing about the helpers. */
  lemma ComplexInputJoin()
    ensures "**Problem:** `array[i]`\n\n\n" == "**Problem:** `array[i]`" + "\n\n\n"
    ensures "**Problem:** `array[i]`\n\n\n**Solution:**"
            == "**Problem:** `array[i]`\n\n\n" + "**Solution:**"
    ensures "**Problem:** `array[i]`\n\n\n**Solution:**\n\nTest"
            == "**Problem:** `array[i]`\n\n\n**Solution:**" + "\n\nTest"
  {
  }

  /** How the text left after the mark removal is put together, piece by piece.
      A literal-splitting step for the solver only: it states nothing about the helpers. */
  lemma ComplexOutputPieces()
    ensures "Problem:" + (" " + ("array[i]" + "")) == "Problem: array[i]"
    ensures "Solution:" + "" == "Solution:"
    ensures "Problem: array[i]\n\n\n" == "Problem: array[i]" + "\n\n\n"
    ensures "Problem: array[i]\n\n\nSolution:" == "Problem: array[i]\n\n\n" + "Solution:"
    ensures "Problem: array[i]\n\n\nSolution:\n\nTest" == "Problem: array[i]\n\n\nSolution:" + "\n\nTest"
  {
  }

  /** The plain pieces of the unit tests' complex input hold no mark.
      A literal-splitting step for the solver only: it states nothing about the helpers. */
  lemma ComplexPlainPieces()
    ensures Unmarked("Problem:") && Unmarked(" ") && Unmarked("array[i]") && Unmarked("")
    ensures Unmarked("\n\n\n") && Unmarked("Solution:") && Unmarked("\n\nTest")
  {
  }

  /** The mark removal of the unit tests' complex input. */
  lemma StripMarksComplexExample()
    ensures StripMarks("**Problem:** `array[i]`\n\n\n**Solution:**\n\nTest")
            == "Problem: array[i]\n\n\nSolution:\n\nTest"
  {
    ComplexInputPieces();
    ComplexInputJoin();
    ComplexOutputPieces();
    ComplexPlainPieces();
    StripMarksBoldAndCode("Problem:", " ", "array[i]", "");
    StripMarksBold("Solution:", "", "");
    StripMarksUnmarked("\n\n\n");
    StripMarksUnmarked("\n\nTest");
    StripMarksAppend("**Problem:** `array[i]`", "\n\n\n");
    StripMarksAppend("**Problem:** `array[i]`\n\n\n", "**Solution:**");
    StripMarksAppend("**Problem:** `array[i]`\n\n\n**Solution:**", "\n\nTest");
  }

  /** How the complex input's mark-free text and its expected output split into lines.
      A literal-splitting step for the solver only: it states nothing about the helpers. */
  lemma ComplexLinePieces()
    ensures "Problem: array[i]\n\n\nSolution:\n\nTest"
            == "Problem: array[i]" + ("\n" + "\n" + "\n" + "Solution:\n\nTest")
    ensures "Solution:\n\nTest" == "Solution:" + ("\n" + "" + "\n" + "Test")
  {
  }

  /** The expected output of the unit tests' complex input, line by line.
      A literal-splitting step for the solver only: it states nothing about the helpers. */
  lemma ComplexResultPieces()
    ensures "Solution:" + ("\n" + "Test") == "Solution:\nTest"
    ensures "Problem: array[i]" + ("\n" + "Solution:\nTest") == "Problem: array[i]\nSolution:\nTest"
    ensures '\n' !in "Problem: array[i]" && '\n' !in "Solution:" && '\n' !in "Test"
  {
  }

  /** The blank-line collapse of the complex input once its marks are gone. */
  lemma CollapseComplexExample()
    ensures CollapseBlankLines("Problem: array[i]\n\n\nSolution:\n\nTest")
            == "Problem: array[i]\nSolution:\nTest"
  {
    ComplexLinePieces();
    ComplexResultPieces();
    assert LeadingSpace("Solution:\n\nTest") == "";
    assert LeadingSpace("Test") == "";
    CollapseBetweenLines("Problem: array[i]", "\n", "Solution:\n\nTest");
    CollapseBetweenLines("Solution:", "", "Test");
    CollapseNoNewline("Test");
  }

  /** The unit tests' complex formatting: bold and code marks removed and both blank-line
      runs collapsed, giving three lines. */
  lemma FormatProblemTextComplexExample()
    ensures FormatProblemText(Some("**Problem:** `array[i]`\n\n\n**Solution:**\n\nTest"))
            == "Problem: array[i]\nSolution:\nTest"
  {
    StripMarksComplexExample();
    CollapseComplexExample();
  }

  // ---------------------------------------------------------------------------------
  // formatHtml
  // ---------------------------------------------------------------------------------

  /** `s[k]` and `s[k + 1]` are both `*`. */
  predicate StarsAt(s: string, k: int) {
    0 <= k && k + 1 < |s| && s[k] == '*' && s[k + 1] == '*'
  }

  /** The lazy `(.*?)\*\*` from offset `from`: the first `**` reached before any line
      terminator. */
  function FindClose(s: string, from: nat): (r: Option<nat>)
    requires from <= |s|
    ensures r.Some? ==> from <= r.value && StarsAt(s, r.value)
    ensures r.Some? ==> forall k :: from <= k < r.value ==> !IsLineTerminator(s[k]) && !StarsAt(s, k)
    ensures r.None? ==> forall j :: from <= j < |s| && StarsAt(s, j) ==>
                          exists k :: from <= k < j && IsLineTerminator(s[k])
    decreases |s| - from
  {
    if StarsAt(s, from) then Some(from)
    else if from == |s| || IsLineTerminator(s[from]) then None
    else FindClose(s, from + 1)
  }

  /** The bold replacement (the pattern `\*\*(.*?)\*\*`, replaced by `$1`, global): scanning left to right, each `**` that has a
      closing `**` later on the same line is replaced, together with that closer, by the
      text between them; the scan resumes after the closer. */
  function StripBold(s: string): (r: string)
    decreases |s|
  {
    if |s| < 2 then s
    else if StarsAt(s, 0) && FindClose(s, 2).Some? then
      var j := FindClose(s, 2).value;
      s[2..j] + StripBold(s[j + 2..])
    else [s[0]] + StripBold(s[1..])
  }

  /** A same-line pair `**x**` becomes `x`, when `x` holds no line terminator and no
      earlier closer (no `**` inside, and no `*` at its end). */
  lemma StripBoldPair(x: string, rest: string)
    requires forall k :: 0 <= k < |x| ==> !IsLineTerminator(x[k])
    requires forall k :: 0 <= k < |x| ==> !StarsAt(x + "*", k)
    ensures StripBold("**" + x + "**" + rest) == x + StripBold(rest)
  {
    var s := "**" + x + "**" + rest;
    var e := 2 + |x|;
    assert StarsAt(s, e);
    assert forall k :: 2 <= k < e ==> s[k] == x[k - 2];
    var f := FindClose(s, 2);
    var v := f.value;
    if v < e {
      assert s[v + 1] == (x + "*")[v - 1];
      assert StarsAt(x + "*", v - 2);
    }
    assert v == e;
    assert s[2..e] == x && s[e + 2..] == rest;
  }

  /** Text with no `**` at all passes through the bold stripping unchanged. */
  lemma {:induction false} StripBoldNoStars(s: string)
    requires forall k :: 0 <= k < |s| ==> !StarsAt(s, k)
    ensures StripBold(s) == s
    decreases |s|
  {
    if |s| >= 2 {
      assert !StarsAt(s, 0);
      forall k | 0 <= k < |s| - 1 ensures !StarsAt(s[1..], k) {
        assert !StarsAt(s, k + 1);
      }
      StripBoldNoStars(s[1..]);
    }
  }

  /** A character that does not start `**` is copied, and the scan goes on after it. */
  lemma StripBoldCopy(c: char, t: string)
    requires !StarsAt([c] + t, 0)
    ensures StripBold([c] + t) == [c] + StripBold(t)
  {
    assert ([c] + t)[1..] == t;
  }

  /** Text without `*` in front of `t` is copied, and the scan goes on in `t`. */
  lemma {:induction false} StripBoldStarFree(a: string, t: string)
    requires '*' !in a
    ensures StripBold(a + t) == a + StripBold(t)
    decreases |a|
  {
    if a != "" {
      assert a + t == [a[0]] + (a[1..] + t);
      StripBoldCopy(a[0], a[1..] + t);
      StripBoldStarFree(a[1..], t);
      assert a == [a[0]] + a[1..];
    } else {
      assert a + t == t;
    }
  }

  /** A same-line pair `**x**` after star-free text `a` becomes `x`, wherever it stands. */
  lemma StripBoldPairAfter(a: string, x: string, rest: string)
    requires '*' !in a
    requires forall k :: 0 <= k < |x| ==> !IsLineTerminator(x[k])
    requires forall k :: 0 <= k < |x| ==> !StarsAt(x + "*", k)
    ensures StripBold(a + ("**" + x + "**" + rest)) == a + (x + StripBold(rest))
  {
    StripBoldStarFree(a, "**" + x + "**" + rest);
    StripBoldPair(x, rest);
  }

  /** A `**` with no closer later on its line is kept as it is, and the scan goes on after
      it. */
  lemma StripBoldUnclosed(t: string)
    requires FindClose("**" + t, 2).None?
    ensures StripBold("**" + t) == "**" + StripBold(t)
  {
    var s := "**" + t;
    var u := s[1..];
    assert u == "*" + t;
    if t != "" && t[0] == '*' {
      // The second star starts a `**` too, and it has no closer on its line either.
      assert !StarsAt(s, 2);
      assert FindClose(s, 2) == FindClose(s, 3);
      if FindClose(u, 2).Some? {
        var v := FindClose(u, 2).value;
        assert StarsAt(s, v + 1);
        assert false;
      }
      assert u[1..] == t;
    } else {
      StripBoldCopy('*', t);
    }
  }

  /** The test of `.filter(line => line.trim() !== '')`. */
  predicate NonBlank(line: string) {
    Trim(line) != ""
  }

  /** `.filter(line => line.trim() !== '')`: the lines that are not all whitespace. */
  function KeepNonBlank(lines: seq<string>): (r: seq<string>)
    ensures forall i :: 0 <= i < |r| ==> !AllSpace(r[i])
    ensures (forall i :: 0 <= i < |lines| ==> AllSpace(lines[i])) ==> r == []
  {
    var r := Filter(lines, NonBlank);
    forall i | 0 <= i < |r| ensures !AllSpace(r[i]) {
      TrimEmptyIffBlank(r[i]);
    }
    forall i | 0 <= i < |lines| && AllSpace(lines[i]) ensures !NonBlank(lines[i]) {
      TrimEmptyIffBlank(lines[i]);
    }
    r
  }

  /** Dropping the blank lines only drops: every kept line is a line of the input. */
  lemma KeepNonBlankFrom(lines: seq<string>)
    ensures forall l :: l in KeepNonBlank(lines) ==> l in lines
  {
    FilterFrom(lines, NonBlank);
  }

  /** The lines of any text that pass a test, joined by `<br />`, hold no newline. */
  lemma JoinedLinesAvoidNewline(t: string, keep: string -> bool)
    ensures '\n' !in Join(Filter(Split(t, '\n'), keep), "<br />")
  {
    var pieces := Split(t, '\n');
    var lines := Filter(pieces, keep);
    FilterFrom(pieces, keep);
    forall i | 0 <= i < |lines| ensures '\n' !in lines[i] {
      assert lines[i] in pieces;
    }
    JoinAvoids(lines, "<br />", '\n');
  }

  /** `formatHtml(s)`. The result has no newline, and text made only of whitespace gives
      the empty string. */
  function FormatHtml(s: Option<string>): (r: string)
    ensures !Truthy(s) ==> r == ""
    ensures '\n' !in r
  {
    if !Truthy(s) then ""
    else
      var t := StripBold(s.value);
      JoinedLinesAvoidNewline(t, NonBlank);
      Join(KeepNonBlank(Split(t, '\n')), "<br />")
  }

  /** Blank input (nothing but whitespace) formats to the empty string. */
  lemma FormatHtmlBlank(s: string)
    requires AllSpace(s)
    ensures FormatHtml(Some(s)) == ""
  {
    StripBoldNoStars(s);
    var lines := Split(s, '\n');
    forall i | 0 <= i < |lines| ensures AllSpace(lines[i]) {
      SplitPiecesFrom(s, '\n', i);
      var p := lines[i];
      forall k | 0 <= k < |p| ensures IsSpace(p[k]) {
        assert p[k] in s;
      }
    }
  }

  /** Every character of a piece of `Split(s, sep)` is a character of `s`. */
  lemma {:induction false} SplitPiecesFrom(s: string, sep: char, i: nat)
    requires i < |Split(s, sep)|
    ensures forall c :: c in Split(s, sep)[i] ==> c in s
    decreases |s|
  {
    if s != "" {
      var rest := Split(s[1..], sep);
      if s[0] == sep {
        if i > 0 { SplitPiecesFrom(s[1..], sep, i - 1); }
      } else if i == 0 {
        SplitPiecesFrom(s[1..], sep, 0);
      } else {
        SplitPiecesFrom(s[1..], sep, i);
      }
    }
  }

  /** On text without `**`, `formatHtml` keeps exactly the non-blank lines of the input,
      in order, joined by `<br />`. */
  lemma FormatHtmlLines(lines: seq<string>)
    requires |lines| >= 1 && forall i :: 0 <= i < |lines| ==> '\n' !in lines[i]
    requires forall k :: 0 <= k < |Join(lines, "\n")| ==> !StarsAt(Join(lines, "\n"), k)
    ensures FormatHtml(Some(Join(lines, "\n"))) == Join(KeepNonBlank(lines), "<br />")
  {
    var s := Join(lines, "\n");
    SplitJoin(lines, '\n');
    if s != "" {
      StripBoldNoStars(s);
    } else {
      TrimEmptyIffBlank(lines[0]);
    }
  }

  /** A line in front is kept exactly when it is not blank. */
  lemma KeepNonBlankCons(l: string, rest: seq<string>)
    ensures KeepNonBlank([l] + rest) == (if AllSpace(l) then [] else [l]) + KeepNonBlank(rest)
  {
    var t := [l] + rest;
    assert t[0] == l && t[1..] == rest;
    TrimEmptyIffBlank(l);
  }

  /** Keeping the non-blank lines works line by line: it distributes over concatenation. */
  lemma KeepNonBlankAppend(a: seq<string>, b: seq<string>)
    ensures KeepNonBlank(a + b) == KeepNonBlank(a) + KeepNonBlank(b)
  {
    FilterAppend(a, b, NonBlank);
  }

  /** A single line is kept exactly when it is not blank. */
  lemma KeepNonBlankOne(l: string)
    ensures KeepNonBlank([l]) == if AllSpace(l) then [] else [l]
  {
    KeepNonBlankCons(l, []);
    assert [l] + [] == [l];
  }

  /** Once the bold pairs are stripped, `formatHtml` keeps the non-blank lines of what is
      left, joined by `<br />`. */
  lemma FormatHtmlOfLines(s: string, lines: seq<string>)
    requires s != "" && |lines| >= 1 && forall i :: 0 <= i < |lines| ==> '\n' !in lines[i]
    requires StripBold(s) == Join(lines, "\n")
    ensures FormatHtml(Some(s)) == Join(KeepNonBlank(lines), "<br />")
  {
    SplitJoin(lines, '\n');
  }

  /** Lines that are all non-blank are all kept. */
  lemma {:induction false} KeepNonBlankAll(lines: seq<string>)
    requires forall i :: 0 <= i < |lines| ==> !AllSpace(lines[i])
    ensures KeepNonBlank(lines) == lines
    decreases |lines|
  {
    if lines != [] {
      KeepNonBlankAll(lines[1..]);
      KeepNonBlankCons(lines[0], lines[1..]);
      assert [lines[0]] + lines[1..] == lines;
    }
  }

  /** Empty lines between non-blank lines are dropped and the non-blank lines kept. */
  lemma KeepNonBlankEmptyLines(a: string, b: string, c: string)
    requires !AllSpace(a) && !AllSpace(b) && !AllSpace(c)
    ensures KeepNonBlank([a, "", b, "", "", c]) == [a, b, c]
  {
    assert [a, "", b, "", "", c] == [a] + ([""] + ([b] + ([""] + ([""] + [c]))));
    assert [a] + ([b] + [c]) == [a, b, c];
    KeepNonBlankOne(c);
    KeepNonBlankCons("", [c]);
    KeepNonBlankCons("", [""] + [c]);
    KeepNonBlankCons(b, [""] + ([""] + [c]));
    KeepNonBlankCons("", [b] + ([""] + ([""] + [c])));
    KeepNonBlankCons(a, [""] + ([b] + ([""] + ([""] + [c]))));
  }

  /** A same-line bold pair followed by text with no `**` keeps the word and the text. */
  lemma StripBoldPairThenPlain(x: string, rest: string)
    requires forall k :: 0 <= k < |x| ==> !IsLineTerminator(x[k])
    requires forall k :: 0 <= k < |x| ==> !StarsAt(x + "*", k)
    requires forall k :: 0 <= k < |rest| ==> !StarsAt(rest, k)
    ensures StripBold("**" + x + "**" + rest) == x + rest
  {
    StripBoldPair(x, rest);
    StripBoldNoStars(rest);
  }

  /** The unit tests' bold input is a bold pair followed by the rest of the text.
      A literal-splitting step for the solver only: it states nothing about the helpers. */
  lemma BoldInputPieces()
    ensures "**Score:** 8/10\nGood solution" == "**" + "Score:" + "**" + " 8/10\nGood solution"
    ensures "Score:" + " 8/10\nGood solution" == "Score: 8/10\nGood solution"
  {
  }

  /** After its bold pair, the unit tests' bold input holds no other `**`. */
  lemma BoldRestNoStars()
    ensures forall k :: 0 <= k < |" 8/10\nGood solution"| ==> !StarsAt(" 8/10\nGood solution", k)
  {
  }

  /** The bold stripping of the unit tests' bold input. */
  lemma StripBoldExample()
    ensures StripBold("**Score:** 8/10\nGood solution") == "Score: 8/10\nGood solution"
  {
    BoldInputPieces();
    BoldRestNoStars();
    StripBoldPairThenPlain("Score:", " 8/10\nGood solution");
  }

  /** Two non-blank lines left by the bold stripping are joined by `<br />`. */
  lemma FormatHtmlTwoLines(s: string, a: string, b: string)
    requires s != "" && StripBold(s) == a + "\n" + b
    requires '\n' !in a && '\n' !in b && !AllSpace(a) && !AllSpace(b)
    ensures FormatHtml(Some(s)) == a + "<br />" + b
  {
    var lines := [a, b];
    assert lines[1..] == [b];
    assert Join(lines, "\n") == a + "\n" + b;
    FormatHtmlOfLines(s, lines);
    KeepNonBlankAll(lines);
  }

  /** Three newline-free lines with empty lines between them: no line holds a newline, and
      keeping the non-blank ones drops the empty lines. */
  lemma EmptyLinesShape(a: string, b: string, c: string)
    requires '\n' !in a && '\n' !in b && '\n' !in c
    requires !AllSpace(a) && !AllSpace(b) && !AllSpace(c)
    ensures forall i :: 0 <= i < 6 ==> '\n' !in [a, "", b, "", "", c][i]
    ensures KeepNonBlank([a, "", b, "", "", c]) == [a, b, c]
  {
    var lines := [a, "", b, "", "", c];
    forall i | 0 <= i < 6 ensures '\n' !in lines[i] {
      if i == 0 { assert lines[i] == a; }
      else if i == 2 { assert lines[i] == b; }
      else if i == 5 { assert lines[i] == c; }
      else { assert lines[i] == ""; }
    }
    KeepNonBlankEmptyLines(a, b, c);
  }

  /** Three non-blank lines with one and then two empty lines between them are joined by
      `<br />` with the empty lines dropped. */
  lemma FormatHtmlEmptyLines(s: string, a: string, b: string, c: string)
    requires s != "" && StripBold(s) == Join([a, "", b, "", "", c], "\n")
    requires '\n' !in a && '\n' !in b && '\n' !in c
    requires !AllSpace(a) && !AllSpace(b) && !AllSpace(c)
    ensures FormatHtml(Some(s)) == Join([a, b, c], "<br />")
  {
    EmptyLinesShape(a, b, c);
    FormatHtmlOfLines(s, [a, "", b, "", "", c]);
  }

  /** The unit tests' bold output lines hold no newline and are not blank.
      A literal-splitting step for the solver only: it states nothing about the helpers. */
  lemma BoldLinesPieces()
    ensures '\n' !in "Score: 8/10" && '\n' !in "Good solution"
    ensures !AllSpace("Score: 8/10") && !AllSpace("Good solution")
  {
    assert !IsSpace("Score: 8/10"[0]) && !IsSpace("Good solution"[0]);
  }

  /** The unit tests' bold output splits at its newline.
      A literal-splitting step for the solver only: it states nothing about the helpers. */
  lemma BoldOutputPieces()
    ensures "Score: 8/10\nGood solution" == "Score: 8/10" + "\n" + "Good solution"
    ensures "Score: 8/10" + "<br />" + "Good solution" == "Score: 8/10<br />Good solution"
  {
  }

  /** The unit tests' bold stripping: `**Score:** 8/10` and `Good solution` become two
      lines joined by `<br />`. */
  lemma FormatHtmlBoldExample()
    ensures FormatHtml(Some("**Score:** 8/10\nGood solution")) == "Score: 8/10<br />Good solution"
  {
    StripBoldExample();
    BoldLinesPieces();
    BoldOutputPieces();
    FormatHtmlTwoLines("**Score:** 8/10\nGood solution", "Score: 8/10", "Good solution");
  }

  /** The unit tests' input with empty lines, as lines.
      A literal-splitting step for the solver only: it states nothing about the helpers. */
  lemma EmptyLinesInputPieces()
    ensures "Line 1\n\nLine 2\n\n\nLine 3" == Join(["Line 1", "", "Line 2", "", "", "Line 3"], "\n")
  {
  }

  /** The unit tests' input with empty lines holds no `**`. */
  lemma EmptyLinesNoStars()
    ensures forall k :: 0 <= k < |"Line 1\n\nLine 2\n\n\nLine 3"| ==> !StarsAt("Line 1\n\nLine 2\n\n\nLine 3", k)
  {
  }

  /** The unit tests' lines hold no newline and are not blank.
      A literal-splitting step for the solver only: it states nothing about the helpers. */
  lemma EmptyLinesLinePieces()
    ensures '\n' !in "Line 1" && '\n' !in "Line 2" && '\n' !in "Line 3"
    ensures !AllSpace("Line 1") && !AllSpace("Line 2") && !AllSpace("Line 3")
  {
    assert !IsSpace("Line 1"[0]) && !IsSpace("Line 2"[0]) && !IsSpace("Line 3"[0]);
  }

  /** The unit tests' output for the input with empty lines.
      A literal-splitting step for the solver only: it states nothing about the helpers. */
  lemma EmptyLinesOutputPieces()
    ensures Join(["Line 1", "Line 2", "Line 3"], "<br />") == "Line 1<br />Line 2<br />Line 3"
  {
  }

  /** The unit tests' empty lines: three lines with empty lines between them are joined by
      `<br />` with the empty lines dropped. */
  lemma FormatHtmlEmptyLinesExample()
    ensures FormatHtml(Some("Line 1\n\nLine 2\n\n\nLine 3")) == "Line 1<br />Line 2<br />Line 3"
  {
    var s := "Line 1\n\nLine 2\n\n\nLine 3";
    EmptyLinesInputPieces();
    EmptyLinesNoStars();
    StripBoldNoStars(s);
    EmptyLinesLinePieces();
    EmptyLinesOutputPieces();
    FormatHtmlEmptyLines(s, "Line 1", "Line 2", "Line 3");
  }

  // ---------------------------------------------------------------------------------
  // canSubmitGuard
  // ---------------------------------------------------------------------------------

  /** The placeholder shown while a problem is being generated. */
  const Generating: string := "Generating new problem..."

  /** `canSubmitGuard(problem, hasGenerated, isLoading)`: a solution may be submitted only
      when nothing is loading, a problem was generated, and it is a real problem text (not
      empty, not the placeholder, not an error report). */
  function CanSubmitGuard(problem: Option<string>, hasGenerated: bool, isLoading: bool): (r: bool)
    ensures r <==> && !isLoading && hasGenerated && Truthy(problem)
                   && problem.value != Generating && !("Error:" <= problem.value)
  {
    if isLoading then false
    else if !hasGenerated then false
    else if !Truthy(problem) then false
    else if problem.value == Generating then false
    else if "Error:" <= problem.value then false
    else true
  }

  /** The guard's cases from the unit tests. */
  lemma CanSubmitGuardExamples()
    ensures !CanSubmitGuard(Some("Valid problem"), true, true)
    ensures !CanSubmitGuard(Some("Valid problem"), false, false)
    ensures !CanSubmitGuard(Some(""), true, false) && !CanSubmitGuard(None, true, false)
    ensures !CanSubmitGuard(Some(Generating), true, false)
    ensures !CanSubmitGuard(Some("Error: Failed to fetch"), true, false)
    ensures CanSubmitGuard(Some("Valid algorithm problem here"), true, false)
  {
    assert "Error:" <= "Error: Failed to fetch";
    assert !("Error:" <= "Valid algorithm problem here") by {
      assert "Valid algorithm problem here"[0] != 'E';
    }
  }

  // ---------------------------------------------------------------------------------
  // cycleOption
  // ---------------------------------------------------------------------------------

  /** One entry of a selector's option list. */
  datatype SelectOption = SelectOption(value: string, labelText: string)

  /** `options.findIndex(o => o.value === v)`: the first index holding `v`, or -1. */
  function FindIndex(options: seq<SelectOption>, v: string): (i: int)
    ensures -1 <= i < |options|
    ensures i >= 0 ==> options[i].value == v
    ensures forall k :: 0 <= k < |options| && (i < 0 || k < i) ==> options[k].value != v
    decreases |options|
  {
    if options == [] then -1
    else if options[0].value == v then 0
    else
      var j := FindIndex(options[1..], v);
      if j < 0 then -1 else j + 1
  }

  /** `cycleOption(currentValue, options)`: the value after the first entry holding
      `currentValue`, wrapping from the last entry to the first; an unknown value gives the
      first entry. An empty list makes the source throw, so callers pass a non-empty one. */
  function CycleOption(current: string, options: seq<SelectOption>): (r: string)
    requires |options| > 0
  {
    options[(FindIndex(options, current) + 1) % |options|].value
  }

  /** `x mod n` for `0 <= x <= n`. */
  lemma ModInRange(x: int, n: int)
    requires 0 < n && 0 <= x <= n
    ensures x % n == (if x == n then 0 else x)
  {
  }

  /** The index after `i` in a list of `n` entries, wrapping at the end. */
  function Successor(i: int, n: int): int {
    if i + 1 == n then 0 else i + 1
  }

  /** What `cycleOption` returns: the value of the entry after the first match, the first
      entry's value after a match on the last entry, and the first entry's value for an
      unknown value. */
  lemma CycleOptionCases(current: string, options: seq<SelectOption>)
    requires |options| > 0
    ensures var i := FindIndex(options, current);
            && (i >= 0 ==> CycleOption(current, options) == options[Successor(i, |options|)].value)
            && (i == |options| - 1 ==> CycleOption(current, options) == options[0].value)
            && ((forall k :: 0 <= k < |options| ==> options[k].value != current) ==>
                  CycleOption(current, options) == options[0].value)
  {
    ModInRange(FindIndex(options, current) + 1, |options|);
  }

  /** All option values differ. */
  predicate DistinctValues(options: seq<SelectOption>) {
    forall i, j :: 0 <= i < j < |options| ==> options[i].value != options[j].value
  }

  /** With distinct values, the entry holding `options[p].value` is entry `p`. */
  lemma FindIndexDistinct(options: seq<SelectOption>, p: nat)
    requires DistinctValues(options) && p < |options|
    ensures FindIndex(options, options[p].value) == p
  {
  }

  /** Pressing the selector `k` times from `current`. */
  function CycleTimes(current: string, options: seq<SelectOption>, k: nat): string
    requires |options| > 0
    decreases k
  {
    if k == 0 then current else CycleOption(CycleTimes(current, options, k - 1), options)
  }

  /** With distinct values, `k <= n` presses from entry `i` land on entry `i + k`, counted
      round the end of the list: every entry is reached and `n` presses return to the
      start. */
  lemma {:induction false} CycleTimesLands(options: seq<SelectOption>, i: nat, k: nat)
    requires DistinctValues(options) && i < |options| && k <= |options|
    ensures var n := |options|;
            CycleTimes(options[i].value, options, k) == options[if i + k < n then i + k else i + k - n].value
    decreases k
  {
    var n := |options|;
    if k > 0 {
      CycleTimesLands(options, i, k - 1);
      var p := if i + k - 1 < n then i + k - 1 else i + k - 1 - n;
      var q := if i + k < n then i + k else i + k - n;
      var prev := CycleTimes(options[i].value, options, k - 1);
      assert prev == options[p].value;
      assert CycleTimes(options[i].value, options, k) == CycleOption(prev, options);
      CycleFromEntry(options, p);
      assert Successor(p, n) == q;
    }
  }

  /** With distinct values, pressing the selector on entry `p` moves to the entry after it. */
  lemma CycleFromEntry(options: seq<SelectOption>, p: nat)
    requires DistinctValues(options) && p < |options|
    ensures CycleOption(options[p].value, options) == options[Successor(p, |options|)].value
  {
    FindIndexDistinct(options, p);
    CycleOptionCases(options[p].value, options);
  }

  /** `n` presses bring a selector with distinct values back to where it started. */
  lemma CycleReturns(options: seq<SelectOption>, i: nat)
    requires DistinctValues(options) && i < |options|
    ensures CycleTimes(options[i].value, options, |options|) == options[i].value
  {
    CycleTimesLands(options, i, |options|);
  }

  /** The topic selector's options. */
  const TopicOptions: seq<SelectOption> := [
    SelectOption("comprehensive", "Comprehensive"),
    SelectOption("linear_list", "Linear List"),
    SelectOption("stack_queue", "Stack & Queue"),
    SelectOption("string", "String"),
    SelectOption("array_generalized_list", "Array & Generalized List"),
    SelectOption("tree_binary_tree", "Tree & Binary Tree"),
    SelectOption("graph", "Graph"),
    SelectOption("searching", "Searching"),
    SelectOption("sorting", "Sorting")
  ]

  /** The difficulty selector's options. */
  const DifficultyOptions: seq<SelectOption> := [
    SelectOption("easy", "Easy"), SelectOption("medium", "Medium"), SelectOption("hard", "Hard")
  ]

  /** The language selector's options. */
  const LanguageOptions: seq<SelectOption> := [
    SelectOption("en", "English"), SelectOption("cn", "Chinese")
  ]

  /** The three selectors list distinct values, so pressing one `n` times comes back to
      the start (`CycleReturns`). */
  lemma OptionListsDistinct()
    ensures |TopicOptions| == 9 && DistinctValues(TopicOptions)
    ensures |DifficultyOptions| == 3 && DistinctValues(DifficultyOptions)
    ensures |LanguageOptions| == 2 && DistinctValues(LanguageOptions)
  {
  }

  /** The cycles the unit tests check on a three-entry list, the last wrapping to the first. */
  lemma LetterCycleExamples()
    ensures var abc := [SelectOption("a", "A"), SelectOption("b", "B"), SelectOption("c", "C")];
            && CycleOption("a", abc) == "b" && CycleOption("b", abc) == "c" && CycleOption("c", abc) == "a"
  {
    var abc := [SelectOption("a", "A"), SelectOption("b", "B"), SelectOption("c", "C")];
    assert DistinctValues(abc);
    CycleFromEntry(abc, 0);
    CycleFromEntry(abc, 1);
    CycleFromEntry(abc, 2);
  }

  /** The cycles the unit tests check on the difficulty list. */
  lemma DifficultyCycleExamples()
    ensures CycleOption("easy", DifficultyOptions) == "medium"
    ensures CycleOption("medium", DifficultyOptions) == "hard"
    ensures CycleOption("hard", DifficultyOptions) == "easy"
  {
    FindIndexDistinct(DifficultyOptions, 0);
    FindIndexDistinct(DifficultyOptions, 1);
    FindIndexDistinct(DifficultyOptions, 2);
    CycleOptionCases("easy", DifficultyOptions);
    CycleOptionCases("medium", DifficultyOptions);
    CycleOptionCases("hard", DifficultyOptions);
  }

  /** The cycles the unit tests check on the language list. */
  lemma LanguageCycleExamples()
    ensures CycleOption("en", LanguageOptions) == "cn"
    ensures CycleOption("cn", LanguageOptions) == "en"
  {
    FindIndexDistinct(LanguageOptions, 0);
    FindIndexDistinct(LanguageOptions, 1);
    CycleOptionCases("en", LanguageOptions);
    CycleOptionCases("cn", LanguageOptions);
  }
}
