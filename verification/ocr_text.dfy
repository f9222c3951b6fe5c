/** The plain-text side of the OCR script: `normalizeWhitespace` and the line filter of
    `cleanHebrewWorksheetText` (scripts/ocr-pythagoras.mjs). */
module OcrText {
  import opened Chars
  import opened Results
  import opened Strings
  import opened Seqs

  // ----- runs of one character class ---------------------------------------------------------

  /** The number of `cls` characters at the start of `s`. */
  function RunLen(s: string, cls: char -> bool): (n: nat)
    ensures n <= |s|
    ensures forall i :: 0 <= i < n ==> cls(s[i])
    ensures n < |s| ==> !cls(s[n])
  {
    if s != [] && cls(s[0]) then 1 + RunLen(s[1..], cls) else 0
  }

  /** No `k` consecutive `cls` characters anywhere in `s`. */
  predicate NoRun(s: string, cls: char -> bool, k: nat) {
    s == [] || (RunLen(s, cls) < k && NoRun(s[1..], cls, k))
  }

  /** No `a` character is immediately followed by a `b` character. */
  predicate NoPair(s: string, a: char -> bool, b: char -> bool) {
    |s| < 2 || (!(a(s[0]) && b(s[1])) && NoPair(s[1..], a, b))
  }

  predicate IsNewline(c: char) { c == '\n' }
  predicate IsCr(c: char) { c == '\r' }
  /** The class `[\t\f\v]`. */
  predicate IsTabLike(c: char) { c == '\t' || c == '\U{C}' || c == '\U{B}' }
  predicate IsBlank(c: char) { c == ' ' }

  /** `s.replace(/c{min,}/g, rep)` for a one-character class `c`. The expression is tried at each
      position in turn: inside a run shorter than `min` it fails at every position, so the run is
      copied; at the first character of a longer run it matches the whole run greedily. */
  function ReplaceRuns(s: string, cls: char -> bool, min: nat, rep: string): string
    requires min >= 1
    decreases |s|
  {
    if s == [] then []
    else if cls(s[0]) then
      var n := RunLen(s, cls);
      (if n >= min then rep else s[..n]) + ReplaceRuns(s[n..], cls, min, rep)
    else [s[0]] + ReplaceRuns(s[1..], cls, min, rep)
  }

  /** `s.replace(/\r\n/g, "\n")`: one left-to-right pass over non-overlapping occurrences. */
  function CrlfToLf(s: string): string
  {
    if |s| >= 2 && s[0] == '\r' && s[1] == '\n' then ['\n'] + CrlfToLf(s[2..])
    else if s == [] then []
    else [s[0]] + CrlfToLf(s[1..])
  }

  /** `normalizeWhitespace`. */
  function NormalizeWhitespace(text: string): (r: string)
    ensures IsTrimmed(r)
  {
    Trim(Passes(CrlfToLf(text)))
  }

  // ----- facts about runs and pairs ------------------------------------------------------------

  /** Text after a run that ends at a non-`cls` character does not lengthen the run. */
  lemma {:induction false} RunLenAppend(a: string, b: string, cls: char -> bool)
    requires b == [] || !cls(b[0])
    ensures RunLen(a + b, cls) == RunLen(a, cls)
  {
    if a == [] {
      assert a + b == b;
    } else {
      assert (a + b)[1..] == a[1..] + b;
      RunLenAppend(a[1..], b, cls);
    }
  }

  lemma {:induction false} NoRunAppend(a: string, b: string, cls: char -> bool, k: nat)
    requires NoRun(a, cls, k) && NoRun(b, cls, k)
    requires b == [] || !cls(b[0])
    ensures NoRun(a + b, cls, k)
  {
    if a == [] {
      assert a + b == b;
    } else {
      RunLenAppend(a, b, cls);
      assert (a + b)[1..] == a[1..] + b;
      NoRunAppend(a[1..], b, cls, k);
    }
  }

  lemma {:induction false} NoRunShort(a: string, cls: char -> bool, k: nat)
    requires |a| < k
    ensures NoRun(a, cls, k)
  {
    if a != [] {
      NoRunShort(a[1..], cls, k);
    }
  }

  /** Characters outside the class never start a run. */
  lemma {:induction false} NoRunFree(a: string, b: string, cls: char -> bool, k: nat)
    requires k >= 1 && NoRun(b, cls, k)
    requires forall i :: 0 <= i < |a| ==> !cls(a[i])
    ensures NoRun(a + b, cls, k)
  {
    if a == [] {
      assert a + b == b;
    } else {
      assert (a + b)[0] == a[0];
      assert (a + b)[1..] == a[1..] + b;
      NoRunFree(a[1..], b, cls, k);
    }
  }

  lemma {:induction false} NoRunSuffix(s: string, j: nat, cls: char -> bool, k: nat)
    requires NoRun(s, cls, k) && j <= |s|
    ensures NoRun(s[j..], cls, k)
  {
    if j > 0 {
      NoRunSuffix(s[1..], j - 1, cls, k);
      assert s[1..][j - 1..] == s[j..];
    }
  }

  lemma {:induction false} RunLenPrefix(s: string, j: nat, cls: char -> bool)
    requires j <= |s|
    ensures RunLen(s[..j], cls) <= RunLen(s, cls)
  {
    if j > 0 && cls(s[0]) {
      assert s[..j][1..] == s[1..][..j - 1];
      RunLenPrefix(s[1..], j - 1, cls);
    }
  }

  lemma {:induction false} NoRunPrefix(s: string, j: nat, cls: char -> bool, k: nat)
    requires NoRun(s, cls, k) && j <= |s|
    ensures NoRun(s[..j], cls, k)
  {
    if j > 0 {
      RunLenPrefix(s, j, cls);
      assert s[..j][1..] == s[1..][..j - 1];
      NoRunPrefix(s[1..], j - 1, cls, k);
    }
  }

  lemma NoRunSlice(s: string, a: nat, b: nat, cls: char -> bool, k: nat)
    requires NoRun(s, cls, k) && a <= b <= |s|
    ensures NoRun(s[a..b], cls, k)
  {
    NoRunPrefix(s, b, cls, k);
    NoRunSuffix(s[..b], a, cls, k);
    assert s[..b][a..] == s[a..b];
  }

  /** The same, for a slice given by its value. */
  lemma NoRunSame(s: string, a: nat, t: string, cls: char -> bool, k: nat)
    requires NoRun(s, cls, k) && IsSliceAt(t, s, a)
    ensures NoRun(t, cls, k)
  {
    NoRunSlice(s, a, a + |t|, cls, k);
  }

  lemma NoPairSame(s: string, a: nat, t: string, p: char -> bool, q: char -> bool)
    requires NoPair(s, p, q) && IsSliceAt(t, s, a)
    ensures NoPair(t, p, q)
  {
    NoPairSlice(s, a, a + |t|, p, q);
  }

  lemma {:induction false} NoPairAppend(a: string, b: string, p: char -> bool, q: char -> bool)
    requires NoPair(a, p, q) && NoPair(b, p, q)
    requires a == [] || b == [] || !(p(a[|a| - 1]) && q(b[0]))
    ensures NoPair(a + b, p, q)
  {
    if a == [] {
      assert a + b == b;
    } else {
      assert (a + b)[1..] == a[1..] + b;
      NoPairAppend(a[1..], b, p, q);
    }
  }

  /** Without any `p` character there is no pair to find. */
  lemma {:induction false} NoPairFree(a: string, p: char -> bool, q: char -> bool)
    requires forall i :: 0 <= i < |a| ==> !p(a[i])
    ensures NoPair(a, p, q)
  {
    if |a| >= 2 {
      NoPairFree(a[1..], p, q);
    }
  }

  lemma {:induction false} NoPairSuffix(s: string, j: nat, p: char -> bool, q: char -> bool)
    requires NoPair(s, p, q) && j <= |s|
    ensures NoPair(s[j..], p, q)
  {
    if j > 0 && |s| >= 2 {
      NoPairSuffix(s[1..], j - 1, p, q);
      assert s[1..][j - 1..] == s[j..];
    }
  }

  lemma {:induction false} NoPairPrefix(s: string, j: nat, p: char -> bool, q: char -> bool)
    requires NoPair(s, p, q) && j <= |s|
    ensures NoPair(s[..j], p, q)
  {
    if j >= 2 {
      assert s[..j][1..] == s[1..][..j - 1];
      NoPairPrefix(s[1..], j - 1, p, q);
    }
  }

  lemma NoPairSlice(s: string, a: nat, b: nat, p: char -> bool, q: char -> bool)
    requires NoPair(s, p, q) && a <= b <= |s|
    ensures NoPair(s[a..b], p, q)
  {
    NoPairPrefix(s, b, p, q);
    NoPairSuffix(s[..b], a, p, q);
    assert s[..b][a..] == s[a..b];
  }

  /** With no two `cls` characters side by side there is no run of two. */
  lemma {:induction false} NoPairNoRun(s: string, cls: char -> bool, k: nat)
    requires NoPair(s, cls, cls) && k >= 2
    ensures NoRun(s, cls, k)
  {
    if s != [] {
      assert RunLen(s, cls) < 2;
      NoPairNoRun(s[1..], cls, k);
    }
  }

  // ----- what each pass establishes and keeps ----------------------------------------------------

  /** A pass leaves no run of `min` class characters behind, given that its replacement has none. */
  lemma {:induction false} ReplaceRunsLeavesNoRun(s: string, cls: char -> bool, min: nat, rep: string)
    requires min >= 1 && NoRun(rep, cls, min)
    ensures NoRun(ReplaceRuns(s, cls, min, rep), cls, min)
    decreases |s|
  {
    if s != [] {
      if cls(s[0]) {
        var n := RunLen(s, cls);
        var t := s[n..];
        var x := ReplaceRuns(t, cls, min, rep);
        ReplaceRunsLeavesNoRun(t, cls, min, rep);
        assert x == [] || !cls(x[0]) by {
          if t != [] { assert !cls(t[0]); }
        }
        if n >= min {
          NoRunAppend(rep, x, cls, min);
        } else {
          NoRunShort(s[..n], cls, min);
          NoRunAppend(s[..n], x, cls, min);
        }
      } else {
        var x := ReplaceRuns(s[1..], cls, min, rep);
        ReplaceRunsLeavesNoRun(s[1..], cls, min, rep);
        NoRunFree([s[0]], x, cls, min);
      }
    }
  }

  /** A pass over another class does not lengthen runs of `other` at the start. */
  lemma {:induction false} ReplaceRunsRunLen(s: string, cls: char -> bool, min: nat, rep: string, other: char -> bool)
    requires min >= 1 && rep != [] && !other(rep[0])
    requires forall c :: cls(c) ==> !other(c)
    ensures RunLen(ReplaceRuns(s, cls, min, rep), other) <= RunLen(s, other)
    decreases |s|
  {
    if s != [] && !cls(s[0]) && other(s[0]) {
      ReplaceRunsRunLen(s[1..], cls, min, rep, other);
    }
  }

  /** A pass over another class keeps the absence of `k`-runs of `other`. */
  lemma {:induction false} ReplaceRunsKeepsNoRun(s: string, cls: char -> bool, min: nat, rep: string, other: char -> bool, k: nat)
    requires min >= 1 && k >= 1 && rep != []
    requires forall i :: 0 <= i < |rep| ==> !other(rep[i])
    requires forall c :: cls(c) ==> !other(c)
    requires NoRun(s, other, k)
    ensures NoRun(ReplaceRuns(s, cls, min, rep), other, k)
    decreases |s|
  {
    if s != [] {
      if cls(s[0]) {
        var n := RunLen(s, cls);
        var x := ReplaceRuns(s[n..], cls, min, rep);
        NoRunSuffix(s, n, other, k);
        ReplaceRunsKeepsNoRun(s[n..], cls, min, rep, other, k);
        NoRunFree(if n >= min then rep else s[..n], x, other, k);
      } else {
        var x := ReplaceRuns(s[1..], cls, min, rep);
        ReplaceRunsKeepsNoRun(s[1..], cls, min, rep, other, k);
        ReplaceRunsRunLen(s[1..], cls, min, rep, other);
        assert ([s[0]] + x)[1..] == x;
      }
    }
  }

  /** A run of fewer than `min` characters is left alone, so text without one is unchanged. */
  lemma {:induction false} ReplaceRunsFixed(s: string, cls: char -> bool, min: nat, rep: string)
    requires min >= 1 && NoRun(s, cls, min)
    ensures ReplaceRuns(s, cls, min, rep) == s
    decreases |s|
  {
    if s != [] {
      if cls(s[0]) {
        var n := RunLen(s, cls);
        NoRunSuffix(s, n, cls, min);
        ReplaceRunsFixed(s[n..], cls, min, rep);
        assert s == s[..n] + s[n..];
      } else {
        ReplaceRunsFixed(s[1..], cls, min, rep);
        assert s == [s[0]] + s[1..];
      }
    }
  }

  // ----- carriage returns ------------------------------------------------------------------------

  /** No `\r\r\n` anywhere in `s`. */
  predicate NoCrCrLf(s: string) {
    |s| < 3 || (!(s[0] == '\r' && s[1] == '\r' && s[2] == '\n') && NoCrCrLf(s[1..]))
  }

  /** The single pass leaves a `\r\n` behind exactly where the input had `\r\r\n`. */
  lemma {:induction false} CrlfToLfLeavesCrlf(s: string)
    ensures NoPair(CrlfToLf(s), IsCr, IsNewline) <==> NoCrCrLf(s)
    decreases |s|
  {
    if |s| >= 2 && s[0] == '\r' && s[1] == '\n' {
      CrlfToLfLeavesCrlf(s[2..]);
      assert s[1..][1..] == s[2..];
    } else if s != [] {
      var y := CrlfToLf(s[1..]);
      CrlfToLfLeavesCrlf(s[1..]);
      assert ([s[0]] + y)[1..] == y;
      if |s| >= 2 {
        assert s[1..][1..] == s[2..];
      }
    }
  }

  /** Text with no `\r\n` passes through unchanged. */
  lemma {:induction false} CrlfToLfFixed(s: string)
    requires NoPair(s, IsCr, IsNewline)
    ensures CrlfToLf(s) == s
  {
    if s != [] {
      CrlfToLfFixed(s[1..]);
      assert s == [s[0]] + s[1..];
    }
  }

  /** A pass whose replacement holds no `\r` starts with a newline only where its input did. */
  lemma {:induction false} ReplaceRunsFirst(s: string, cls: char -> bool, min: nat, rep: string)
    requires min >= 1 && rep != []
    requires rep[0] == '\n' ==> forall c :: cls(c) ==> c == '\n'
    requires ReplaceRuns(s, cls, min, rep) != []
    ensures s != []
    ensures ReplaceRuns(s, cls, min, rep)[0] == '\n' ==> s[0] == '\n'
  {
  }

  /** A pass whose class and replacement have no `\r` creates no `\r\n`. */
  lemma {:induction false} ReplaceRunsKeepsNoCrlf(s: string, cls: char -> bool, min: nat, rep: string)
    requires min >= 1 && rep != [] && '\r' !in rep && !cls('\r')
    requires rep[0] == '\n' ==> forall c :: cls(c) ==> c == '\n'
    requires NoPair(s, IsCr, IsNewline)
    ensures NoPair(ReplaceRuns(s, cls, min, rep), IsCr, IsNewline)
    decreases |s|
  {
    if s != [] {
      if cls(s[0]) {
        var n := RunLen(s, cls);
        var piece := if n >= min then rep else s[..n];
        var x := ReplaceRuns(s[n..], cls, min, rep);
        NoPairSuffix(s, n, IsCr, IsNewline);
        ReplaceRunsKeepsNoCrlf(s[n..], cls, min, rep);
        assert forall i :: 0 <= i < |piece| ==> !IsCr(piece[i]);
        NoPairFree(piece, IsCr, IsNewline);
        NoPairAppend(piece, x, IsCr, IsNewline);
      } else {
        var x := ReplaceRuns(s[1..], cls, min, rep);
        ReplaceRunsKeepsNoCrlf(s[1..], cls, min, rep);
        if x != [] {
          ReplaceRunsFirst(s[1..], cls, min, rep);
        }
        NoPairAppend([s[0]], x, IsCr, IsNewline);
      }
    }
  }

  // ----- normalizeWhitespace -----------------------------------------------------------------------

  /** What the passes leave: no three newlines in a row, no tab, form feed or vertical tab, no two
      spaces in a row, and no white space at either end. */
  predicate IsWhitespaceNormal(s: string) {
    && IsTrimmed(s)
    && NoRun(s, IsNewline, 3)
    && NoRun(s, IsTabLike, 1)
    && NoRun(s, IsBlank, 2)
  }

  /** The three passes, with the whitespace facts each of them establishes or keeps. */
  function Passes(lf: string): string
  {
    ReplaceRuns(ReplaceRuns(ReplaceRuns(lf, IsNewline, 3, "\n\n"), IsTabLike, 1, " "), IsBlank, 2, " ")
  }

  lemma PassesNoNewlineRun(lf: string)
    ensures NoRun(Passes(lf), IsNewline, 3)
  {
    var paragraphs := ReplaceRuns(lf, IsNewline, 3, "\n\n");
    var untabbed := ReplaceRuns(paragraphs, IsTabLike, 1, " ");
    assert NoRun(paragraphs, IsNewline, 3) by {
      NoRunShort("\n\n", IsNewline, 3);
      ReplaceRunsLeavesNoRun(lf, IsNewline, 3, "\n\n");
    }
    assert NoRun(untabbed, IsNewline, 3) by {
      ReplaceRunsKeepsNoRun(paragraphs, IsTabLike, 1, " ", IsNewline, 3);
    }
    ReplaceRunsKeepsNoRun(untabbed, IsBlank, 2, " ", IsNewline, 3);
  }

  lemma PassesNoTab(lf: string)
    ensures NoRun(Passes(lf), IsTabLike, 1)
  {
    var paragraphs := ReplaceRuns(lf, IsNewline, 3, "\n\n");
    var untabbed := ReplaceRuns(paragraphs, IsTabLike, 1, " ");
    assert NoRun(untabbed, IsTabLike, 1) by {
      assert NoRun(" ", IsTabLike, 1);
      ReplaceRunsLeavesNoRun(paragraphs, IsTabLike, 1, " ");
    }
    ReplaceRunsKeepsNoRun(untabbed, IsBlank, 2, " ", IsTabLike, 1);
  }

  lemma PassesNoDoubleSpace(lf: string)
    ensures NoRun(Passes(lf), IsBlank, 2)
  {
    var untabbed := ReplaceRuns(ReplaceRuns(lf, IsNewline, 3, "\n\n"), IsTabLike, 1, " ");
    NoRunShort(" ", IsBlank, 2);
    ReplaceRunsLeavesNoRun(untabbed, IsBlank, 2, " ");
  }

  lemma TrimKeepsNoRun(s: string, cls: char -> bool, k: nat)
    requires NoRun(s, cls, k)
    ensures NoRun(Trim(s), cls, k)
  {
    NoRunSame(s, TrimOffset(s), Trim(s), cls, k);
  }

  lemma TrimKeepsNoPair(s: string, p: char -> bool, q: char -> bool)
    requires NoPair(s, p, q)
    ensures NoPair(Trim(s), p, q)
  {
    NoPairSame(s, TrimOffset(s), Trim(s), p, q);
  }

  lemma NormalizeWhitespaceShape(text: string)
    ensures IsWhitespaceNormal(NormalizeWhitespace(text))
  {
    var lf := CrlfToLf(text);
    PassesNoNewlineRun(lf);
    PassesNoTab(lf);
    PassesNoDoubleSpace(lf);
    TrimWhitespaceNormal(Passes(lf));
  }

  /** Trimming keeps the three run bounds and adds trimmed ends. */
  lemma TrimWhitespaceNormal(s: string)
    requires NoRun(s, IsNewline, 3) && NoRun(s, IsTabLike, 1) && NoRun(s, IsBlank, 2)
    ensures IsWhitespaceNormal(Trim(s))
  {
    TrimKeepsNoRun(s, IsNewline, 3);
    TrimKeepsNoRun(s, IsTabLike, 1);
    TrimKeepsNoRun(s, IsBlank, 2);
  }

  /** The output has a `\r\n` only if the input had `\r\r\n`. */
  lemma NormalizeWhitespaceCrlf(text: string)
    requires NoCrCrLf(text)
    ensures NoPair(NormalizeWhitespace(text), IsCr, IsNewline)
  {
    var lf := CrlfToLf(text);
    CrlfToLfLeavesCrlf(text);
    var paragraphs := ReplaceRuns(lf, IsNewline, 3, "\n\n");
    ReplaceRunsKeepsNoCrlf(lf, IsNewline, 3, "\n\n");
    var untabbed := ReplaceRuns(paragraphs, IsTabLike, 1, " ");
    ReplaceRunsKeepsNoCrlf(paragraphs, IsTabLike, 1, " ");
    ReplaceRunsKeepsNoCrlf(untabbed, IsBlank, 2, " ");
    TrimKeepsNoPair(Passes(lf), IsCr, IsNewline);
  }

  /** Normal text with no `\r\n` is left unchanged. */
  lemma NormalizeWhitespaceFixed(s: string)
    requires IsWhitespaceNormal(s) && NoPair(s, IsCr, IsNewline)
    ensures NormalizeWhitespace(s) == s
  {
    CrlfToLfFixed(s);
    ReplaceRunsFixed(s, IsNewline, 3, "\n\n");
    ReplaceRunsFixed(s, IsTabLike, 1, " ");
    ReplaceRunsFixed(s, IsBlank, 2, " ");
  }

  /** Normalising twice is normalising once, unless the input had `\r\r\n`. */
  lemma NormalizeWhitespaceIdempotent(text: string)
    requires NoCrCrLf(text)
    ensures NormalizeWhitespace(NormalizeWhitespace(text)) == NormalizeWhitespace(text)
  {
    NormalizeWhitespaceShape(text);
    NormalizeWhitespaceCrlf(text);
    NormalizeWhitespaceFixed(NormalizeWhitespace(text));
  }

  // ----- cleanHebrewWorksheetText ------------------------------------------------------------------

  /** Matches `words` in turn from position `k`, consecutive words separated by at least one
      white-space character, and gives the position after the last word. The white space is taken
      greedily, as the regular expression does, since every word starts with a letter. */
  function WordsEnd(s: string, k: nat, words: seq<string>): (r: Option<nat>)
    requires words != []
    ensures r.Some? ==> k < r.value <= |s| || (k == r.value && words[0] == [])
    decreases |words|
  {
    if !At(s, k, words[0]) then None
    else
      var e := k + |words[0]|;
      if |words| == 1 then Some(e)
      else
        var w := SpaceRunAt(s, e);
        if w == 0 then None else WordsEnd(s, e + w, words[1..])
  }

  /** From position `k`: optional white space, at least one digit, optional white space, end. */
  predicate NumberToEnd(s: string, k: nat)
    requires k <= |s|
  {
    var a := k + SpaceRunAt(s, k);
    var d := |DigitRun(s[a..])|;
    d >= 1 && a + d + SpaceRunAt(s, a + d) == |s|
  }

  /** `/^משפט\s+פיתגורס\s+לכיתה\s+ח/`: the worksheet title (anything may follow it). */
  predicate IsTitleLine(s: string) {
    WordsEnd(s, 0, ["משפט", "פיתגורס", "לכיתה", "ח"]).Some?
  }

  /** `/^שאלה\s*\d+\s*$/`: a question heading. */
  predicate IsQuestionLine(s: string) {
    match WordsEnd(s, 0, ["שאלה"])
    case Some(e) => NumberToEnd(s, e)
    case None => false
  }

  /** `/^תשובות\s+לשאלה\s*\d+\s*$/`: an answers heading. */
  predicate IsAnswersLine(s: string) {
    match WordsEnd(s, 0, ["תשובות", "לשאלה"])
    case Some(e) => NumberToEnd(s, e)
    case None => false
  }

  predicate IsHeaderLine(s: string) {
    IsTitleLine(s) || IsQuestionLine(s) || IsAnswersLine(s)
  }

  predicate NotHeaderLine(s: string) {
    !IsHeaderLine(s)
  }

  /** The loop of `cleanHebrewWorksheetText`: each line with its white-space runs collapsed,
      header lines dropped. */
  function CleanLines(lines: seq<string>): (r: seq<string>)
    ensures |r| <= |lines|
    ensures forall i :: 0 <= i < |r| ==> !IsHeaderLine(r[i])
  {
    MapFilter(CollapseSpaces, NotHeaderLine, lines)
  }

  /** `cleanHebrewWorksheetText`. */
  function CleanHebrewWorksheetText(text: string): (r: seq<string>)
    ensures |r| <= |Split(NormalizeWhitespace(text), '\n')|
  {
    CleanLines(NonEmptyTrimmed(Split(NormalizeWhitespace(text), '\n')))
  }

  predicate IsNonEmptyNormalized(s: string) {
    s != [] && IsNormalized(s)
  }

  /** Every output line is non-empty, normalised (single spaces only, none at the ends) and not a
      header. */
  lemma CleanHebrewWorksheetTextShape(text: string)
    ensures forall i :: 0 <= i < |CleanHebrewWorksheetText(text)| ==>
      var l := CleanHebrewWorksheetText(text)[i];
      l != [] && IsNormalized(l) && !IsHeaderLine(l)
  {
    var lines := NonEmptyTrimmed(Split(NormalizeWhitespace(text), '\n'));
    CleanLinesShape(lines);
  }

  lemma CleanLinesShape(lines: seq<string>)
    requires forall i :: 0 <= i < |lines| ==> lines[i] != [] && IsTrimmed(lines[i])
    ensures forall i :: 0 <= i < |CleanLines(lines)| ==> IsNonEmptyNormalized(CleanLines(lines)[i])
  {
    forall i | 0 <= i < |lines| ensures IsNonEmptyNormalized(CollapseSpaces(lines[i])) {
      CollapseSpacesOfTrimmed(lines[i]);
    }
    MapFilterImages(CollapseSpaces, NotHeaderLine, lines, IsNonEmptyNormalized);
  }

  /** Surviving lines keep their relative order. */
  lemma CleanLinesKeepsOrder(lines: seq<string>)
    ensures IsSubsequence(CleanLines(lines), Map(CollapseSpaces, lines))
  {
    MapFilterIsSubsequence(CollapseSpaces, NotHeaderLine, lines);
  }

  /** Only header lines are dropped: a line that is no header survives, collapsed, in place. */
  lemma CleanLinesKeepsText(a: seq<string>, line: string, b: seq<string>)
    requires !IsHeaderLine(CollapseSpaces(line))
    ensures CleanLines(a + [line] + b) == CleanLines(a) + [CollapseSpaces(line)] + CleanLines(b)
  {
    MapFilterAppend(CollapseSpaces, NotHeaderLine, a + [line], b);
    MapFilterAppend(CollapseSpaces, NotHeaderLine, a, [line]);
    MapFilterSingle(CollapseSpaces, NotHeaderLine, line);
  }

  /** ... and a header line is dropped wherever it stands. */
  lemma CleanLinesDropsHeader(a: seq<string>, line: string, b: seq<string>)
    requires IsHeaderLine(CollapseSpaces(line))
    ensures CleanLines(a + [line] + b) == CleanLines(a) + CleanLines(b)
  {
    MapFilterAppend(CollapseSpaces, NotHeaderLine, a + [line], b);
    MapFilterAppend(CollapseSpaces, NotHeaderLine, a, [line]);
    MapFilterSingle(CollapseSpaces, NotHeaderLine, line);
  }

  // ----- clean text is a fixed point -------------------------------------------------------------

  predicate IsCleanLine(s: string) {
    s != [] && IsNormalized(s) && !IsHeaderLine(s)
  }

  lemma {:induction false} CollapsedNoDoubleSpace(s: string)
    requires IsCollapsed(s)
    ensures NoPair(s, IsBlank, IsBlank)
  {
    if |s| >= 2 {
      assert !(IsSpace(s[0]) && IsSpace(s[1]));
      CollapsedSlice(s, 1, |s|);
      CollapsedNoDoubleSpace(s[1..]);
    }
  }

  /** Joining parts with `sep` adds no `p`-pair when no part has one and, if `sep` is itself a
      `p` character, no part starts or ends with one. */
  lemma {:induction false} JoinNoPair(parts: seq<string>, sep: char, p: char -> bool)
    requires forall i :: 0 <= i < |parts| ==>
      && parts[i] != [] && NoPair(parts[i], p, p)
      && (p(sep) ==> !p(parts[i][0]) && !p(parts[i][|parts[i]| - 1]))
    ensures NoPair(Join(parts, sep), p, p)
  {
    if |parts| > 1 {
      var rest := Join(parts[1..], sep);
      JoinNoPair(parts[1..], sep, p);
      JoinEnds(parts[1..], sep);
      assert rest[0] == parts[1][0];
      NoPairAppend([sep], rest, p, p);
      NoPairAppend(parts[0], [sep] + rest, p, p);
      JoinCons(parts, sep);
    }
  }

  /** The only white space in clean lines joined by newlines is the plain space and the newline. */
  lemma JoinedCleanChars(lines: seq<string>, c: char)
    requires forall i :: 0 <= i < |lines| ==> IsCleanLine(lines[i])
    requires c in Join(lines, '\n') && IsSpace(c)
    ensures c == '\n' || c == ' '
  {
    if c != '\n' {
      JoinChars(lines, '\n', c);
      var i :| 0 <= i < |lines| && c in lines[i];
      var k :| 0 <= k < |lines[i]| && lines[i][k] == c;
    }
  }

  lemma CleanLinesHaveNoNewline(lines: seq<string>)
    requires forall i :: 0 <= i < |lines| ==> IsCleanLine(lines[i])
    ensures forall i :: 0 <= i < |lines| ==> '\n' !in lines[i]
  {
    forall i | 0 <= i < |lines| ensures '\n' !in lines[i] {
      assert IsCollapsed(lines[i]);
    }
  }

  /** Clean lines joined by newlines contain neither `\r` nor tab-like characters. */
  lemma JoinedCleanHasNoCrOrTab(lines: seq<string>)
    requires forall i :: 0 <= i < |lines| ==> IsCleanLine(lines[i])
    ensures NoPair(Join(lines, '\n'), IsCr, IsNewline)
    ensures NoRun(Join(lines, '\n'), IsTabLike, 1)
  {
    var j := Join(lines, '\n');
    forall k | 0 <= k < |j| ensures !IsCr(j[k]) && !IsTabLike(j[k]) {
      if IsCr(j[k]) || IsTabLike(j[k]) { JoinedCleanChars(lines, j[k]); }
    }
    NoPairFree(j, IsCr, IsNewline);
    NoRunFree(j, [], IsTabLike, 1);
    assert j + [] == j;
  }

  lemma JoinedCleanHasNoRuns(lines: seq<string>)
    requires forall i :: 0 <= i < |lines| ==> IsCleanLine(lines[i])
    ensures NoRun(Join(lines, '\n'), IsNewline, 3)
    ensures NoRun(Join(lines, '\n'), IsBlank, 2)
  {
    var j := Join(lines, '\n');
    CleanLinesHaveNoNewline(lines);
    forall i | 0 <= i < |lines|
      ensures NoPair(lines[i], IsNewline, IsNewline) && NoPair(lines[i], IsBlank, IsBlank)
    {
      NoPairFree(lines[i], IsNewline, IsNewline);
      CollapsedNoDoubleSpace(lines[i]);
    }
    JoinNoPair(lines, '\n', IsNewline);
    NoPairNoRun(j, IsNewline, 3);
    JoinNoPair(lines, '\n', IsBlank);
    NoPairNoRun(j, IsBlank, 2);
  }

  lemma JoinedCleanIsTrimmed(lines: seq<string>)
    requires lines != [] && forall i :: 0 <= i < |lines| ==> IsCleanLine(lines[i])
    ensures IsTrimmed(Join(lines, '\n'))
  {
    var first, last := lines[0], lines[|lines| - 1];
    assert first != [] && IsTrimmed(first) by { assert IsCleanLine(first); }
    assert last != [] && IsTrimmed(last) by { assert IsCleanLine(last); }
    JoinTrimmed(lines, '\n');
  }

  /** Text joined from parts is trimmed when its first part starts, and its last part ends, with
      something other than white space. */
  lemma JoinTrimmed(parts: seq<string>, sep: char)
    requires parts != [] && parts[0] != [] && parts[|parts| - 1] != []
    requires IsTrimmed(parts[0]) && IsTrimmed(parts[|parts| - 1])
    ensures IsTrimmed(Join(parts, sep))
  {
    var j, first, last := Join(parts, sep), parts[0], parts[|parts| - 1];
    JoinEnds(parts, sep);
    assert j[0] == first[0];
    assert j[|j| - 1] == last[|last| - 1] by {
      assert j[|j| - |last|..][|last| - 1] == last[|last| - 1];
    }
  }

  /** Clean lines joined by newlines read back as the same lines. */
  lemma CleanTextIsFixed(lines: seq<string>)
    requires forall i :: 0 <= i < |lines| ==> IsCleanLine(lines[i])
    ensures CleanHebrewWorksheetText(Join(lines, '\n')) == lines
  {
    if lines == [] {
      CleanEmptyText();
    } else {
      JoinedCleanIsNormal(lines);
      JoinedCleanSplits(lines);
      CleanLinesFixed(lines);
    }
  }

  lemma CleanEmptyText()
    ensures CleanHebrewWorksheetText(Join([], '\n')) == []
  {
    NormalizeWhitespaceEmpty();
    EmptyPieces();
  }

  lemma NormalizeWhitespaceEmpty()
    ensures NormalizeWhitespace([]) == []
  {
    assert Passes(CrlfToLf([])) == [];
  }

  lemma EmptyPieces()
    ensures NonEmptyTrimmed(Split([], '\n')) == []
  {
    SplitEmpty('\n');
    NonEmptyTrimmedBlank();
  }

  lemma SplitEmpty(sep: char)
    ensures Split([], sep) == [[]]
  {
  }

  lemma NonEmptyTrimmedBlank()
    ensures NonEmptyTrimmed([[]]) == []
  {
    var blank: seq<string> := [[]];
    assert IsTrimmed(blank[0]);
    assert blank[1..] == [];
  }

  lemma JoinedCleanIsNormal(lines: seq<string>)
    requires lines != [] && forall i :: 0 <= i < |lines| ==> IsCleanLine(lines[i])
    ensures NormalizeWhitespace(Join(lines, '\n')) == Join(lines, '\n')
  {
    JoinedCleanHasNoCrOrTab(lines);
    JoinedCleanHasNoRuns(lines);
    JoinedCleanIsTrimmed(lines);
    NormalizeWhitespaceFixed(Join(lines, '\n'));
  }

  lemma JoinedCleanSplits(lines: seq<string>)
    requires lines != [] && forall i :: 0 <= i < |lines| ==> IsCleanLine(lines[i])
    ensures Split(Join(lines, '\n'), '\n') == lines
  {
    CleanLinesHaveNoNewline(lines);
    SplitJoin(lines, '\n');
  }

  lemma CleanLinesFixed(lines: seq<string>)
    requires forall i :: 0 <= i < |lines| ==> IsCleanLine(lines[i])
    ensures CleanLines(NonEmptyTrimmed(lines)) == lines
  {
    NonEmptyTrimmedFixed(lines);
    forall i | 0 <= i < |lines| ensures CollapseSpaces(lines[i]) == lines[i] && NotHeaderLine(lines[i]) {
      CollapseSpacesFixed(lines[i]);
    }
    MapFilterFixed(CollapseSpaces, NotHeaderLine, lines);
  }

  /** Cleaning the cleaned text, rejoined by newlines, changes nothing. */
  lemma CleanHebrewWorksheetTextIdempotent(text: string)
    ensures var lines := CleanHebrewWorksheetText(text);
      CleanHebrewWorksheetText(Join(lines, '\n')) == lines
  {
    CleanHebrewWorksheetTextShape(text);
    CleanTextIsFixed(CleanHebrewWorksheetText(text));
  }
}
