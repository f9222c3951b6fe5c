/** The ECMAScript string operations the scripts rely on, over `string` = `seq<char>`. */
module Strings {
  import opened Chars
  import opened Results

  predicate StartsWith(s: string, prefix: string) {
    |prefix| <= |s| && s[..|prefix|] == prefix
  }

  // ----- small facts about concatenation and slices -------------------------------------------

  lemma ConcatKeepsOut(a: string, b: string, c: char)
    requires c !in a && c !in b
    ensures c !in a + b
  {
  }

  lemma AppendAssoc(a: string, b: string, c: string)
    ensures a + b + c == a + (b + c)
  {
  }

  lemma SuffixAfter(a: string, y: string, b: string)
    requires b == a + y
    ensures b[|a|..] == y
  {
  }

  /** A character missing from a text is missing from every slice of it. */
  lemma SliceKeepsOut(u: string, a: nat, b: nat, c: char)
    requires a <= b <= |u| && c !in u
    ensures c !in u[a..b]
  {
  }

  /** A text starting with a non-empty token starts with the token's first character. */
  lemma StartsWithHead(v: string, tok: string)
    requires tok != [] && StartsWith(v, tok)
    ensures v[0] == tok[0]
  {
    assert v[0] == v[..|tok|][0];
  }

  /** A text whose first character differs from a token's does not start with it. */
  lemma NotStartsWith(s: string, tok: string)
    requires tok != [] && s != [] && s[0] != tok[0]
    ensures !StartsWith(s, tok)
  {
    if StartsWith(s, tok) {
      StartsWithHead(s, tok);
    }
  }

  /** Whether `pat` occurs in `s` starting at position `k`. */
  predicate At(s: string, k: nat, pat: string) {
    k + |pat| <= |s| && s[k..k + |pat|] == pat
  }

  /** `s.indexOf(pat, from)`: the first occurrence of `pat` at or after `from`. */
  function Find(s: string, pat: string, from: nat): (r: Option<nat>)
    ensures r.Some? ==> from <= r.value && At(s, r.value, pat)
    ensures r.Some? ==> forall k :: from <= k < r.value ==> !At(s, k, pat)
    ensures r.None? ==> forall k :: from <= k ==> !At(s, k, pat)
    decreases |s| - from
  {
    if from + |pat| > |s| then None
    else if At(s, from, pat) then Some(from)
    else Find(s, pat, from + 1)
  }

  /** The last occurrence of `pat` that starts below `bound`. */
  function FindLastBelow(s: string, pat: string, bound: nat): (r: Option<nat>)
    ensures r.Some? ==> r.value < bound && At(s, r.value, pat)
    ensures r.Some? ==> forall k :: r.value < k < bound ==> !At(s, k, pat)
    ensures r.None? ==> forall k: nat :: k < bound ==> !At(s, k, pat)
  {
    if bound == 0 then None
    else if At(s, bound - 1, pat) then Some(bound - 1)
    else FindLastBelow(s, pat, bound - 1)
  }

  /** `s.lastIndexOf(pat)`. */
  function FindLast(s: string, pat: string): (r: Option<nat>)
    ensures r.Some? ==> At(s, r.value, pat) && forall k :: r.value < k ==> !At(s, k, pat)
    ensures r.None? ==> forall k :: !At(s, k, pat)
  {
    FindLastBelow(s, pat, |s| + 1)
  }

  /** The length of the white-space run that starts at `k`. */
  function SpaceRunAt(s: string, k: nat): (w: nat)
    requires k <= |s|
    ensures k + w <= |s|
    decreases |s| - k
  {
    if k < |s| && IsSpace(s[k]) then 1 + SpaceRunAt(s, k + 1) else 0
  }

  /** The run is all white space, and is followed by the end or by something else. */
  lemma {:induction false} SpaceRunAtSpaces(s: string, k: nat)
    requires k <= |s|
    ensures forall i :: k <= i < k + SpaceRunAt(s, k) ==> IsSpace(s[i])
    ensures k + SpaceRunAt(s, k) == |s| || !IsSpace(s[k + SpaceRunAt(s, k)])
    decreases |s| - k
  {
    if k < |s| && IsSpace(s[k]) {
      SpaceRunAtSpaces(s, k + 1);
    }
  }

  /** A white-space run followed by the end or by something else is the run `SpaceRunAt` finds. */
  lemma {:induction false} SpaceRunAtIs(s: string, k: nat, w: nat)
    requires k + w <= |s|
    requires forall i :: k <= i < k + w ==> IsSpace(s[i])
    requires k + w == |s| || !IsSpace(s[k + w])
    ensures SpaceRunAt(s, k) == w
    decreases w
  {
    if w > 0 {
      assert IsSpace(s[k]);
      SpaceRunAtIs(s, k + 1, w - 1);
    }
  }

  /** Whether `lit` (lower-case ASCII) occurs at `k` under the `iu` regular-expression flags. */
  predicate AtCI(s: string, k: nat, lit: string) {
    k + |lit| <= |s| && forall j :: 0 <= j < |lit| ==> FoldsTo(s[k + j], lit[j])
  }

  /** The first case-insensitive occurrence of `lit` at or after `from`. */
  function FindCI(s: string, lit: string, from: nat): (r: Option<nat>)
    ensures r.Some? ==> from <= r.value && AtCI(s, r.value, lit)
    ensures r.Some? ==> forall k :: from <= k < r.value ==> !AtCI(s, k, lit)
    ensures r.None? ==> forall k :: from <= k ==> !AtCI(s, k, lit)
    decreases |s| - from
  {
    if from + |lit| > |s| then None
    else if AtCI(s, from, lit) then Some(from)
    else FindCI(s, lit, from + 1)
  }

  /** The leftmost position in `[from, bound)` where the matcher `f` succeeds, with its result:
      how a regular expression without the `g` flag (or the next `exec` of one with it) picks
      its match. */
  function Leftmost<T>(f: nat -> Option<T>, from: nat, bound: nat): (r: Option<(nat, T)>)
    ensures r.Some? ==> from <= r.value.0 < bound && f(r.value.0) == Some(r.value.1)
    ensures r.Some? ==> forall p :: from <= p < r.value.0 ==> f(p).None?
    ensures r.None? ==> forall p :: from <= p < bound ==> f(p).None?
    decreases bound - from
  {
    if from >= bound then None
    else match f(from)
      case Some(m) => Some((from, m))
      case None => Leftmost(f, from + 1, bound)
  }

  /** An occurrence of `u + v` is an occurrence of `u` followed by one of `v`. */
  lemma AtAppend(s: string, k: nat, u: string, v: string)
    requires At(s, k, u + v)
    ensures At(s, k, u) && At(s, k + |u|, v)
  {
    var w := s[k..k + |u| + |v|];
    assert w[..|u|] == u && w[|u|..] == v;
    assert s[k..k + |u|] == w[..|u|];
    assert s[k + |u|..k + |u| + |v|] == w[|u|..];
  }

  lemma AtCharIs(s: string, k: nat, u: string, j: nat)
    requires At(s, k, u) && j < |u|
    ensures s[k + j] == u[j]
  {
    assert s[k..k + |u|][j] == s[k + j];
  }

  /** Only `c` itself sits where an occurrence of a text without `c` is. */
  lemma AtKeepsOut(s: string, k: nat, u: string, c: char, p: nat)
    requires At(s, k, u) && c !in u && k <= p < k + |u|
    ensures s[p] != c
  {
    AtCharIs(s, k, u, p - k);
  }

  /** An exact occurrence is also a case-insensitive one. */
  lemma AtIsAtCI(s: string, k: nat, lit: string)
    requires At(s, k, lit)
    ensures AtCI(s, k, lit)
  {
    forall j | 0 <= j < |lit| ensures FoldsTo(s[k + j], lit[j]) {
      AtCharIs(s, k, lit, j);
    }
  }

  /** A character that does not fold onto the literal's rules out an occurrence there. */
  lemma NotAtCI(s: string, k: nat, lit: string, j: nat)
    requires j < |lit| && k + j < |s| && !FoldsTo(s[k + j], lit[j])
    ensures !AtCI(s, k, lit)
  {
  }

  /** The occurrence at `e`, with none between `from` and `e`, is the one `Find` returns. */
  lemma FindIs(s: string, pat: string, from: nat, e: nat)
    requires from <= e && At(s, e, pat)
    requires forall k :: from <= k < e ==> !At(s, k, pat)
    ensures Find(s, pat, from) == Some(e)
  {
  }

  lemma FindCIIs(s: string, lit: string, from: nat, e: nat)
    requires from <= e && AtCI(s, e, lit)
    requires forall k :: from <= k < e ==> !AtCI(s, k, lit)
    ensures FindCI(s, lit, from) == Some(e)
  {
  }

  /** The first position where the matcher succeeds is the one `Leftmost` returns. */
  lemma LeftmostIs<T>(f: nat -> Option<T>, from: nat, bound: nat, k: nat, m: T)
    requires from <= k < bound && f(k) == Some(m)
    requires forall p :: from <= p < k ==> f(p).None?
    ensures Leftmost(f, from, bound) == Some((k, m))
  {
  }

  // ----- trim -----------------------------------------------------------------------------

  predicate IsTrimmed(s: string) {
    s == [] || (!IsSpace(s[0]) && !IsSpace(s[|s| - 1]))
  }

  /** `s.trimStart()`. */
  function TrimStart(s: string): (r: string)
    ensures |r| <= |s| && r == s[|s| - |r|..]
    ensures forall i :: 0 <= i < |s| - |r| ==> IsSpace(s[i])
    ensures r == [] || !IsSpace(r[0])
  {
    if |s| > 0 && IsSpace(s[0]) then TrimStart(s[1..]) else s
  }

  /** `s.trimEnd()`. */
  function TrimEnd(s: string): (r: string)
    ensures |r| <= |s| && r == s[..|r|]
    ensures forall i :: |r| <= i < |s| ==> IsSpace(s[i])
    ensures r == [] || !IsSpace(r[|r| - 1])
  {
    if |s| > 0 && IsSpace(s[|s| - 1]) then TrimEnd(s[..|s| - 1]) else s
  }

  /** Where `Trim(s)` starts inside `s`. */
  function TrimOffset(s: string): nat
    ensures TrimOffset(s) <= |s|
  {
    |s| - |TrimStart(s)|
  }

  /** `s.trim()`: the slice of `s` left after dropping white space at both ends. */
  function Trim(s: string): (r: string)
    ensures IsTrimmed(r)
    ensures IsSliceAt(r, s, TrimOffset(s))
    ensures forall i :: 0 <= i < TrimOffset(s) ==> IsSpace(s[i])
    ensures forall i :: TrimOffset(s) + |r| <= i < |s| ==> IsSpace(s[i])
    ensures IsTrimmed(s) ==> r == s
  {
    var t := TrimStart(s);
    var r := TrimEnd(t);
    TrimmedEnds(s, t, r);
    PrefixOfSuffix(s, TrimOffset(s), t, r);
    TrimTail(s, t, r);
    TrimOfTrimmed(s, t, r);
    r
  }

  /** The facts `Trim` promises, each about `TrimEnd(TrimStart(s))` taken as a value. */
  lemma TrimmedEnds(s: string, t: string, r: string)
    requires t == TrimStart(s) && r == TrimEnd(t)
    ensures IsTrimmed(r)
  {
    if r != [] {
      assert r[0] == t[0];
    }
  }

  lemma TrimTail(s: string, t: string, r: string)
    requires t == TrimStart(s) && r == TrimEnd(t)
    ensures forall i :: TrimOffset(s) + |r| <= i < |s| ==> IsSpace(s[i])
  {
    var o := TrimOffset(s);
    forall i | o + |r| <= i < |s|
      ensures IsSpace(s[i])
    {
      SuffixAt(s, o, t, i);
    }
  }

  /** `r` is the slice of `s` from `o` on. */
  predicate IsSliceAt(r: string, s: string, o: nat) {
    o + |r| <= |s| && r == s[o..o + |r|]
  }

  /** A prefix of a suffix is a slice. */
  lemma PrefixOfSuffix(s: string, o: nat, t: string, r: string)
    requires o <= |s| && t == s[o..] && |r| <= |t| && r == t[..|r|]
    ensures IsSliceAt(r, s, o)
  {
    assert forall k :: 0 <= k < |r| ==> r[k] == t[k] == s[o + k];
  }

  lemma SuffixAt(s: string, o: nat, t: string, i: nat)
    requires o <= i < |s| && t == s[o..]
    ensures i - o < |t| && s[i] == t[i - o]
  {
  }

  lemma TrimOfTrimmed(s: string, t: string, r: string)
    requires t == TrimStart(s) && r == TrimEnd(t)
    ensures IsTrimmed(s) ==> r == s
  {
  }

  // ----- white-space runs ------------------------------------------------------------------

  /** A character of `s` that is not white space survives trimming, at its shifted place. */
  lemma TrimKeepsNonSpace(s: string, i: nat)
    requires i < |s| && !IsSpace(s[i])
    ensures TrimOffset(s) <= i < TrimOffset(s) + |Trim(s)|
    ensures Trim(s)[i - TrimOffset(s)] == s[i]
  {
    SliceAtIndex(Trim(s), s, TrimOffset(s), i - TrimOffset(s));
  }

  /** Each character of `Trim(s)` is the one at the shifted place in `s`. */
  lemma TrimCharAt(s: string, j: nat)
    requires j < |Trim(s)|
    ensures TrimOffset(s) + j < |s| && Trim(s)[j] == s[TrimOffset(s) + j]
  {
    SliceAtIndex(Trim(s), s, TrimOffset(s), j);
  }

  lemma SliceAtIndex(r: string, s: string, o: nat, j: nat)
    requires IsSliceAt(r, s, o) && j < |r|
    ensures o + j < |s| && r[j] == s[o + j]
  {
    assert r[j] == s[o..o + |r|][j];
  }

  /** Every white-space character is a plain space with no white space right after it. */
  predicate IsCollapsed(s: string) {
    && (forall i :: 0 <= i < |s| && IsSpace(s[i]) ==> s[i] == ' ')
    && (forall i, j :: 0 <= i < |s| && 0 <= j < |s| && j == i + 1 ==> !(IsSpace(s[i]) && IsSpace(s[j])))
  }

  /** `s.replace(/\s+/g, ' ')`: each maximal white-space run becomes one space. */
  function CollapseSpaces(s: string): (r: string)
    ensures IsCollapsed(r)
    ensures |r| <= |s|
    ensures |r| == 0 <==> |s| == 0
    ensures s != [] ==> (IsSpace(r[0]) <==> IsSpace(s[0]))
    decreases |s|
  {
    if s == [] then []
    else if IsSpace(s[0]) then [' '] + CollapseSpaces(TrimStart(s))
    else [s[0]] + CollapseSpaces(s[1..])
  }

  /** Collapsing keeps whether the text ends in white space. */
  lemma {:induction false} CollapseSpacesLast(s: string)
    requires s != []
    ensures IsSpace(CollapseSpaces(s)[|CollapseSpaces(s)| - 1]) <==> IsSpace(s[|s| - 1])
    decreases |s|
  {
    if IsSpace(s[0]) {
      var t := TrimStart(s);
      if t != [] {
        CollapseSpacesLast(t);
        assert t[|t| - 1] == s[|s| - 1];
      }
    } else if |s| > 1 {
      CollapseSpacesLast(s[1..]);
    }
  }

  /** A trimmed string stays trimmed when its white-space runs are collapsed. */
  lemma CollapseSpacesOfTrimmed(s: string)
    requires IsTrimmed(s)
    ensures IsNormalized(CollapseSpaces(s))
  {
    if s != [] {
      CollapseSpacesLast(s);
    }
  }

  /** Text that is already collapsed comes back unchanged. */
  lemma {:induction false} CollapseSpacesFixed(s: string)
    requires IsCollapsed(s)
    ensures CollapseSpaces(s) == s
    decreases |s|
  {
    if s != [] {
      CollapsedSlice(s, 1, |s|);
      CollapseSpacesFixed(s[1..]);
      CollapsedHead(s);
      CollapseCons(s);
      HeadTail(s);
    }
  }

  lemma CollapsedHead(s: string)
    requires IsCollapsed(s) && s != []
    ensures IsSpace(s[0]) ==> s[0] == ' ' && (|s| == 1 || !IsSpace(s[1]))
  {
  }

  lemma HeadTail(s: string)
    requires s != []
    ensures [s[0]] + s[1..] == s
  {
  }

  /** A character with no white space right after it is kept as the first character. */
  lemma CollapseCons(s: string)
    requires s != [] && (IsSpace(s[0]) ==> s[0] == ' ' && (|s| == 1 || !IsSpace(s[1])))
    ensures CollapseSpaces(s) == [s[0]] + CollapseSpaces(s[1..])
  {
    if IsSpace(s[0]) {
      assert TrimStart(s) == TrimStart(s[1..]);
    }
  }

  /** Collapsing white space introduces no character other than the plain space. */
  lemma {:induction false} CollapseSpacesKeepsAbsent(s: string, c: char)
    requires c !in s && c != ' '
    ensures c !in CollapseSpaces(s)
    decreases |s|
  {
    if s != [] {
      if IsSpace(s[0]) {
        var t := TrimStart(s);
        assert c !in t by { assert t == s[|s| - |t|..]; }
        CollapseSpacesKeepsAbsent(t, c);
      } else {
        CollapseSpacesKeepsAbsent(s[1..], c);
      }
    }
  }

  /** A slice of a collapsed string is collapsed. */
  lemma CollapsedSlice(s: string, a: nat, b: nat)
    requires IsCollapsed(s) && a <= b <= |s|
    ensures IsCollapsed(s[a..b])
  {
    var t := s[a..b];
    forall i | 0 <= i < |t| ensures t[i] == s[a + i] { }
  }

  /** No white space at the ends and no white-space runs: what `stripHtml` produces. */
  predicate IsNormalized(s: string) {
    IsTrimmed(s) && IsCollapsed(s)
  }

  /** `s.replace(/\s+/g, ' ').trim()`. */
  function NormalizeSpaces(s: string): (r: string)
    ensures IsNormalized(r)
  {
    TrimKeepsCollapsed(CollapseSpaces(s));
    Trim(CollapseSpaces(s))
  }

  lemma TrimKeepsCollapsed(s: string)
    requires IsCollapsed(s)
    ensures IsCollapsed(Trim(s))
  {
    var u := TrimStart(s);
    CollapsedSliceIs(s, |s| - |u|, |s|, u);
    CollapsedSliceIs(u, 0, |TrimEnd(u)|, TrimEnd(u));
  }

  /** The same, for a slice given by its value. */
  lemma CollapsedSliceIs(s: string, a: nat, b: nat, t: string)
    requires IsCollapsed(s) && a <= b <= |s| && t == s[a..b]
    ensures IsCollapsed(t)
  {
    CollapsedSlice(s, a, b);
  }

  lemma NormalizedIsFixed(s: string)
    requires IsNormalized(s)
    ensures NormalizeSpaces(s) == s
  {
    CollapseSpacesFixed(s);
  }

  // ----- split and join --------------------------------------------------------------------

  /** `parts.join(sep)`. */
  function Join(parts: seq<string>, sep: char): string
  {
    if |parts| == 0 then []
    else if |parts| == 1 then parts[0]
    else parts[0] + [sep] + Join(parts[1..], sep)
  }

  /** The first part, the separator, then the rest joined. */
  lemma JoinCons(parts: seq<string>, sep: char)
    requires |parts| > 1
    ensures Join(parts, sep) == parts[0] + ([sep] + Join(parts[1..], sep))
  {
  }

  /** Joined text starts with the first part and ends with the last. */
  lemma {:induction false} JoinEnds(parts: seq<string>, sep: char)
    requires parts != []
    ensures parts[0] <= Join(parts, sep)
    ensures |parts[|parts| - 1]| <= |Join(parts, sep)|
    ensures Join(parts, sep)[|Join(parts, sep)| - |parts[|parts| - 1]|..] == parts[|parts| - 1]
  {
    if |parts| > 1 {
      JoinEnds(parts[1..], sep);
    }
  }

  /** Every character of joined text is the separator or a character of one of the parts. */
  lemma {:induction false} JoinChars(parts: seq<string>, sep: char, c: char)
    requires c in Join(parts, sep) && c != sep
    ensures exists i :: 0 <= i < |parts| && c in parts[i]
  {
    if |parts| > 1 {
      var rest := Join(parts[1..], sep);
      if c !in parts[0] {
        assert c in rest;
        JoinChars(parts[1..], sep, c);
        var i :| 0 <= i < |parts[1..]| && c in parts[1..][i];
        assert c in parts[i + 1];
      }
    }
  }

  /** `pieces.map((s) => s.trim()).filter(Boolean)`: the pieces trimmed, empty ones dropped,
      order kept. */
  function NonEmptyTrimmed(pieces: seq<string>): (r: seq<string>)
    ensures |r| <= |pieces|
    ensures forall i :: 0 <= i < |r| ==> r[i] != [] && IsTrimmed(r[i])
  {
    if pieces == [] then []
    else
      var t := Trim(pieces[0]);
      (if t == [] then [] else [t]) + NonEmptyTrimmed(pieces[1..])
  }

  /** Pieces that are already trimmed and non-empty pass through unchanged. */
  lemma {:induction false} NonEmptyTrimmedFixed(pieces: seq<string>)
    requires forall i :: 0 <= i < |pieces| ==> pieces[i] != [] && IsTrimmed(pieces[i])
    ensures NonEmptyTrimmed(pieces) == pieces
  {
    if pieces != [] {
      assert Trim(pieces[0]) == pieces[0] by { assert IsTrimmed(pieces[0]); }
      NonEmptyTrimmedFixed(pieces[1..]);
      assert pieces == [pieces[0]] + pieces[1..];
    }
  }

  /** The first index of `c` in `s`. */
  function IndexOfChar(s: string, c: char): (k: nat)
    requires c in s
    ensures k < |s| && s[k] == c && c !in s[..k]
  {
    if s[0] == c then 0
    else
      assert c in s[1..] by { var i :| 0 <= i < |s| && s[i] == c; assert s[1..][i - 1] == c; }
      1 + IndexOfChar(s[1..], c)
  }

  /** The first occurrence is the only position with `c` and no `c` before it. */
  lemma IndexOfCharIs(s: string, c: char, k: nat)
    requires k < |s| && s[k] == c && c !in s[..k]
    ensures c in s && IndexOfChar(s, c) == k
  {

  }

  /** `s.split(sep)` for a one-character separator: the pieces between separators, always at
      least one, none containing the separator, and joining back to `s`. */
  /** `s.lastIndexOf(c)`, `None` for -1. */
  function LastIndexOfChar(s: string, c: char): (r: Option<nat>)
    ensures r.Some? ==> r.value < |s| && s[r.value] == c && c !in s[r.value + 1..]
    ensures r.None? ==> c !in s
    decreases |s|
  {
    if s == [] then None
    else if s[|s| - 1] == c then Some(|s| - 1)
    else
      match LastIndexOfChar(s[..|s| - 1], c)
      case None => None
      case Some(k) =>
        assert s[k + 1..] == s[..|s| - 1][k + 1..] + [s[|s| - 1]];
        Some(k)
  }

  /** Appending text without `c` leaves the last `c` where it was. */
  lemma {:induction false} LastIndexOfCharAppend(a: string, b: string, c: char)
    requires c !in b
    ensures LastIndexOfChar(a + b, c) == LastIndexOfChar(a, c)
    decreases |b|
  {
    if b != [] {
      var ab := a + b;
      assert ab[..|ab| - 1] == a + b[..|b| - 1];
      LastIndexOfCharAppend(a, b[..|b| - 1], c);
      assert ab[|ab| - 1] == b[|b| - 1];
    } else {
      assert a + b == a;
    }
  }

  function Split(s: string, sep: char): (parts: seq<string>)
    ensures |parts| >= 1
    ensures forall i :: 0 <= i < |parts| ==> sep !in parts[i]
    ensures Join(parts, sep) == s
    decreases |s|
  {
    if sep !in s then [s]
    else
      var k := IndexOfChar(s, sep);
      var rest := Split(s[k + 1..], sep);
      assert s == s[..k] + [sep] + s[k + 1..];
      [s[..k]] + rest
  }

  /** Splitting what was joined gives the pieces back, when no piece holds the separator. */
  lemma {:induction false} SplitJoin(parts: seq<string>, sep: char)
    requires |parts| >= 1
    requires forall i :: 0 <= i < |parts| ==> sep !in parts[i]
    ensures Split(Join(parts, sep), sep) == parts
  {
    if |parts| > 1 {
      var b := Join(parts[1..], sep);
      JoinCons(parts, sep);
      AppendAssoc(parts[0], [sep], b);
      SplitAt(Join(parts, sep), sep, parts[0], b);
      SplitJoin(parts[1..], sep);
    }
  }

  /** Splitting at the first separator. */
  lemma SplitAt(s: string, sep: char, a: string, b: string)
    requires s == a + [sep] + b && sep !in a
    ensures Split(s, sep) == [a] + Split(b, sep)
  {
    assert s[..|a|] == a;
    IndexOfCharIs(s, sep, |a|);
    assert s[|a| + 1..] == b;
  }

  // ----- decimal numbers -------------------------------------------------------------------

  /** Joining two non-empty lists puts one separator between their joins. */
  lemma {:induction false} JoinAppend(a: seq<string>, b: seq<string>, sep: char)
    requires a != [] && b != []
    ensures Join(a + b, sep) == Join(a, sep) + [sep] + Join(b, sep)
    decreases |a|
  {
    if |a| == 1 {
      assert (a + b)[1..] == b;
    } else {
      assert (a + b)[1..] == a[1..] + b;
      JoinAppend(a[1..], b, sep);
    }
  }

  /** Splitting a joined list followed by a separator and more text gives the list back,
      followed by the pieces of that text. */
  lemma SplitAfterJoin(parts: seq<string>, sep: char, y: string)
    requires |parts| >= 1
    requires forall i :: 0 <= i < |parts| ==> sep !in parts[i]
    ensures Split(Join(parts, sep) + [sep] + y, sep) == parts + Split(y, sep)
  {
    var all := parts + Split(y, sep);
    JoinAppend(parts, Split(y, sep), sep);
    SplitJoin(all, sep);
  }

  predicate AllDigits(s: string) {
    forall i :: 0 <= i < |s| ==> IsDigit(s[i])
  }

  /** `String(n)` for a non-negative integer: decimal digits, no leading zero. */
  function NatToString(n: nat): (s: string)
    ensures |s| >= 1 && AllDigits(s)
    ensures s[0] == '0' ==> n == 0 && s == "0"
    ensures n < 10 <==> |s| == 1
    decreases n
  {
    if n < 10 then [DigitChar(n)]
    else NatToString(n / 10) + [DigitChar(n % 10)]
  }

  /** The value of a string of decimal digits (`Number("042")` is 42). */
  function DigitsValue(s: string): nat
    requires AllDigits(s)
  {
    if s == [] then 0 else DigitsValue(s[..|s| - 1]) * 10 + DigitValue(s[|s| - 1])
  }

  lemma {:induction false} DigitsValueOfNatToString(n: nat)
    ensures DigitsValue(NatToString(n)) == n
    decreases n
  {
    if n >= 10 {
      var s := NatToString(n);
      assert s[..|s| - 1] == NatToString(n / 10);
      DigitsValueOfNatToString(n / 10);
    }
  }

  /** The longest prefix of `s` made of decimal digits. */
  function DigitRun(s: string): (d: string)
    ensures |d| <= |s| && d == s[..|d|] && AllDigits(d)
    ensures |d| < |s| ==> !IsDigit(s[|d|])
  {
    if s != [] && IsDigit(s[0]) then [s[0]] + DigitRun(s[1..]) else []
  }

  /** `Number.parseInt(s, 10)`: leading white space is skipped, one optional sign is read, then
      the longest run of decimal digits; with no digit the result is `NaN`, here `None`. The run is read as an exact whole number:
      the rounding above 2^53 and the `Infinity` above about 1.8e308 are not modelled. */
  function ParseInt(s: string): (r: Option<int>)
  {
    var t := TrimStart(s);
    var signed := |t| > 0 && (t[0] == '-' || t[0] == '+');
    var body := if signed then t[1..] else t;
    var d := DigitRun(body);
    if d == [] then None
    else
      var v: int := if signed && t[0] == '-' then 0 - DigitsValue(d) as int else DigitsValue(d);
      Some(v)
  }

  /** The decimal forms of the numbers, as `String(n)` writes them. */
  function Decimals(ns: seq<nat>): (r: seq<string>)
    ensures |r| == |ns|
    ensures forall i :: 0 <= i < |ns| ==> r[i] == NatToString(ns[i])
  {
    seq(|ns|, i requires 0 <= i < |ns| => NatToString(ns[i]))
  }

  /** `parseInt` reads back what `String` wrote, whatever non-digit text follows it. */
  lemma ParseIntOfNatToString(n: nat, rest: string)
    requires rest == [] || !IsDigit(rest[0])
    ensures ParseInt(NatToString(n) + rest) == Some(n)
  {
    var d := NatToString(n);
    var s := d + rest;
    assert s[0] == d[0] && IsDigit(s[0]);
    assert !IsSpace(s[0]);
    assert TrimStart(s) == s;
    assert !(s[0] == '-' || s[0] == '+');
    DigitRunOfDigits(d, rest);
    DigitsValueOfNatToString(n);
  }

  lemma {:induction false} DigitRunOfDigits(d: string, rest: string)
    requires AllDigits(d)
    requires rest == [] || !IsDigit(rest[0])
    ensures DigitRun(d + rest) == d
    decreases |d|
  {
    if d == [] {
      assert d + rest == rest;
    } else {
      assert (d + rest)[1..] == d[1..] + rest;
      DigitRunOfDigits(d[1..], rest);
    }
  }
}
