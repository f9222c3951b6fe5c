/** The command-line list arguments of the vectorisation and OCR scripts (`--pages 1,2,3`,
    `--files a.png,b.jpeg`) and the two-digit page numbers used in their file names. */
module CliArgs {
  import opened Chars
  import opened Results
  import opened Strings

  /** `parseListArg`: a missing or empty flag value gives no items; otherwise the comma-separated
      items, trimmed, with the empty ones dropped. */
  function ParseListArg(value: Option<string>): (r: seq<string>)
    ensures forall i :: 0 <= i < |r| ==> r[i] != [] && IsTrimmed(r[i])
    ensures value.None? || value.value == [] ==> r == []
  {
    if value.None? || value.value == [] then [] else NonEmptyTrimmed(Split(value.value, ','))
  }

  /** Items written with commas between them are read back one for one, in order. */
  lemma ParseListArgRoundTrip(items: seq<string>)
    requires forall i :: 0 <= i < |items| ==> items[i] != [] && IsTrimmed(items[i]) && ',' !in items[i]
    ensures ParseListArg(Some(Join(items, ','))) == items
  {
    if items != [] {
      JoinEnds(items, ',');
      SplitJoin(items, ',');
      NonEmptyTrimmedFixed(items);
    }
  }

  /** Each item read with `parseInt` and kept when it is a positive number. An item with no
      digits after its optional sign reads as `NaN` and is dropped; digit runs are read as exact
      whole numbers. */
  function PositiveInts(items: seq<string>): (r: seq<int>)
    ensures |r| <= |items|
    ensures forall i :: 0 <= i < |r| ==> r[i] > 0
  {
    if items == [] then []
    else
      var rest := PositiveInts(items[1..]);
      match ParseInt(items[0])
      case Some(n) => if n > 0 then [n] + rest else rest
      case None => rest
  }

  /** `parsePagesArg`: the comma-separated items, trimmed, non-empty, read with `parseInt`, and
      kept when positive. The first three steps are those of `parseListArg`. */
  function ParsePagesArg(value: Option<string>): (r: seq<int>)
    ensures forall i :: 0 <= i < |r| ==> r[i] > 0
    ensures value.None? || value.value == [] ==> r == []
  {
    PositiveInts(ParseListArg(value))
  }

  lemma {:induction false} PositiveIntsOfDecimals(ns: seq<nat>)
    requires forall i :: 0 <= i < |ns| ==> ns[i] > 0
    ensures PositiveInts(Decimals(ns)) == ns
  {
    if ns != [] {
      DecimalsCons(ns);
      PositiveIntsOfDecimals(ns[1..]);
    }
  }

  lemma DecimalsCons(ns: seq<nat>)
    requires ns != [] && ns[0] > 0
    ensures PositiveInts(Decimals(ns)) == [ns[0]] + PositiveInts(Decimals(ns[1..]))
  {
    var items := Decimals(ns);
    DecimalReads(ns[0]);
    PositiveIntsCons(items, ns[0]);
    DecimalsTail(ns);
  }

  lemma DecimalReads(n: nat)
    ensures ParseInt(NatToString(n)) == Some(n)
  {
    ParseIntOfNatToString(n, []);
    assert NatToString(n) + [] == NatToString(n);
  }

  lemma DecimalsTail(ns: seq<nat>)
    requires ns != []
    ensures Decimals(ns)[1..] == Decimals(ns[1..])
  {
  }

  /** A first item that reads as a positive number is kept in front. */
  lemma PositiveIntsCons(items: seq<string>, n: int)
    requires items != [] && ParseInt(items[0]) == Some(n) && n > 0
    ensures PositiveInts(items) == [n] + PositiveInts(items[1..])
  {
  }

  /** Positive page numbers written as `1,2,3` are read back one for one, in order. */
  lemma ParsePagesArgRoundTrip(ns: seq<nat>)
    requires forall i :: 0 <= i < |ns| ==> ns[i] > 0
    ensures ParsePagesArg(Some(Join(Decimals(ns), ','))) == ns
  {
    var items := Decimals(ns);
    forall i | 0 <= i < |items|
      ensures items[i] != [] && IsTrimmed(items[i]) && ',' !in items[i]
    {
      var d := items[i];
      assert !IsSpace(d[0]) && !IsSpace(d[|d| - 1]);
      assert ',' !in d by {
        forall k | 0 <= k < |d| ensures d[k] != ',' { assert IsDigit(d[k]); }
      }
    }
    ParseListArgRoundTrip(items);
    PositiveIntsOfDecimals(ns);
  }

  /** Items that do not read as a positive integer are skipped without disturbing the others. */
  lemma PositiveIntsSkips(a: seq<string>, junk: string, b: seq<string>)
    requires match ParseInt(junk) case Some(n) => n <= 0 case None => true
    ensures PositiveInts(a + [junk] + b) == PositiveInts(a) + PositiveInts(b)
  {
    var tail := [junk] + b;
    assert a + [junk] + b == a + tail;
    assert tail[0] == junk && tail[1..] == b;
    assert PositiveInts(tail) == PositiveInts(b);
    PositiveIntsAppend(a, tail);
  }

  lemma {:induction false} PositiveIntsAppend(a: seq<string>, b: seq<string>)
    ensures PositiveInts(a + b) == PositiveInts(a) + PositiveInts(b)
  {
    if a != [] {
      assert (a + b)[1..] == a[1..] + b;
      PositiveIntsAppend(a[1..], b);
    } else {
      assert a + b == b;
    }
  }

  // ----- pad2 -------------------------------------------------------------------------------

  /** `s.padStart(len, c)`. */
  function PadStart(s: string, len: nat, c: char): (r: string)
    ensures |r| == if |s| >= len then |s| else len
  {
    if |s| >= len then s else seq(len - |s|, _ => c) + s
  }

  /** `pad2`: `String(n).padStart(2, "0")`, with `String(n)` as plain decimal digits. */
  function Pad2(n: nat): (r: string)
    ensures |r| >= 2 && AllDigits(r)
    ensures n < 10 ==> r == ['0', DigitChar(n)]
    ensures n >= 10 ==> r == NatToString(n)
  {
    var d := NatToString(n);
    var r := PadStart(d, 2, '0');
    assert n < 10 ==> r == ['0'] + d;
    r
  }

  /** A leading zero does not change the value of a digit string. */
  lemma {:induction false} DigitsValueLeadingZero(d: string)
    requires AllDigits(d)
    ensures AllDigits(['0'] + d) && DigitsValue(['0'] + d) == DigitsValue(d)
    decreases |d|
  {
    var z := ['0'] + d;
    if d != [] {
      assert z[..|z| - 1] == ['0'] + d[..|d| - 1];
      DigitsValueLeadingZero(d[..|d| - 1]);
    } else {
      assert z[..|z| - 1] == [];
    }
  }

  /** The padded form still denotes `n`. */
  lemma Pad2Value(n: nat)
    ensures DigitsValue(Pad2(n)) == n
    ensures ParseInt(Pad2(n)) == Some(n)
  {
    DigitsValueOfNatToString(n);
    if n < 10 {
      DigitsValueLeadingZero(NatToString(n));
      assert Pad2(n) == ['0'] + NatToString(n);
      var p := Pad2(n);
      assert !IsSpace(p[0]) && p[0] != '-' && p[0] != '+';
      assert TrimStart(p) == p;
      DigitRunOfDigits(p, []);
      assert p + [] == p;
    } else {
      ParseIntOfNatToString(n, []);
      assert NatToString(n) + [] == NatToString(n);
    }
  }
}
