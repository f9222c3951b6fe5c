/** Removing the white `<path>` elements that the image tracer emits (`stripWhitePaths`): the page
    script removes paths filled exactly `rgb(255,255,255)`, the figure script every channel
    between 248 and 255. Each script makes two global `replace` passes, first for paired
    `<path …></path>` elements, then for self-closing `<path …/>` ones, and each removal also takes
    the white space that follows the element. */
module WhitePaths {
  import opened Chars
  import opened Results
  import opened Strings

  /** Which fills count as white. */
  datatype Palette = Exact | NearWhite

  /** The two element forms, one pass each. */
  datatype Form = Paired | SelfClosing

  /** One colour channel of three characters: `255`, or `25[0-5]|24[8-9]`. */
  predicate IsChannel(palette: Palette, c: string)
    requires |c| == 3
  {
    match palette
    case Exact => c == "255"
    case NearWhite => c[0] == '2' && ((c[1] == '5' && '0' <= c[2] <= '5') || (c[1] == '4' && '8' <= c[2] <= '9'))
  }

  /** The smallest channel value each palette accepts. */
  function Lowest(palette: Palette): nat {
    match palette
    case Exact => 255
    case NearWhite => 248
  }

  /** The 23 characters `fill="rgb(R,G,B)"` with three white channels. */
  predicate IsFill(palette: Palette, f: string) {
    && |f| == 23
    && f[..10] == "fill=\"rgb("
    && IsChannel(palette, f[10..13]) && f[13] == ','
    && IsChannel(palette, f[14..17]) && f[17] == ','
    && IsChannel(palette, f[18..21]) && f[21..] == ")\""
  }

  predicate FillAt(palette: Palette, t: string, k: nat) {
    k + 23 <= |t| && IsFill(palette, t[k..k + 23])
  }

  /** `[^>]*fill="rgb(…)"[^>]*` between `lo` and `hi`: a white fill lies wholly inside. */
  predicate FillWithin(palette: Palette, t: string, lo: nat, hi: nat) {
    exists k: nat :: lo <= k && k + 23 <= hi && FillAt(palette, t, k)
  }

  /** The first `>` at or after `k`: where `[^>]*>` started at `k` must end. */
  function TagEnd(t: string, k: nat): (r: Option<nat>)
    ensures r.Some? ==> k <= r.value < |t| && t[r.value] == '>'
    ensures r.Some? ==> forall i :: k <= i < r.value ==> t[i] != '>'
    decreases |t| - k
  {
    if k >= |t| then None
    else if t[k] == '>' then Some(k)
    else TagEnd(t, k + 1)
  }

  /** The length of the match of one pass's pattern at the start of `t`, if it matches there.
      Neither `[^>]*` can cross a `>`, so the tag ends at the first `>` after `<path`; the fill
      lies inside it; the paired form then needs `</path>` after optional white space, the
      self-closing form a `/` just before the `>`; the white space that follows is taken too. */
  function MatchLen(palette: Palette, form: Form, t: string): (r: Option<nat>)
    ensures r.Some? ==> 5 < r.value <= |t| && StartsWith(t, "<path")
  {
    if !StartsWith(t, "<path") then None
    else match TagEnd(t, 5)
      case None => None
      case Some(q) => if FillWithin(palette, t, 5, q) then AfterTag(form, t, q) else None
  }

  /** The rest of the match once the tag ends at `q`. */
  function AfterTag(form: Form, t: string, q: nat): (r: Option<nat>)
    requires 5 <= q < |t|
    ensures r.Some? ==> q < r.value <= |t|
  {
    var w := SpaceRunAt(t, q + 1);
    match form
    case Paired =>
      if At(t, q + 1 + w, "</path>") then Some(q + w + 8 + SpaceRunAt(t, q + w + 8)) else None
    case SelfClosing =>
      if t[q - 1] == '/' then Some(q + 1 + w) else None
  }

  /** `t.replace(pattern, "")` with the `g` flag: the scan tries each position in turn, drops a
      match where one starts and resumes after it, and keeps the character otherwise. */
  function RemoveAll(palette: Palette, form: Form, t: string): (r: string)
    ensures |r| <= |t|
    decreases |t|
  {
    if t == [] then []
    else match MatchLen(palette, form, t)
      case Some(n) => RemoveAll(palette, form, t[n..])
      case None => [t[0]] + RemoveAll(palette, form, t[1..])
  }

  /** `stripWhitePaths`: the paired pass, then the self-closing pass. */
  function StripWhitePaths(palette: Palette, svgInner: string): (r: string)
    ensures |r| <= |svgInner|
  {
    RemoveAll(palette, SelfClosing, RemoveAll(palette, Paired, svgInner))
  }

  // ----- channels -----------------------------------------------------------------------------

  /** A channel is three decimal digits whose value lies between the palette's lowest and 255. */
  lemma ChannelValue(palette: Palette, c: string)
    requires |c| == 3
    ensures IsChannel(palette, c) <==> AllDigits(c) && Lowest(palette) <= DigitsValue(c) <= 255
  {
    if AllDigits(c) {
      assert DigitsValue(c) == 100 * DigitValue(c[0]) + 10 * DigitValue(c[1]) + DigitValue(c[2]) by {
        var c2, c1 := c[..2], c[..1];
        assert c2[..1] == c1 && c2[1] == c[1] && c1[..0] == [] && c1[0] == c[0];
        assert DigitsValue(c1) == DigitValue(c[0]);
        assert DigitsValue(c2) == 10 * DigitValue(c[0]) + DigitValue(c[1]);
      }
      if Lowest(palette) <= DigitsValue(c) <= 255 {
        ChannelDigits(DigitValue(c[0]), DigitValue(c[1]), DigitValue(c[2]), Lowest(palette));
        if palette == Exact {
          assert c == [c[0], c[1], c[2]];
        }
      }
    }
  }

  /** The digit-level arithmetic behind `ChannelValue`. */
  lemma ChannelDigits(d0: nat, d1: nat, d2: nat, lo: nat)
    requires d0 < 10 && d1 < 10 && d2 < 10 && 248 <= lo
    requires lo <= 100 * d0 + 10 * d1 + d2 <= 255
    ensures d0 == 2 && ((d1 == 5 && d2 <= 5) || (d1 == 4 && 8 <= d2))
    ensures lo == 255 ==> d1 == 5 && d2 == 5
  {
  }

  /** Every exactly white channel is also near white, so the figure script removes every path the
      page script removes. */
  lemma ExactIsNearWhite(form: Form, t: string)
    ensures MatchLen(Exact, form, t).Some? ==> MatchLen(NearWhite, form, t) == MatchLen(Exact, form, t)
  {
    if StartsWith(t, "<path") && TagEnd(t, 5).Some? {
      var q := TagEnd(t, 5).value;
      if FillWithin(Exact, t, 5, q) {
        var k: nat :| 5 <= k && k + 23 <= q && FillAt(Exact, t, k);
        assert FillAt(NearWhite, t, k);
      }
    }
  }

  /** A fill holds no `>`: its fixed characters are not `>` and its channels are digits. */
  lemma FillHasNoGt(palette: Palette, f: string)
    requires IsFill(palette, f)
    ensures '>' !in f
  {
    ChannelValue(palette, f[10..13]);
    ChannelValue(palette, f[14..17]);
    ChannelValue(palette, f[18..21]);
    forall j | 0 <= j < 23 ensures f[j] != '>' {
      if j < 10 { assert f[j] == f[..10][j]; }
      else if 10 <= j < 13 { assert f[j] == f[10..13][j - 10]; }
      else if 14 <= j < 17 { assert f[j] == f[14..17][j - 14]; }
      else if 18 <= j < 21 { assert f[j] == f[18..21][j - 18]; }
      else if 21 <= j { assert f[j] == f[21..][j - 21]; }
    }
  }

  // ----- what the passes leave alone ------------------------------------------------------------

  /** Text with no white fill anywhere comes through a pass unchanged. */
  lemma {:induction false} RemoveAllWithoutFill(palette: Palette, form: Form, t: string)
    requires forall k: nat :: !FillAt(palette, t, k)
    ensures RemoveAll(palette, form, t) == t
    decreases |t|
  {
    if t != [] {
      forall k: nat ensures !FillAt(palette, t[1..], k) {
        if k + 23 <= |t[1..]| {
          assert t[1..][k..k + 23] == t[k + 1..k + 24];
          assert !FillAt(palette, t, k + 1);
        }
      }
      RemoveAllWithoutFill(palette, form, t[1..]);
      assert t == [t[0]] + t[1..];
    }
  }

  /** `stripWhitePaths` leaves text with no white fill unchanged. */
  lemma StripWhitePathsWithoutFill(palette: Palette, t: string)
    requires forall k: nat :: !FillAt(palette, t, k)
    ensures StripWhitePaths(palette, t) == t
  {
    RemoveAllWithoutFill(palette, Paired, t);
    RemoveAllWithoutFill(palette, SelfClosing, t);
  }

  /** A match starts with `<`, so text before the next `<` is kept as it is. */
  lemma {:induction false} RemoveAllKeepsPlain(palette: Palette, form: Form, a: string, t: string)
    requires '<' !in a
    ensures RemoveAll(palette, form, a + t) == a + RemoveAll(palette, form, t)
    decreases |a|
  {
    if a != [] {
      var s := a + t;
      assert s[0] == a[0] && s[1..] == a[1..] + t;
      RemoveAllPlainStep(palette, form, s);
      RemoveAllKeepsPlain(palette, form, a[1..], t);
      ConsAppend(a, RemoveAll(palette, form, t));
    } else {
      assert a + t == t;
    }
  }

  lemma ConsAppend(a: string, r: string)
    requires a != []
    ensures [a[0]] + (a[1..] + r) == a + r
  {
    assert a == [a[0]] + a[1..];
  }

  /** Where the text does not start with `<`, its first character is kept. */
  lemma RemoveAllPlainStep(palette: Palette, form: Form, s: string)
    requires s != [] && s[0] != '<'
    ensures RemoveAll(palette, form, s) == [s[0]] + RemoveAll(palette, form, s[1..])
  {
    assert !StartsWith(s, "<path") by {
      if |s| >= 5 { assert s[..5][0] == s[0]; }
    }
    assert MatchLen(palette, form, s).None?;
  }

  // ----- what the passes remove ----------------------------------------------------------------

  predicate AllSpace(s: string) {
    forall i :: 0 <= i < |s| ==> IsSpace(s[i])
  }

  /** What may follow a removed element: the end of the text, or something other than white
      space (any white space right after the element is removed with it). */
  predicate StartsSolid(s: string) {
    s == [] || !IsSpace(s[0])
  }

  /** Attributes around a white fill, with no `>` that would end the tag early. */
  predicate IsWhiteTag(palette: Palette, pre: string, fill: string, post: string) {
    '>' !in pre && IsFill(palette, fill) && '>' !in post
  }

  /** The opening tag `<path ATTRS>` with a white fill among its attributes. */
  function Tag(pre: string, fill: string, post: string): string {
    "<path" + (pre + fill + post) + ">"
  }

  /** `<path ATTRS></path>`, the white space after it, then `rest`. */
  function PairedThen(pre: string, fill: string, post: string, gap: string, trail: string, rest: string): string {
    Tag(pre, fill, post) + (gap + ("</path>" + (trail + rest)))
  }

  /** The length of the element and its trailing white space in `PairedThen`. */
  function PairedLen(pre: string, fill: string, post: string, gap: string, trail: string): nat {
    |Tag(pre, fill, post)| + |gap| + 7 + |trail|
  }

  /** `<path ATTRS/>`, the white space after it, then `rest`. */
  function SelfClosingThen(pre: string, fill: string, post: string, trail: string, rest: string): string {
    Tag(pre, fill, post + "/") + (trail + rest)
  }

  function SelfClosingLen(pre: string, fill: string, post: string, trail: string): nat {
    |Tag(pre, fill, post + "/")| + |trail|
  }

  /** The parts of a paired element in `t`: the opening tag with a white fill ends at `q`, then
      `gap` white-space characters, `</path>`, and `trail` more. */
  predicate PairedAt(palette: Palette, t: string, q: nat, gap: nat, trail: nat) {
    && StartsWith(t, "<path") && TagEnd(t, 5) == Some(q) && FillWithin(palette, t, 5, q)
    && q + 1 <= |t| && SpaceRunAt(t, q + 1) == gap
    && At(t, q + 1 + gap, "</path>") && SpaceRunAt(t, q + gap + 8) == trail
  }

  /** The paired pattern at the start of `t`, given where its parts land. */
  lemma PairedMatchAt(palette: Palette, t: string, q: nat, gap: nat, trail: nat)
    requires PairedAt(palette, t, q, gap, trail)
    ensures MatchLen(palette, Paired, t) == Some(q + gap + 8 + trail)
  {
    assert AfterTag(Paired, t, q) == Some(q + gap + 8 + trail);
  }

  /** The self-closing pattern at the start of `t`, given where its parts land. */
  lemma SelfClosingMatchAt(palette: Palette, t: string, q: nat, trail: nat)
    requires StartsWith(t, "<path") && TagEnd(t, 5) == Some(q) && FillWithin(palette, t, 5, q)
    requires t[q - 1] == '/' && q + 1 <= |t| && SpaceRunAt(t, q + 1) == trail
    ensures MatchLen(palette, SelfClosing, t) == Some(q + 1 + trail)
  {
    assert AfterTag(SelfClosing, t, q) == Some(q + 1 + trail);
  }

  /** The paired pattern matches a white paired element exactly, trailing white space included. */
  lemma PairedElementMatches(palette: Palette, pre: string, fill: string, post: string, gap: string,
                             trail: string, rest: string)
    requires IsWhiteTag(palette, pre, fill, post)
    requires AllSpace(gap) && AllSpace(trail) && StartsSolid(rest)
    ensures MatchLen(palette, Paired, PairedThen(pre, fill, post, gap, trail, rest)) ==
      Some(PairedLen(pre, fill, post, gap, trail))
  {
    var t, q := PairedThen(pre, fill, post, gap, trail, rest), |Tag(pre, fill, post)| - 1;
    PairedParts(palette, pre, fill, post, gap, trail, rest);
    PairedMatchAt(palette, t, q, |gap|, |trail|);
    assert q + |gap| + 8 + |trail| == PairedLen(pre, fill, post, gap, trail);
  }

  /** Where the parts of a white paired element lie. */
  lemma PairedParts(palette: Palette, pre: string, fill: string, post: string, gap: string,
                    trail: string, rest: string)
    requires IsWhiteTag(palette, pre, fill, post)
    requires AllSpace(gap) && AllSpace(trail) && StartsSolid(rest)
    ensures PairedAt(palette, PairedThen(pre, fill, post, gap, trail, rest), |Tag(pre, fill, post)| - 1, |gap|, |trail|)
  {
    var tag := Tag(pre, fill, post);
    var z := trail + rest;
    OpenTag(palette, pre, fill, post, gap + ("</path>" + z));
    RunAfter(tag, gap, "</path>" + z);
    AtNested(tag, gap, "</path>", z);
    RunAfterNested(tag, gap, "</path>", trail, rest);
  }

  /** The self-closing pattern matches a white self-closing element exactly, trailing white space
      included. */
  lemma SelfClosingElementMatches(palette: Palette, pre: string, fill: string, post: string,
                                  trail: string, rest: string)
    requires IsWhiteTag(palette, pre, fill, post)
    requires AllSpace(trail) && StartsSolid(rest)
    ensures MatchLen(palette, SelfClosing, SelfClosingThen(pre, fill, post, trail, rest)) ==
      Some(SelfClosingLen(pre, fill, post, trail))
  {
    var tag := Tag(pre, fill, post + "/");
    assert '>' !in post + "/";
    OpenTag(palette, pre, fill, post + "/", trail + rest);
    assert tag[|tag| - 2] == '/';
    RunAfter(tag, trail, rest);
    SelfClosingMatchAt(palette, SelfClosingThen(pre, fill, post, trail, rest), |tag| - 1, |trail|);
  }

  /** `SpaceRunAt` measures a run of white space placed after `front`. */
  lemma RunAfter(front: string, run: string, back: string)
    requires AllSpace(run) && StartsSolid(back)
    ensures SpaceRunAt(front + (run + back), |front|) == |run|
  {
    var t := front + (run + back);
    forall i | |front| <= i < |front| + |run| ensures IsSpace(t[i]) {
      assert t[i] == run[i - |front|];
    }
    if |front| + |run| < |t| {
      assert t[|front| + |run|] == back[0];
    }
    SpaceRunAtIs(t, |front|, |run|);
  }

  /** The same, for a run placed after three pieces. */
  lemma RunAfterNested(a: string, b: string, c: string, run: string, back: string)
    requires AllSpace(run) && StartsSolid(back)
    ensures SpaceRunAt(a + (b + (c + (run + back))), |a| + |b| + |c|) == |run|
  {
    AppendAssoc(a, b, c + (run + back));
    AppendAssoc(a + b, c, run + back);
    RunAfter(a + b + c, run, back);
  }

  /** `pat` found where it was placed. */
  lemma AtNested(a: string, b: string, pat: string, z: string)
    ensures At(a + (b + (pat + z)), |a| + |b|, pat)
  {
    var t := a + (b + (pat + z));
    assert t[|a| + |b|..|a| + |b| + |pat|] == pat;
  }

  /** The opening tag of a white element: its `>` is the first after `<path`, and the fill lies
      before it. */
  lemma OpenTag(palette: Palette, pre: string, fill: string, post: string, tail: string)
    requires IsWhiteTag(palette, pre, fill, post)
    ensures var t := Tag(pre, fill, post) + tail;
      && StartsWith(t, "<path")
      && TagEnd(t, 5) == Some(|Tag(pre, fill, post)| - 1)
      && FillWithin(palette, t, 5, |Tag(pre, fill, post)| - 1)
  {
    var attrs := pre + fill + post;
    var t := "<path" + attrs + ">" + tail;
    FillHasNoGt(palette, fill);
    assert t[..5] == "<path";
    FindFirstGt("<path", attrs, tail);
    var k := 5 + |pre|;
    assert t[k..k + 23] == fill by {
      assert t == ("<path" + pre) + fill + (post + ">" + tail);
    }
    assert FillAt(palette, t, k);
  }

  /** With no `>` in `attrs`, the first `>` after `head` is the one right after `attrs`. */
  lemma {:induction false} FindFirstGt(head: string, attrs: string, tail: string)
    requires '>' !in attrs
    ensures TagEnd(head + attrs + ">" + tail, |head|) == Some(|head| + |attrs|)
    decreases |attrs|
  {
    var t := head + attrs + ">" + tail;
    if attrs == [] {
      assert t[|head|] == '>';
    } else {
      assert t[|head|] == attrs[0];
      assert t == (head + [attrs[0]]) + attrs[1..] + ">" + tail;
      FindFirstGt(head + [attrs[0]], attrs[1..], tail);
    }
  }

  /** A pass removes a white element, with the white space after it, and keeps what comes before
      it up to the first `<`. */
  lemma RemoveAllDropsPaired(palette: Palette, a: string, pre: string, fill: string, post: string,
                             gap: string, trail: string, rest: string)
    requires '<' !in a && IsWhiteTag(palette, pre, fill, post)
    requires AllSpace(gap) && AllSpace(trail) && StartsSolid(rest)
    ensures RemoveAll(palette, Paired, a + PairedThen(pre, fill, post, gap, trail, rest)) ==
      a + RemoveAll(palette, Paired, rest)
  {
    var doc := PairedThen(pre, fill, post, gap, trail, rest);
    RemoveAllKeepsPlain(palette, Paired, a, doc);
    PairedElementMatches(palette, pre, fill, post, gap, trail, rest);
    assert doc[PairedLen(pre, fill, post, gap, trail)..] == rest;
  }

  lemma RemoveAllDropsSelfClosing(palette: Palette, a: string, pre: string, fill: string, post: string,
                                  trail: string, rest: string)
    requires '<' !in a && IsWhiteTag(palette, pre, fill, post)
    requires AllSpace(trail) && StartsSolid(rest)
    ensures RemoveAll(palette, SelfClosing, a + SelfClosingThen(pre, fill, post, trail, rest)) ==
      a + RemoveAll(palette, SelfClosing, rest)
  {
    var doc := SelfClosingThen(pre, fill, post, trail, rest);
    RemoveAllKeepsPlain(palette, SelfClosing, a, doc);
    SelfClosingElementMatches(palette, pre, fill, post, trail, rest);
    assert doc[SelfClosingLen(pre, fill, post, trail)..] == rest;
  }

  /** `stripWhitePaths` removes a white paired element and the white space after it, and nothing
      before it. */
  lemma StripWhitePathsDropsPaired(palette: Palette, a: string, pre: string, fill: string, post: string,
                                   gap: string, trail: string, rest: string)
    requires '<' !in a && IsWhiteTag(palette, pre, fill, post)
    requires AllSpace(gap) && AllSpace(trail) && StartsSolid(rest)
    ensures StripWhitePaths(palette, a + PairedThen(pre, fill, post, gap, trail, rest)) ==
      a + StripWhitePaths(palette, rest)
  {
    RemoveAllDropsPaired(palette, a, pre, fill, post, gap, trail, rest);
    RemoveAllKeepsPlain(palette, SelfClosing, a, RemoveAll(palette, Paired, rest));
  }
}
