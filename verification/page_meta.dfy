/** What the A4 page rules read out of one page: the file-name shape, the `nav-meta` label
    (`<topic> — עמוד <index> / <total>`) and the topic-order hints of the `preview-nav-topics`
    block. Each regular expression is modelled by its leftmost-match semantics. */
module PageMeta {
  import opened Chars
  import opened Results
  import opened Strings
  import opened HtmlText
  import opened Seqs

  // ----- page file names -------------------------------------------------------------------

  const PageFilePrefix: string := "עמוד-"
  const PageFileSuffix: string := ".html"

  /** `/^עמוד-\d+\.html$/u`. */
  predicate IsA4PageFile(relPath: string) {
    var n := |relPath|;
    && StartsWith(relPath, PageFilePrefix)
    && n >= |PageFilePrefix| + 1 + |PageFileSuffix|
    && relPath[n - |PageFileSuffix|..] == PageFileSuffix
    && AllDigits(relPath[|PageFilePrefix|..n - |PageFileSuffix|])
  }

  /** The page file of global number `n`. */
  function PageFileName(n: nat): string {
    PageFilePrefix + NatToString(n) + PageFileSuffix
  }

  /** `Number(file.match(/^עמוד-(\d+)\.html$/u)[1])`. */
  function PageFileNumber(relPath: string): nat
    requires IsA4PageFile(relPath)
  {
    DigitsValue(relPath[|PageFilePrefix|..|relPath| - |PageFileSuffix|])
  }

  /** Every page number names a page file, and the number is read back from it. */
  lemma PageFileNameRoundTrip(n: nat)
    ensures IsA4PageFile(PageFileName(n))
    ensures PageFileNumber(PageFileName(n)) == n
  {
    var name := PageFileName(n);
    var digits := NatToString(n);
    assert name[..|PageFilePrefix|] == PageFilePrefix;
    assert name[|name| - |PageFileSuffix|..] == PageFileSuffix;
    assert name[|PageFilePrefix|..|name| - |PageFileSuffix|] == digits;
    DigitsValueOfNatToString(n);
  }

  // ----- opening tags with a class attribute -------------------------------------------------

  /** Where `<tag\s+class="classPrefix` ends when it occurs at `p` (case-insensitively). */
  function OpenTagEnd(s: string, p: nat, tag: string, classPrefix: string): (r: Option<nat>)
    ensures r.Some? ==> p + 1 + |tag| < r.value <= |s|
  {
    if AtCI(s, p, "<" + tag) then
      var q := p + 1 + |tag|;
      var w := SpaceRunAt(s, q);
      var attr := "class=\"" + classPrefix;
      if w >= 1 && AtCI(s, q + w, attr) then Some(q + w + |attr|) else None
    else None
  }

  // ----- nav-meta ---------------------------------------------------------------------------

  /** `/<div\s+class="nav-meta"[^>]*>([\s\S]*?)<\/div>/iu` tried at `p`: the bounds of the
      captured content, from after the tag's first `>` to the first `</div>` after it. */
  function NavMetaAt(s: string, p: nat): (r: Option<(nat, nat)>)
    ensures r.Some? ==> p < r.value.0 <= r.value.1 && r.value.1 + 6 <= |s|
  {
    match OpenTagEnd(s, p, "div", "nav-meta\"")
    case None => None
    case Some(h) =>
      match Find(s, ">", h)
      case None => None
      case Some(g) =>
        assert s[g] == '>' by { assert s[g..g + 1] == ">"; }
        match FindCI(s, "</div>", g + 1)
        case None => None
        case Some(e) => Some((g + 1, e))
  }

  /** The inner text of the first `nav-meta` element, as `stripHtml` leaves it. */
  function NavMetaText(html: string): (r: Option<string>)
    ensures r.Some? ==> IsNormalized(r.value) && TagFree(r.value)
    ensures r.None? ==> forall p: nat :: NavMetaAt(html, p).None?
  {
    match Leftmost((p: nat) => NavMetaAt(html, p), 0, |html|)
    case None =>
      assert forall p: nat :: NavMetaAt(html, p).None? by {
        forall p: nat ensures NavMetaAt(html, p).None? {
          if p < |html| {
            assert ((q: nat) => NavMetaAt(html, q))(p).None?;
          }
        }
      }
      None
    case Some((_, (a, b))) => Some(StripHtml(html[a..b]))
  }

  /** The three groups of the label `<topic> — עמוד <index> / <total>`. */
  datatype NavLabel = NavLabel(topic: string, pageIndex: nat, pageTotal: nat)

  /** `\s*tok`: white space, then `tok`; what follows it. */
  function AfterToken(u: string, tok: string): (r: Option<string>)
  {
    var v := TrimStart(u);
    if StartsWith(v, tok) then Some(v[|tok|..]) else None
  }

  /** `\s*(\d+)`: white space, then the longest digit run, read with `Number`; what follows it. */
  function AfterNumber(u: string): (r: Option<(nat, string)>)
  {
    var v := TrimStart(u);
    var d := DigitRun(v);
    if d == [] then None else Some((DigitsValue(d), v[|d|..]))
  }

  /** `\s*—\s*עמוד\s*(\d+)\s*\/\s*(\d+)\s*$` matched against the whole of `u`. Each `\s*` is
      greedy and followed by a non-space token, and each `\d+` by a non-digit, so no other way
      of matching exists. */
  function LabelTail(u: string): (r: Option<(nat, nat)>)
  {
    match AfterToken(u, "—")
    case None => None
    case Some(u2) => PageWordTail(u2)
  }

  /** `\s*עמוד\s*(\d+)\s*\/\s*(\d+)\s*$`. */
  function PageWordTail(u: string): (r: Option<(nat, nat)>)
  {
    match AfterToken(u, "עמוד")
    case None => None
    case Some(u3) => CountsTail(u3)
  }

  /** `\s*(\d+)\s*\/\s*(\d+)\s*$`. */
  function CountsTail(u: string): (r: Option<(nat, nat)>)
  {
    match AfterNumber(u)
    case None => None
    case Some((i, u4)) =>
      match TotalTail(u4)
      case None => None
      case Some(n) => Some((i, n))
  }

  /** `\s*\/\s*(\d+)\s*$`. */
  function TotalTail(u: string): (r: Option<nat>)
  {
    match AfterToken(u, "/")
    case None => None
    case Some(u5) =>
      match AfterNumber(u5)
      case None => None
      case Some((n, rest)) => if TrimStart(rest) == [] then Some(n) else None
  }

  /** No line terminator anywhere in `s`. */
  predicate SingleLine(s: string) {
    forall i :: 0 <= i < |s| ==> !IsLineTerminator(s[i])
  }

  /** `/^(.*?)\s*—\s*עמוד\s*(\d+)\s*\/\s*(\d+)\s*$/u` with the lazy topic group: the shortest
      prefix after which the tail matches, tried from `k` on; `.` does not cross a line
      terminator, so the search stops at the first one. */
  function ParseLabelFrom(t: string, k: nat): (r: Option<NavLabel>)
    requires k <= |t|
    ensures r.Some? ==> IsTrimmed(r.value.topic)
    decreases |t| - k
  {
    match LabelTail(t[k..])
    case Some((i, n)) => Some(NavLabel(Trim(t[..k]), i, n))
    case None => if k < |t| && !IsLineTerminator(t[k]) then ParseLabelFrom(t, k + 1) else None
  }

  /** Text on one line is still on one line after trimming. */
  lemma SingleLineTrim(x: string)
    requires SingleLine(x)
    ensures SingleLine(Trim(x))
  {
    forall j | 0 <= j < |Trim(x)|
      ensures !IsLineTerminator(Trim(x)[j])
    {
      TrimCharAt(x, j);
    }
  }

  lemma SingleLineExtend(t: string, k: nat)
    requires k < |t| && SingleLine(t[..k]) && !IsLineTerminator(t[k])
    ensures SingleLine(t[..k + 1])
  {
    assert t[..k + 1] == t[..k] + [t[k]];
  }

  /** The topic never spans a line terminator. */
  lemma {:induction false} ParseLabelFromSingleLine(t: string, k: nat)
    requires k <= |t| && SingleLine(t[..k])
    ensures ParseLabelFrom(t, k).Some? ==> SingleLine(ParseLabelFrom(t, k).value.topic)
    decreases |t| - k
  {
    if LabelTail(t[k..]).Some? {
      SingleLineTrim(t[..k]);
    } else if k < |t| && !IsLineTerminator(t[k]) {
      SingleLineExtend(t, k);
      ParseLabelFromSingleLine(t, k + 1);
    }
  }

  /** `navMetaText.match(/^(.*?)\s*—\s*עמוד\s*(\d+)\s*\/\s*(\d+)\s*$/u)` with the topic trimmed
      and the numbers read with `Number`; `None` when the label does not match. */
  function ParseNavLabel(t: string): (r: Option<NavLabel>)
    ensures r.Some? ==> IsTrimmed(r.value.topic)
  {
    ParseLabelFrom(t, 0)
  }

  /** The topic read from a label is trimmed and lies on one line. */
  lemma ParseNavLabelTopic(t: string)
    ensures ParseNavLabel(t).Some? ==> IsTrimmed(ParseNavLabel(t).value.topic)
    ensures ParseNavLabel(t).Some? ==> SingleLine(ParseNavLabel(t).value.topic)
  {
    ParseLabelFromSingleLine(t, 0);
  }

  /** The label the pages carry: `<topic> — עמוד <index> / <total>`. */
  function RenderNavLabel(topic: string, pageIndex: nat, pageTotal: nat): string {
    topic + " — עמוד " + NatToString(pageIndex) + " / " + NatToString(pageTotal)
  }

  /** A label is read back as written: the topic is the whole (trimmed, dash-free, single-line)
      text before the dash, and both numbers come back unchanged. */
  lemma NavLabelRoundTrip(topic: string, pageIndex: nat, pageTotal: nat)
    requires IsTrimmed(topic) && '—' !in topic
    requires SingleLine(topic)
    ensures ParseNavLabel(RenderNavLabel(topic, pageIndex, pageTotal)) == Some(NavLabel(topic, pageIndex, pageTotal))
  {
    var t := RenderNavLabel(topic, pageIndex, pageTotal);
    var tail := " — עמוד " + NatToString(pageIndex) + " / " + NatToString(pageTotal);
    assert t == topic + tail;
    assert t[|topic|..] == tail;
    assert t[..|topic|] == topic;
    LabelTailOfRendered(pageIndex, pageTotal);
    ParseLabelSkipsTopic(topic, tail, pageIndex, pageTotal, 0);
  }

  lemma AfterTokenSpaced(tok: string, x: string)
    requires tok != [] && !IsSpace(tok[0])
    ensures AfterToken([' '] + tok + x, tok) == Some(x)
  {
    var u := [' '] + tok + x;
    assert u[1..] == tok + x;
    assert TrimStart(u) == tok + x;
    assert (tok + x)[..|tok|] == tok;
    assert (tok + x)[|tok|..] == x;
  }

  lemma AfterNumberSpaced(n: nat, x: string)
    requires x == [] || !IsDigit(x[0])
    ensures AfterNumber([' '] + NatToString(n) + x) == Some((n, x))
  {
    var d := NatToString(n);
    var u := [' '] + d + x;
    assert u[1..] == d + x;
    assert !IsSpace(d[0]);
    assert TrimStart(u) == d + x;
    DigitRunOfDigits(d, x);
    DigitsValueOfNatToString(n);
    assert (d + x)[|d|..] == x;
  }

  lemma RenderedTailShape(d1: string, d2: string)
    ensures " — עמוד " + d1 + " / " + d2
         == [' '] + "—" + ([' '] + "עמוד" + ([' '] + d1 + ([' '] + "/" + ([' '] + d2 + []))))
  {
  }

  // Each stage of the tail hands what follows its token to the next stage.

  lemma LabelTailStep(u: string, u2: string)
    requires AfterToken(u, "—") == Some(u2)
    ensures LabelTail(u) == PageWordTail(u2)
  {
  }

  lemma PageWordTailStep(u: string, u3: string)
    requires AfterToken(u, "עמוד") == Some(u3)
    ensures PageWordTail(u) == CountsTail(u3)
  {
  }

  lemma CountsTailStep(u: string, i: nat, u4: string, n: nat)
    requires AfterNumber(u) == Some((i, u4)) && TotalTail(u4) == Some(n)
    ensures CountsTail(u) == Some((i, n))
  {
  }

  lemma TotalTailStep(u: string, u5: string, n: nat)
    requires AfterToken(u, "/") == Some(u5) && AfterNumber(u5) == Some((n, []))
    ensures TotalTail(u) == Some(n)
  {
  }

  lemma TotalTailOfRendered(pageTotal: nat)
    ensures TotalTail([' '] + "/" + ([' '] + NatToString(pageTotal) + [])) == Some(pageTotal)
  {
    var u5 := [' '] + NatToString(pageTotal) + [];
    AfterTokenSpaced("/", u5);
    AfterNumberSpaced(pageTotal, []);
    TotalTailStep([' '] + "/" + u5, u5, pageTotal);
  }

  lemma CountsTailOfRendered(pageIndex: nat, u4: string, pageTotal: nat)
    requires TotalTail(u4) == Some(pageTotal) && u4 != [] && u4[0] == ' '
    ensures CountsTail([' '] + NatToString(pageIndex) + u4) == Some((pageIndex, pageTotal))
  {
    AfterNumberSpaced(pageIndex, u4);
    CountsTailStep([' '] + NatToString(pageIndex) + u4, pageIndex, u4, pageTotal);
  }

  lemma PageWordTailOfRendered(u3: string)
    ensures PageWordTail([' '] + "עמוד" + u3) == CountsTail(u3)
  {
    AfterTokenSpaced("עמוד", u3);
    PageWordTailStep([' '] + "עמוד" + u3, u3);
  }

  lemma LabelTailOfWord(u2: string)
    ensures LabelTail([' '] + "—" + u2) == PageWordTail(u2)
  {
    AfterTokenSpaced("—", u2);
    LabelTailStep([' '] + "—" + u2, u2);
  }

  lemma LabelTailOfRendered(pageIndex: nat, pageTotal: nat)
    ensures LabelTail(" — עמוד " + NatToString(pageIndex) + " / " + NatToString(pageTotal)) == Some((pageIndex, pageTotal))
  {
    var d1, d2 := NatToString(pageIndex), NatToString(pageTotal);
    var u4 := [' '] + "/" + ([' '] + d2 + []);
    var u3 := [' '] + d1 + u4;
    var u2 := [' '] + "עמוד" + u3;
    TotalTailOfRendered(pageTotal);
    CountsTailOfRendered(pageIndex, u4, pageTotal);
    PageWordTailOfRendered(u3);
    LabelTailOfWord(u2);
    RenderedTailShape(d1, d2);
  }

  lemma {:induction false} ParseLabelSkipsTopic(topic: string, tail: string, pageIndex: nat, pageTotal: nat, k: nat)
    requires IsTrimmed(topic) && '—' !in topic
    requires SingleLine(topic)
    requires k <= |topic|
    requires LabelTail(tail) == Some((pageIndex, pageTotal))
    ensures ParseLabelFrom(topic + tail, k) == Some(NavLabel(Trim(topic), pageIndex, pageTotal))
    decreases |topic| - k
  {
    var t := topic + tail;
    assert t[..|topic|] == topic && t[|topic|..] == tail;
    if k < |topic| {
      assert t[k] == topic[k];
      NoDashAhead(topic, t, k);
      ParseLabelSkipsTopic(topic, tail, pageIndex, pageTotal, k + 1);
    }
  }

  /** Inside a trimmed, dash-free topic the label tail cannot start. */
  lemma NoDashAhead(topic: string, t: string, k: nat)
    requires IsTrimmed(topic) && '—' !in topic
    requires k < |topic| && |topic| <= |t| && t[..|topic|] == topic
    ensures AfterToken(t[k..], "—").None?
  {
    var u := t[k..];
    var u1 := TrimStart(u);
    var skipped := |u| - |u1|;
    assert skipped < |topic| - k by {
      assert u[|topic| - 1 - k] == topic[|topic| - 1];
      assert !IsSpace(topic[|topic| - 1]);
    }
    assert u1[0] != '—' by {
      assert u1[0] == u[skipped] == topic[k + skipped];
      assert topic[k + skipped] in topic;
    }
    if StartsWith(u1, "—") {
      StartsWithHead(u1, "—");
      assert false;
    }
  }

  // ----- what a matching label must contain -----------------------------------------------

  lemma TrimStartKeepsOut(u: string, c: char)
    requires c !in u
    ensures c !in TrimStart(u)
  {
    var v := TrimStart(u);
    assert v == u[|u| - |v|..|u|];
    SliceKeepsOut(u, |u| - |v|, |u|, c);
  }

  /** What follows a token is part of the text, and so is the token's first character. */
  lemma AfterTokenWithin(u: string, tok: string, c: char)
    requires tok != [] && c !in u
    ensures AfterToken(u, tok).Some? ==> tok[0] != c && c !in AfterToken(u, tok).value
  {
    var v := TrimStart(u);
    assert c !in v by { TrimStartKeepsOut(u, c); }
    if StartsWith(v, tok) {
      assert v[0] == v[..|tok|][0] == tok[0];
      assert v[|tok|..] == v[|tok|..|v|];
      SliceKeepsOut(v, |tok|, |v|, c);
    }
  }

  lemma AfterNumberWithin(u: string, c: char)
    requires c !in u
    ensures AfterNumber(u).Some? ==> c !in AfterNumber(u).value.1
  {
    TrimStartKeepsOut(u, c);
  }

  /** A label tail holds both the dash and the slash. */
  lemma LabelTailNeeds(u: string, c: char)
    requires c == '—' || c == '/'
    requires c !in u
    ensures LabelTail(u).None?
  {
    AfterTokenWithin(u, "—", c);
    if c == '/' {
      match AfterToken(u, "—")
      case None =>
      case Some(u2) =>
        PageWordNeedsSlash(u2);
    }
  }

  lemma PageWordNeedsSlash(u2: string)
    requires '/' !in u2
    ensures PageWordTail(u2).None?
  {
    AfterTokenWithin(u2, "עמוד", '/');
    match AfterToken(u2, "עמוד")
    case None =>
    case Some(u3) =>
      AfterNumberWithin(u3, '/');
      match AfterNumber(u3)
      case None =>
      case Some((i, u4)) =>
        AfterTokenWithin(u4, "/", '/');
        assert TotalTail(u4).None?;
  }

  /** Text without the dash or without the slash is not a label. */
  lemma {:induction false} ParseLabelFromNeeds(t: string, k: nat, c: char)
    requires k <= |t| && (c == '—' || c == '/') && c !in t
    ensures ParseLabelFrom(t, k).None?
    decreases |t| - k
  {
    assert c !in t[k..];
    LabelTailNeeds(t[k..], c);
    if k < |t| {
      ParseLabelFromNeeds(t, k + 1, c);
    }
  }

  lemma NavLabelNeedsDashAndSlash(t: string)
    ensures '—' !in t ==> ParseNavLabel(t).None?
    ensures '/' !in t ==> ParseNavLabel(t).None?
  {
    if '—' !in t { ParseLabelFromNeeds(t, 0, '—'); }
    if '/' !in t { ParseLabelFromNeeds(t, 0, '/'); }
  }

  // ----- topic-order hints ------------------------------------------------------------------

  /** `/<div\s+class="preview-nav-topics"[\s\S]*?<\/div>/iu` tried at `p`: where the block ends,
      just after the first `</div>` that follows the opening marker. */
  function TopicBlockAt(s: string, p: nat): (r: Option<nat>)
    ensures r.Some? ==> p + 6 < r.value <= |s|
  {
    match OpenTagEnd(s, p, "div", "preview-nav-topics\"")
    case None => None
    case Some(h) =>
      match FindCI(s, "</div>", h)
      case None => None
      case Some(e) => Some(e + 6)
  }

  /** What a kept hint looks like: non-empty, white space normalised, no markup left. */
  predicate IsHint(name: string) {
    name != [] && IsNormalized(name) && TagFree(name)
  }

  /** One `topic-link` match: the label's bounds and where the match ends. */
  datatype LinkMatch = LinkMatch(labelStart: nat, labelEnd: nat, end: nat)

  /** `/<a\s+class="topic-link[^"]*"[\s\S]*?>([\s\S]*?)<\/a>/iu` tried at `p`: the class
      attribute runs to its closing quote, the tag to the first `>` after it, and the label to
      the first `</a>` after that. */
  function TopicLinkAt(b: string, p: nat): (r: Option<LinkMatch>)
    ensures r.Some? ==> p < r.value.labelStart <= r.value.labelEnd && r.value.end == r.value.labelEnd + 4 <= |b|
    ensures r.Some? ==> AtCI(b, r.value.labelEnd, "</a>")
  {
    match OpenTagEnd(b, p, "a", "topic-link")
    case None => None
    case Some(h) => LinkAfterClass(b, h)
  }

  /** The rest of the class attribute up to its closing quote, then the rest of the tag. */
  function LinkAfterClass(b: string, h: nat): (r: Option<LinkMatch>)
    ensures r.Some? ==> h < r.value.labelStart <= r.value.labelEnd && r.value.end == r.value.labelEnd + 4 <= |b|
    ensures r.Some? ==> AtCI(b, r.value.labelEnd, "</a>")
  {
    match Find(b, "\"", h)
    case None => None
    case Some(q) => LinkAfterQuote(b, q + 1)
  }

  /** The rest of the tag, lazily up to the first `>`, then the label. */
  function LinkAfterQuote(b: string, from: nat): (r: Option<LinkMatch>)
    ensures r.Some? ==> from < r.value.labelStart <= r.value.labelEnd && r.value.end == r.value.labelEnd + 4 <= |b|
    ensures r.Some? ==> AtCI(b, r.value.labelEnd, "</a>")
  {
    match Find(b, ">", from)
    case None => None
    case Some(g) => LinkLabelFrom(b, g + 1)
  }

  /** The label, lazily up to the first `</a>`. */
  function LinkLabelFrom(b: string, start: nat): (r: Option<LinkMatch>)
    ensures r.Some? ==> r.value.labelStart == start <= r.value.labelEnd && r.value.end == r.value.labelEnd + 4 <= |b|
    ensures r.Some? ==> AtCI(b, r.value.labelEnd, "</a>")
  {
    match FindCI(b, "</a>", start)
    case None => None
    case Some(e) => Some(LinkMatch(start, e, e + 4))
  }

  /** Every name in `names` is a hint. */
  predicate AllHints(names: seq<string>)
    decreases |names|
  {
    names == [] || (IsHint(names[0]) && AllHints(names[1..]))
  }

  lemma {:induction false} AllHintsAt(names: seq<string>, i: nat)
    requires AllHints(names) && i < |names|
    ensures IsHint(names[i])
    decreases i
  {
    if i > 0 {
      AllHintsAt(names[1..], i - 1);
    }
  }

  /** The link pattern as a matcher over positions. */
  function LinkMatcher(b: string): nat -> Option<LinkMatch> {
    (p: nat) => TopicLinkAt(b, p)
  }

  /** The next `exec` of the link pattern from `from`: the leftmost position it matches at. */
  function NextLink(b: string, from: nat): (r: Option<(nat, LinkMatch)>)
    ensures r.Some? ==> from <= r.value.0 < |b| && TopicLinkAt(b, r.value.0) == Some(r.value.1)
    ensures r.Some? ==> forall p :: from <= p < r.value.0 ==> TopicLinkAt(b, p).None?
    ensures r.None? ==> forall p :: from <= p < |b| ==> TopicLinkAt(b, p).None?
  {
    var f := LinkMatcher(b);
    forall p: nat ensures f(p) == TopicLinkAt(b, p) { }
    Leftmost(f, from, |b|)
  }

  /** The `exec` loop from `from`: each link's label through `stripHtml`, empty labels dropped. */
  function LinkLabels(b: string, from: nat): (names: seq<string>)
    ensures AllHints(names)
    decreases |b| - from
  {
    match NextLink(b, from)
    case None => []
    case Some((_, m)) =>
      var name := StripHtml(b[m.labelStart..m.labelEnd]);
      var rest := LinkLabels(b, m.end);
      if name == [] then rest
      else
        assert ([name] + rest)[1..] == rest;
        [name] + rest
  }

  /** The block pattern as a matcher over positions. */
  function BlockMatcher(html: string): nat -> Option<nat> {
    (p: nat) => TopicBlockAt(html, p)
  }

  /** The first `preview-nav-topics` block: where it starts and where its `</div>` ends. */
  function FirstBlock(html: string): (r: Option<(nat, nat)>)
    ensures r.Some? ==> r.value.0 < |html| && TopicBlockAt(html, r.value.0) == Some(r.value.1)
    ensures r.Some? ==> forall p: nat :: p < r.value.0 ==> TopicBlockAt(html, p).None?
    ensures r.None? ==> forall p: nat :: p < |html| ==> TopicBlockAt(html, p).None?
  {
    var f := BlockMatcher(html);
    forall p: nat ensures f(p) == TopicBlockAt(html, p) { }
    Leftmost(f, 0, |html|)
  }

  /** The block found at `k`, with none before it, is the first one. */
  lemma FirstBlockIs(html: string, k: nat, end: nat)
    requires k < |html| && TopicBlockAt(html, k) == Some(end)
    requires forall p: nat :: p < k ==> TopicBlockAt(html, p).None?
    ensures FirstBlock(html) == Some((k, end))
  {
    forall p | 0 <= p < k ensures BlockMatcher(html)(p).None? { }
    LeftmostIs(BlockMatcher(html), 0, |html|, k, end);
  }

  /** With its first block found, a page's hints are the link labels inside that block. */
  lemma HintsOfFirstBlock(html: string, start: nat, end: nat)
    requires FirstBlock(html) == Some((start, end))
    ensures start <= end <= |html| && ParseTopicOrderHints(html) == LinkLabels(html[start..end], 0)
  {
  }

  /** `parseTopicOrderHints`: the non-empty link labels of the first `preview-nav-topics` block,
      in document order; `[]` when the page has no such block. */
  function ParseTopicOrderHints(html: string): (hints: seq<string>)
    ensures (forall p :: TopicBlockAt(html, p).None?) ==> hints == []
    ensures forall i :: 0 <= i < |hints| ==> IsHint(hints[i])
  {
    match FirstBlock(html)
    case None => []
    case Some((start, end)) =>
      var hints := LinkLabels(html[start..end], 0);
      forall i | 0 <= i < |hints| ensures IsHint(hints[i]) {
        AllHintsAt(hints, i);
      }
      hints
  }
}
