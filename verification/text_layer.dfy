/** The invisible text layer the vectorisation scripts lay over a traced page (`buildTextLayer`):
    one SVG `<text>` element per recognised word, placed on an approximate baseline, anchored at
    the right edge for Hebrew and at the left edge otherwise, and joined with newlines. */
module TextLayer {
  import opened Chars
  import opened Results
  import opened Strings
  import opened Seqs
  import opened TesseractTsv
  import opened SvgText

  // ----- rounding ---------------------------------------------------------------------------------

  /** `r` is `Math.round(num / den)`: the integer with `r - 1/2 <= num / den < r + 1/2`. */
  predicate IsRoundOf(r: int, num: int, den: nat)
    requires den > 0
  {
    den * (2 * r - 1) <= 2 * num < den * (2 * r + 1)
  }

  /** At most one integer rounds a given fraction. */
  lemma RoundUnique(r: int, r': int, num: int, den: nat)
    requires den > 0 && IsRoundOf(r, num, den) && IsRoundOf(r', num, den)
    ensures r == r'
  {
    if r < r' {
      MulMono(2 * r + 1, 2 * r' - 1, den);
    } else if r' < r {
      MulMono(2 * r' + 1, 2 * r - 1, den);
    }
  }

  lemma MulMono(a: int, b: int, d: nat)
    requires a <= b
    ensures d * a <= d * b
  {
    assert d * b - d * a == d * (b - a);
  }

  /** `Math.round(h * 0.2)`. No half-way case arises for an integer `h`. */
  function RoundFifth(h: nat): (r: nat)
    ensures IsRoundOf(r, h, 5)
  {
    (h + 2) / 5
  }

  /** `Math.round(h * 0.9)`; the half-way cases (`h` ending in 5) round up. */
  function RoundNineTenths(h: nat): (r: nat)
    ensures IsRoundOf(r, 9 * h, 10)
  {
    (9 * h + 5) / 10
  }

  // ----- one word ---------------------------------------------------------------------------------

  /** `/[֐-׿]/.test(text)`. */
  predicate HasHebrew(s: string) {
    exists i :: 0 <= i < |s| && IsHebrew(s[i])
  }

  /** Trimming drops only white space, which is never Hebrew. */
  lemma HasHebrewTrim(s: string)
    ensures HasHebrew(Trim(s)) <==> HasHebrew(s)
  {
    if HasHebrew(s) {
      var i :| 0 <= i < |s| && IsHebrew(s[i]);
      assert !IsSpace(s[i]);
      TrimKeepsNonSpace(s, i);
      assert IsHebrew(Trim(s)[i - TrimOffset(s)]);
    }
    if HasHebrew(Trim(s)) {
      var j :| 0 <= j < |Trim(s)| && IsHebrew(Trim(s)[j]);
      TrimCharAt(s, j);
      assert IsHebrew(s[TrimOffset(s) + j]);
    }
  }

  /** The element written for one word. `rtl` selects the class, the anchor and the edge. */
  datatype TextElement = TextElement(rtl: bool, x: int, y: int, fontSize: int, body: string)

  /** `Math.max(1, y1 - y0)`. */
  function BoxHeight(b: BBox): (h: nat)
    ensures h >= 1
  {
    if b.y1 - b.y0 >= 1 then b.y1 - b.y0 else 1
  }

  /** The loop body of `buildTextLayer`: nothing for a word whose trimmed text is empty. */
  function WordElement(w: Word): Option<TextElement>
  {
    var text := Trim(w.text);
    if text == [] then None
    else
      var h := BoxHeight(w.bbox);
      var rtl := HasHebrew(text);
      var size := RoundNineTenths(h);
      Some(TextElement(rtl, if rtl then w.bbox.x1 else w.bbox.x0, w.bbox.y1 - RoundFifth(h),
                       if size >= 10 then size else 10, text))
  }

  /** A word gives an element exactly when its trimmed text is non-empty. The element carries the
      trimmed text; it is right-to-left exactly when the word has a Hebrew letter, and then sits at
      the box's right edge, otherwise at its left edge; its baseline is a fifth of the height
      (rounded) above the bottom, so inside the box; its font size is nine tenths of the height
      (rounded), but never below 10. */
  lemma WordElementShape(w: Word)
    ensures WordElement(w).Some? <==> Trim(w.text) != []
    ensures WordElement(w).Some? ==>
      var e, b, h := WordElement(w).value, w.bbox, BoxHeight(w.bbox);
      && e.body == Trim(w.text)
      && (e.rtl <==> HasHebrew(w.text))
      && e.x == (if e.rtl then b.x1 else b.x0)
      && IsRoundOf(b.y1 - e.y, h, 5)
      && (b.y0 < b.y1 ==> b.y0 <= e.y <= b.y1)
      && (b.y1 <= b.y0 ==> e.y == b.y1)
      && e.fontSize >= 10
      && (e.fontSize > 10 ==> IsRoundOf(e.fontSize, 9 * h, 10))
  {
    HasHebrewTrim(w.text);
  }

  // ----- the layer --------------------------------------------------------------------------------

  /** The elements of the words, in order. */
  function Layout(words: seq<Word>): (r: seq<TextElement>)
    ensures |r| <= |words|
  {
    Collect(WordElement, words)
  }

  /** Each word is laid out on its own: the layout of a sequence of words is the layouts of its
      parts, one after the other. */
  lemma LayoutAppend(a: seq<Word>, b: seq<Word>)
    ensures Layout(a + b) == Layout(a) + Layout(b)
  {
    CollectAppend(WordElement, a, b);
  }

  /** Every element comes from some word. */
  lemma LayoutOrigin(words: seq<Word>, i: nat)
    requires i < |Layout(words)|
    ensures exists j :: 0 <= j < |words| && WordElement(words[j]) == Some(Layout(words)[i])
  {
    CollectOrigin(WordElement, words, i);
  }

  function ClassName(rtl: bool): string {
    if rtl then "pyt-word pyt-rtl" else "pyt-word pyt-ltr"
  }

  function AnchorName(rtl: bool): string {
    if rtl then "end" else "start"
  }

  /** `String(i)` for an integer. */
  function IntToString(i: int): (s: string)
    ensures forall k :: 0 <= k < |s| ==> IsDigit(s[k]) || s[k] == '-'
  {
    if i < 0 then "-" + NatToString(-i) else NatToString(i)
  }

  /** ` name="value"`. */
  function Attribute(name: string, value: string): string {
    " " + name + "=\"" + value + "\""
  }

  /** The attributes of the `<text>` tag, with the space before each. */
  function Attributes(e: TextElement): string {
    Attribute("class", ClassName(e.rtl)) + Attribute("x", IntToString(e.x)) + Attribute("y", IntToString(e.y))
      + Attribute("font-size", IntToString(e.fontSize)) + Attribute("text-anchor", AnchorName(e.rtl))
  }

  /** `<text ATTRIBUTES`, up to the `>` that closes the tag. */
  function OpenTag(e: TextElement): string {
    "<text" + Attributes(e)
  }

  /** The markup of one element; its text is escaped. */
  function Render(e: TextElement): string {
    OpenTag(e) + (">" + (EscapeXml(e.body) + "</text>"))
  }

  function RenderAll(es: seq<TextElement>): (r: seq<string>)
    ensures |r| == |es|
    ensures forall i :: 0 <= i < |es| ==> r[i] == Render(es[i])
  {
    seq(|es|, i requires 0 <= i < |es| => Render(es[i]))
  }

  /** `buildTextLayer`: the elements' markup joined with newlines. The layer is empty exactly
      when no word has any text once trimmed. */
  function BuildTextLayer(words: seq<Word>): (r: string)
    ensures r == [] <==> forall j :: 0 <= j < |words| ==> Trim(words[j].text) == []
  {
    LayerEmptyIff(words);
    Join(RenderAll(Layout(words)), '\n')
  }

  lemma LayerEmptyIff(words: seq<Word>)
    ensures Join(RenderAll(Layout(words)), '\n') == [] <==>
      forall j :: 0 <= j < |words| ==> Trim(words[j].text) == []
  {
    CollectNone(WordElement, words);
    forall j | 0 <= j < |words| ensures WordElement(words[j]).None? <==> Trim(words[j].text) == [] {
      WordElementShape(words[j]);
    }
    var parts := RenderAll(Layout(words));
    if |parts| > 1 {
      JoinCons(parts, '\n');
    }
    if parts != [] {
      assert parts[0] == Render(Layout(words)[0]);
    }
  }

  /** Reading an element back: the text between the end of the opening tag and the closing tag,
      unescaped. */
  function ElementBody(s: string): Option<string> {
    if '>' !in s then None
    else
      var k := IndexOfChar(s, '>');
      if k + 8 <= |s| && s[|s| - 7..] == "</text>" then Some(UnescapeXml(s[k + 1..|s| - 7])) else None
  }

  /** Neither `>` nor a newline occurs in a number. */
  lemma IntToStringPlain(i: int)
    ensures '>' !in IntToString(i) && '\n' !in IntToString(i)
  {
    var s := IntToString(i);
    forall k | 0 <= k < |s| ensures s[k] != '>' && s[k] != '\n' {
      assert IsDigit(s[k]) || s[k] == '-';
    }
  }

  lemma AttributePlain(name: string, value: string)
    requires '>' !in name && '\n' !in name && '>' !in value && '\n' !in value
    ensures '>' !in Attribute(name, value) && '\n' !in Attribute(name, value)
  {
  }

  /** Neither `>` nor a newline occurs. */
  predicate Plain(s: string) {
    '>' !in s && '\n' !in s
  }

  lemma PlainAppend(a: string, b: string)
    requires Plain(a) && Plain(b)
    ensures Plain(a + b)
  {
    assert forall c :: c in a + b <==> c in a || c in b;
  }

  /** The opening tag holds no `>` and no newline. */
  lemma OpenTagPlain(e: TextElement)
    ensures '>' !in OpenTag(e) && '\n' !in OpenTag(e)
  {
    AttributesPlain(e);
    PlainAppend("<text", Attributes(e));
  }

  lemma AttributesPlain(e: TextElement)
    ensures Plain(Attributes(e))
  {
    var a1 := Attribute("class", ClassName(e.rtl));
    var a2 := Attribute("x", IntToString(e.x));
    var a3 := Attribute("y", IntToString(e.y));
    var a4 := Attribute("font-size", IntToString(e.fontSize));
    var a5 := Attribute("text-anchor", AnchorName(e.rtl));
    NumberAttributesPlain(e);
    assert Plain(a1) by { AttributePlain("class", ClassName(e.rtl)); }
    assert Plain(a5) by { AttributePlain("text-anchor", AnchorName(e.rtl)); }
    PlainAppend(a1, a2);
    PlainAppend(a1 + a2, a3);
    PlainAppend(a1 + a2 + a3, a4);
    PlainAppend(a1 + a2 + a3 + a4, a5);
  }

  lemma NumberAttributesPlain(e: TextElement)
    ensures Plain(Attribute("x", IntToString(e.x)))
    ensures Plain(Attribute("y", IntToString(e.y)))
    ensures Plain(Attribute("font-size", IntToString(e.fontSize)))
  {
    IntToStringPlain(e.x);
    AttributePlain("x", IntToString(e.x));
    IntToStringPlain(e.y);
    AttributePlain("y", IntToString(e.y));
    IntToStringPlain(e.fontSize);
    AttributePlain("font-size", IntToString(e.fontSize));
  }

  /** Whatever the tag, the body after its first `>` reads back. */
  lemma ElementBodyAfter(open: string, body: string)
    requires '>' !in open
    ensures ElementBody(open + (">" + (body + "</text>"))) == Some(UnescapeXml(body))
  {
    var s := open + (">" + (body + "</text>"));
    ElementParts(open, body, s);
    IndexOfCharIs(s, '>', |open|);
    ElementBodyIs(s, |open|, body);
  }

  lemma ElementBodyIs(s: string, k: nat, body: string)
    requires '>' in s && IndexOfChar(s, '>') == k && k + 8 <= |s|
    requires s[|s| - 7..] == "</text>" && s[k + 1..|s| - 7] == body
    ensures ElementBody(s) == Some(UnescapeXml(body))
  {
  }

  /** Where the pieces of an element lie in its text. */
  lemma ElementParts(open: string, body: string, s: string)
    requires s == open + (">" + (body + "</text>"))
    ensures |s| == |open| + |body| + 8
    ensures s[|open|] == '>' && s[..|open|] == open
    ensures s[|s| - 7..] == "</text>" && s[|open| + 1..|s| - 7] == body
  {
  }

  /** The body of a rendered element reads back as the element's text. */
  lemma ElementBodyOfRender(e: TextElement)
    ensures ElementBody(Render(e)) == Some(e.body)
  {
    OpenTagPlain(e);
    ElementBodyAfter(OpenTag(e), EscapeXml(e.body));
    EscapeXmlRoundTrip(e.body);
  }

  /** A rendered element is one line when its text has no newline. */
  lemma RenderOneLine(e: TextElement)
    requires '\n' !in e.body
    ensures '\n' !in Render(e)
  {
    OpenTagPlain(e);
    EscapeXmlKeepsAbsent(e.body, '\n');
  }

  /** Trimming adds no character. */
  lemma TrimKeepsAbsent(s: string, c: char)
    requires c !in s
    ensures c !in Trim(s)
  {
    var r, off := Trim(s), TrimOffset(s);
    forall k | 0 <= k < |r| ensures r[k] != c {
      assert r[k] == s[off + k];
    }
  }

  /** No element text has a newline when no word text has one. */
  lemma LayoutOneLine(words: seq<Word>, i: nat)
    requires forall j :: 0 <= j < |words| ==> '\n' !in words[j].text
    requires i < |Layout(words)|
    ensures '\n' !in Render(Layout(words)[i])
  {
    var e := Layout(words)[i];
    LayoutOrigin(words, i);
    var j :| 0 <= j < |words| && WordElement(words[j]) == Some(e);
    TrimKeepsAbsent(words[j].text, '\n');
    RenderOneLine(e);
  }

  /** When no word's text has a newline, the layer splits at its newlines into the elements, one
      per line, and each line reads back as the trimmed text of its word. */
  lemma LayerLines(words: seq<Word>)
    requires forall j :: 0 <= j < |words| ==> '\n' !in words[j].text
    requires Layout(words) != []
    ensures Split(BuildTextLayer(words), '\n') == RenderAll(Layout(words))
    ensures forall i :: 0 <= i < |Layout(words)| ==>
      ElementBody(Split(BuildTextLayer(words), '\n')[i]) == Some(Layout(words)[i].body)
  {
    var es := Layout(words);
    forall i | 0 <= i < |es| ensures '\n' !in RenderAll(es)[i] {
      LayoutOneLine(words, i);
    }
    SplitJoin(RenderAll(es), '\n');
    forall i | 0 <= i < |es| ensures ElementBody(RenderAll(es)[i]) == Some(es[i].body) {
      ElementBodyOfRender(es[i]);
    }
  }
}
