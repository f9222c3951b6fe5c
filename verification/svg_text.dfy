/** The SVG text helpers shared by the two vectorisation scripts: `escapeXml` and
    `extractSvgInner`. */
module SvgText {
  import opened Results
  import opened Strings

  // ----- escapeXml --------------------------------------------------------------------------------

  /** `s.replace(/c/g, rep)` for a one-character pattern. */
  function ReplaceChar(s: string, c: char, rep: string): (r: string)
  {
    if s == [] then [] else (if s[0] == c then rep else [s[0]]) + ReplaceChar(s[1..], c, rep)
  }

  /** `escapeXml`: five global replacements, `&` first. Text with none of the five escaped
      characters comes back unchanged. */
  function EscapeXml(text: string): (r: string)
    ensures '&' !in text && '<' !in text && '>' !in text && '"' !in text && '\'' !in text ==> r == text
  {
    var amp := ReplaceChar(text, '&', "&amp;");
    var lt := ReplaceChar(amp, '<', "&lt;");
    var gt := ReplaceChar(lt, '>', "&gt;");
    var quot := ReplaceChar(gt, '"', "&quot;");
    PassesKeepPlain(text, amp, lt, gt, quot);
    ReplaceChar(quot, '\'', "&apos;")
  }

  /** The five passes over text with nothing to escape change nothing. */
  lemma PassesKeepPlain(text: string, amp: string, lt: string, gt: string, quot: string)
    requires amp == ReplaceChar(text, '&', "&amp;") && lt == ReplaceChar(amp, '<', "&lt;")
    requires gt == ReplaceChar(lt, '>', "&gt;") && quot == ReplaceChar(gt, '"', "&quot;")
    ensures '&' !in text && '<' !in text && '>' !in text && '"' !in text && '\'' !in text ==>
      ReplaceChar(quot, '\'', "&apos;") == text
  {
    if '&' !in text && '<' !in text && '>' !in text && '"' !in text && '\'' !in text {
      ReplaceCharAbsent(text, '&', "&amp;");
      ReplaceCharAbsent(amp, '<', "&lt;");
      ReplaceCharAbsent(lt, '>', "&gt;");
      ReplaceCharAbsent(gt, '"', "&quot;");
      ReplaceCharAbsent(quot, '\'', "&apos;");
    }
  }

  /** The entity each character becomes, or the character itself. */
  function Entity(c: char): string {
    match c
    case '&' => "&amp;"
    case '<' => "&lt;"
    case '>' => "&gt;"
    case '"' => "&quot;"
    case '\'' => "&apos;"
    case _ => [c]
  }

  /** The one-pass reading of the escaper: every character replaced by its entity. */
  function EscapeEach(text: string): string {
    if text == [] then [] else Entity(text[0]) + EscapeEach(text[1..])
  }

  /** The characters that may not appear raw in an attribute value or text node. */
  predicate IsMarkupChar(c: char) {
    c == '<' || c == '>' || c == '"' || c == '\''
  }

  lemma {:induction false} ReplaceCharAppend(a: string, b: string, c: char, rep: string)
    ensures ReplaceChar(a + b, c, rep) == ReplaceChar(a, c, rep) + ReplaceChar(b, c, rep)
  {
    if a == [] {
      assert a + b == b;
    } else {
      assert (a + b)[1..] == a[1..] + b;
      ReplaceCharAppend(a[1..], b, c, rep);
    }
  }

  lemma {:induction false} ReplaceCharAbsent(s: string, c: char, rep: string)
    requires c !in s
    ensures ReplaceChar(s, c, rep) == s
  {
    if s != [] {
      ReplaceCharAbsent(s[1..], c, rep);
      assert s == [s[0]] + s[1..];
    }
  }

  lemma ReplaceCharSingle(x: char, c: char, rep: string)
    ensures ReplaceChar([x], c, rep) == if x == c then rep else [x]
  {
    assert [x][1..] == [];
  }

  lemma EscapeXmlAppend(a: string, b: string)
    ensures EscapeXml(a + b) == EscapeXml(a) + EscapeXml(b)
  {
    var a1, b1 := ReplaceChar(a, '&', "&amp;"), ReplaceChar(b, '&', "&amp;");
    ReplaceCharAppend(a, b, '&', "&amp;");
    var a2, b2 := ReplaceChar(a1, '<', "&lt;"), ReplaceChar(b1, '<', "&lt;");
    ReplaceCharAppend(a1, b1, '<', "&lt;");
    var a3, b3 := ReplaceChar(a2, '>', "&gt;"), ReplaceChar(b2, '>', "&gt;");
    ReplaceCharAppend(a2, b2, '>', "&gt;");
    var a4, b4 := ReplaceChar(a3, '"', "&quot;"), ReplaceChar(b3, '"', "&quot;");
    ReplaceCharAppend(a3, b3, '"', "&quot;");
    ReplaceCharAppend(a4, b4, '\'', "&apos;");
  }

  /** One character through the five passes: the later passes leave an inserted entity alone. */
  lemma EscapeXmlChar(x: char)
    ensures EscapeXml([x]) == Entity(x)
  {
    match x
    case '&' => EscapeXmlEntity(x, "&amp;");
    case '<' => EscapeXmlEntity(x, "&lt;");
    case '>' => EscapeXmlEntity(x, "&gt;");
    case '"' => EscapeXmlEntity(x, "&quot;");
    case '\'' => EscapeXmlEntity(x, "&apos;");
    case _ => EscapeXmlPlain(x);
  }

  lemma EscapeXmlPlain(x: char)
    requires x != '&' && !IsMarkupChar(x)
    ensures EscapeXml([x]) == [x]
  {
    ReplaceCharSingle(x, '&', "&amp;");
    ReplaceCharSingle(x, '<', "&lt;");
    ReplaceCharSingle(x, '>', "&gt;");
    ReplaceCharSingle(x, '"', "&quot;");
    ReplaceCharSingle(x, '\'', "&apos;");
  }

  /** Each special character becomes its entity in its own pass: the passes before leave the
      character alone, and the entity holds none of the characters replaced after it. */
  lemma EscapeXmlEntity(x: char, e: string)
    requires x == '&' || IsMarkupChar(x)
    requires e == Entity(x)
    ensures EscapeXml([x]) == e
  {
    if x == '&' { EscapeXmlAmp(); }
    else if x == '<' { EscapeXmlLt(); }
    else if x == '>' { EscapeXmlGt(); }
    else if x == '"' { EscapeXmlQuot(); }
    else { EscapeXmlApos(); }
  }

  lemma EscapeXmlAmp()
    ensures EscapeXml("&") == "&amp;"
  {
    var e := "&amp;";
    assert ReplaceChar("&", '&', e) == e by { ReplaceCharSingle('&', '&', e); }
    assert '<' !in e && '>' !in e && '"' !in e && '\'' !in e;
    ReplaceCharAbsent(e, '<', "&lt;");
    ReplaceCharAbsent(e, '>', "&gt;");
    ReplaceCharAbsent(e, '"', "&quot;");
    ReplaceCharAbsent(e, '\'', "&apos;");
  }

  lemma EscapeXmlLt()
    ensures EscapeXml("<") == "&lt;"
  {
    var e := "&lt;";
    assert ReplaceChar("<", '&', "&amp;") == "<" by { ReplaceCharSingle('<', '&', "&amp;"); }
    assert ReplaceChar("<", '<', e) == e by { ReplaceCharSingle('<', '<', e); }
    assert '>' !in e && '"' !in e && '\'' !in e;
    ReplaceCharAbsent(e, '>', "&gt;");
    ReplaceCharAbsent(e, '"', "&quot;");
    ReplaceCharAbsent(e, '\'', "&apos;");
  }

  lemma EscapeXmlGt()
    ensures EscapeXml(">") == "&gt;"
  {
    var e := "&gt;";
    assert ReplaceChar(">", '&', "&amp;") == ">" by { ReplaceCharSingle('>', '&', "&amp;"); }
    assert ReplaceChar(">", '<', "&lt;") == ">" by { ReplaceCharSingle('>', '<', "&lt;"); }
    assert ReplaceChar(">", '>', e) == e by { ReplaceCharSingle('>', '>', e); }
    assert '"' !in e && '\'' !in e;
    ReplaceCharAbsent(e, '"', "&quot;");
    ReplaceCharAbsent(e, '\'', "&apos;");
  }

  lemma EscapeXmlQuot()
    ensures EscapeXml("\"") == "&quot;"
  {
    var e := "&quot;";
    assert ReplaceChar("\"", '&', "&amp;") == "\"" by { ReplaceCharSingle('"', '&', "&amp;"); }
    assert ReplaceChar("\"", '<', "&lt;") == "\"" by { ReplaceCharSingle('"', '<', "&lt;"); }
    assert ReplaceChar("\"", '>', "&gt;") == "\"" by { ReplaceCharSingle('"', '>', "&gt;"); }
    assert ReplaceChar("\"", '"', e) == e by { ReplaceCharSingle('"', '"', e); }
    assert '\'' !in e;
    ReplaceCharAbsent(e, '\'', "&apos;");
  }

  lemma EscapeXmlApos()
    ensures EscapeXml("'") == "&apos;"
  {
    ReplaceCharSingle('\'', '&', "&amp;");
    ReplaceCharSingle('\'', '<', "&lt;");
    ReplaceCharSingle('\'', '>', "&gt;");
    ReplaceCharSingle('\'', '"', "&quot;");
    ReplaceCharSingle('\'', '\'', "&apos;");
  }

  /** Because `&` goes first, the five passes replace each character of the input by its entity
      exactly once. */
  lemma {:induction false} EscapeXmlIsEscapeEach(text: string)
    ensures EscapeXml(text) == EscapeEach(text)
  {
    if text != [] {
      assert text == [text[0]] + text[1..];
      EscapeXmlAppend([text[0]], text[1..]);
      EscapeXmlChar(text[0]);
      EscapeXmlIsEscapeEach(text[1..]);
    }
  }

  lemma {:induction false} EscapeEachHasNoMarkup(text: string)
    ensures forall i :: 0 <= i < |EscapeEach(text)| ==> !IsMarkupChar(EscapeEach(text)[i])
  {
    if text != [] {
      EscapeEachHasNoMarkup(text[1..]);
      var e, rest := Entity(text[0]), EscapeEach(text[1..]);
      assert forall i :: 0 <= i < |e| ==> !IsMarkupChar(e[i]);
      assert EscapeEach(text) == e + rest;
      forall i | 0 <= i < |e + rest| ensures !IsMarkupChar((e + rest)[i]) {
        if i >= |e| {
          assert (e + rest)[i] == rest[i - |e|];
        }
      }
    }
  }

  /** The escaped text has no raw `<`, `>`, `"` or `'`. */
  lemma EscapeXmlHasNoMarkup(text: string)
    ensures forall i :: 0 <= i < |EscapeXml(text)| ==> !IsMarkupChar(EscapeXml(text)[i])
  {
    EscapeXmlIsEscapeEach(text);
    EscapeEachHasNoMarkup(text);
  }

  /** A character that is not in the input and not used by any entity is not in the output. */
  lemma EscapeXmlKeepsAbsent(text: string, c: char)
    requires c !in text && c !in "&;amplgtquos"
    ensures c !in EscapeXml(text)
  {
    EscapeXmlIsEscapeEach(text);
    EscapeEachKeepsAbsent(text, c);
  }

  lemma {:induction false} EscapeEachKeepsAbsent(text: string, c: char)
    requires c !in text && c !in "&;amplgtquos"
    ensures c !in EscapeEach(text)
  {
    if text != [] {
      EscapeEachKeepsAbsent(text[1..], c);
      assert c != text[0];
      assert c !in Entity(text[0]);
    }
  }

  /** Reads the five entities back, left to right; any other `&` stays as it is. */
  function UnescapeXml(s: string): string
    decreases |s|
  {
    if s == [] then []
    else if StartsWith(s, "&amp;") then ['&'] + UnescapeXml(s[5..])
    else if StartsWith(s, "&lt;") then ['<'] + UnescapeXml(s[4..])
    else if StartsWith(s, "&gt;") then ['>'] + UnescapeXml(s[4..])
    else if StartsWith(s, "&quot;") then ['"'] + UnescapeXml(s[6..])
    else if StartsWith(s, "&apos;") then ['\''] + UnescapeXml(s[6..])
    else [s[0]] + UnescapeXml(s[1..])
  }

  lemma UnescapeEntity(c: char, rest: string)
    ensures UnescapeXml(Entity(c) + rest) == [c] + UnescapeXml(rest)
  {
    match c
    case '&' => UnescapeAt(Entity(c), c, rest, 0);
    case '<' => UnescapeAt(Entity(c), c, rest, 1);
    case '>' => UnescapeAt(Entity(c), c, rest, 2);
    case '"' => UnescapeAt(Entity(c), c, rest, 3);
    case '\'' => UnescapeAt(Entity(c), c, rest, 4);
    case _ =>
      var s := [c] + rest;
      assert s[0] == c && s[1..] == rest;
      UnescapePlain(s);
  }

  /** Text not starting with `&` reads back its first character unchanged. */
  lemma UnescapePlain(s: string)
    requires s != [] && s[0] != '&'
    ensures UnescapeXml(s) == [s[0]] + UnescapeXml(s[1..])
  {
    NotStartsWith(s, "&amp;");
    NotStartsWith(s, "&lt;");
    NotStartsWith(s, "&gt;");
    NotStartsWith(s, "&quot;");
    NotStartsWith(s, "&apos;");
  }

  /** The entity `e`, the `k`-th tried, is recognised, and the ones tried before it are not:
      they differ in their second or third character. */
  lemma UnescapeAt(e: string, c: char, rest: string, k: nat)
    requires k < 5 && e == ["&amp;", "&lt;", "&gt;", "&quot;", "&apos;"][k]
    requires c == "&<>\"'"[k]
    ensures UnescapeXml(e + rest) == [c] + UnescapeXml(rest)
  {
    var s := e + rest;
    assert s[..|e|] == e && s[|e|..] == rest;
    assert s[1] == e[1] && s[2] == e[2];
  }

  lemma {:induction false} UnescapeEscapeEach(text: string)
    ensures UnescapeXml(EscapeEach(text)) == text
  {
    if text != [] {
      UnescapeEntity(text[0], EscapeEach(text[1..]));
      UnescapeEscapeEach(text[1..]);
      assert text == [text[0]] + text[1..];
    }
  }

  /** Unescaping the five entities gives the input back. */
  lemma EscapeXmlRoundTrip(text: string)
    ensures UnescapeXml(EscapeXml(text)) == text
  {
    EscapeXmlIsEscapeEach(text);
    UnescapeEscapeEach(text);
  }

  // ----- extractSvgInner --------------------------------------------------------------------------

  /** `extractSvgInner`: the trimmed text between the first `>` at or after the first `<svg`
      (from the start when there is none, as `indexOf` treats position -1) and the last `</svg>`;
      the input itself when either is missing or they are out of order. */
  function ExtractSvgInner(svg: string): (r: string)
    ensures r == svg || |r| < |svg|
  {
    var from := match Find(svg, "<svg", 0) case Some(k) => k case None => 0;
    var start := Find(svg, ">", from);
    var end := FindLast(svg, "</svg>");
    if start.None? || end.None? || end.value <= start.value then svg
    else Trim(svg[start.value + 1..end.value])
  }

  /** Without a closing tag the input comes back unchanged. */
  lemma ExtractSvgInnerWithoutClose(svg: string)
    requires forall k :: !At(svg, k, "</svg>")
    ensures ExtractSvgInner(svg) == svg
  {
  }

  /** Either the input comes back unchanged, or the result is the trimmed text strictly between
      some `>` and the last `</svg>`. */
  lemma ExtractSvgInnerShape(svg: string)
    ensures ExtractSvgInner(svg) == svg ||
      exists gt: nat, close: nat :: gt < close <= |svg| && svg[gt] == '>' && At(svg, close, "</svg>")
        && (forall k :: close < k ==> !At(svg, k, "</svg>"))
        && ExtractSvgInner(svg) == Trim(svg[gt + 1..close])
  {
    var from := match Find(svg, "<svg", 0) case Some(k) => k case None => 0;
    var start := Find(svg, ">", from);
    var end := FindLast(svg, "</svg>");
    if start.Some? && end.Some? && start.value < end.value {
      assert At(svg, start.value, ">");
      assert svg[start.value] == '>';
      assert ExtractSvgInner(svg) == Trim(svg[start.value + 1..end.value]);
    }
  }

  /** With an opening tag `<svg…>` whose attributes hold no `>`, no earlier `<svg`, and no later
      `</svg>` than the one closing the body, the result is the body, trimmed. */
  lemma ExtractSvgInnerOfDocument(head: string, attrs: string, body: string, tail: string)
    requires forall k :: 0 <= k < |head| ==> !At(head + "<svg" + attrs + ">" + body + "</svg>" + tail, k, "<svg")
    requires '>' !in attrs
    requires forall k :: 0 < k ==> !At("</svg>" + tail, k, "</svg>")
    ensures ExtractSvgInner(head + "<svg" + attrs + ">" + body + "</svg>" + tail) == Trim(body)
  {
    var front := head + "<svg" + attrs + ">" + body;
    var svg := front + "</svg>" + tail;
    var gt := |head| + 4 + |attrs|;
    assert svg == head + "<svg" + attrs + ">" + (body + "</svg>" + tail);
    FindOpenTag(head, attrs, body + "</svg>" + tail);
    FindCloseTag(front, tail);
    assert svg[gt + 1..|front|] == body;
    ExtractSvgInnerAt(svg, |head|, gt, |front|);
  }

  /** Where the three searches land decides the result. */
  lemma ExtractSvgInnerAt(svg: string, open: nat, gt: nat, close: nat)
    requires Find(svg, "<svg", 0) == Some(open)
    requires Find(svg, ">", open) == Some(gt)
    requires FindLast(svg, "</svg>") == Some(close)
    requires gt < close
    ensures ExtractSvgInner(svg) == Trim(svg[gt + 1..close])
  {
  }

  lemma FindOpenTag(head: string, attrs: string, rest: string)
    requires forall k :: 0 <= k < |head| ==> !At(head + "<svg" + attrs + ">" + rest, k, "<svg")
    requires '>' !in attrs
    ensures Find(head + "<svg" + attrs + ">" + rest, "<svg", 0) == Some(|head|)
    ensures Find(head + "<svg" + attrs + ">" + rest, ">", |head|) == Some(|head| + 4 + |attrs|)
  {
    var svg := head + "<svg" + attrs + ">" + rest;
    FindOpenAt(head, attrs, rest, svg);
    FindGtAt(head, attrs, rest, svg);
  }

  lemma FindOpenAt(head: string, attrs: string, rest: string, svg: string)
    requires svg == head + "<svg" + attrs + ">" + rest
    requires forall k :: 0 <= k < |head| ==> !At(svg, k, "<svg")
    ensures Find(svg, "<svg", 0) == Some(|head|)
  {
    var open := |head|;
    assert At(svg, open, "<svg") by { assert svg[open..open + 4] == "<svg"; }
  }

  lemma FindGtAt(head: string, attrs: string, rest: string, svg: string)
    requires svg == head + "<svg" + attrs + ">" + rest
    requires '>' !in attrs
    ensures Find(svg, ">", |head|) == Some(|head| + 4 + |attrs|)
  {
    var open := |head|;
    var gt := open + 4 + |attrs|;
    assert At(svg, gt, ">") by { assert svg[gt] == '>'; }
    forall k | open <= k < gt ensures !At(svg, k, ">") {
      if k < open + 4 {
        assert svg[k] == "<svg"[k - open];
      } else {
        assert svg[k] == attrs[k - open - 4];
      }
    }
  }

  lemma FindCloseTag(front: string, tail: string)
    requires forall k :: 0 < k ==> !At("</svg>" + tail, k, "</svg>")
    ensures FindLast(front + "</svg>" + tail, "</svg>") == Some(|front|)
  {
    var svg := front + "</svg>" + tail;
    var close := |front|;
    assert svg[close..] == "</svg>" + tail;
    assert At(svg, close, "</svg>") by { assert svg[close..close + 6] == "</svg>"; }
    forall k | close < k ensures !At(svg, k, "</svg>") {
      var j := k - close;
      assert !At("</svg>" + tail, j, "</svg>");
      if k + 6 <= |svg| {
        assert svg[k..k + 6] == ("</svg>" + tail)[j..j + 6];
      }
    }
  }
}
