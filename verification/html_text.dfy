/** Text helpers of the A4 page rules: `stripHtml` and `escapeRegExpLiteral`. */
module HtmlText {
  import opened Chars
  import opened Strings

  /** No `<` has a `>` anywhere after it, so `/<[^>]*>/` finds nothing. */
  predicate TagFree(s: string) {
    forall i, j :: 0 <= i < j < |s| && s[i] == '<' ==> s[j] != '>'
  }

  lemma TagFreeSlice(s: string, a: nat, b: nat)
    requires TagFree(s) && a <= b <= |s|
    ensures TagFree(s[a..b])
  {
    var t := s[a..b];
    forall i, j | 0 <= i < j < |t| && t[i] == '<' ensures t[j] != '>' {
      assert t[i] == s[a + i] && t[j] == s[a + j];
    }
  }

  /** `s.replace(/<[^>]*>/g, '')`: scanning left to right, each `<` that has a `>` after it is
      deleted together with everything up to and including the first such `>`. */
  function RemoveTags(s: string): (r: string)
    ensures |r| <= |s|
    ensures '>' in r ==> '>' in s
    ensures TagFree(r)
    decreases |s|
  {
    if s == [] then []
    else if s[0] == '<' && '>' in s[1..] then
      var k := IndexOfChar(s[1..], '>');
      RemoveTags(s[k + 2..])
    else
      var rest := RemoveTags(s[1..]);
      var r := [s[0]] + rest;
      assert TagFree(r) by {
        if s[0] == '<' {
          assert '>' !in rest;
          forall j | 1 <= j < |r| ensures r[j] != '>' {
            assert r[j] == rest[j - 1];
          }
        }
      }
      r
  }

  /** Text without markup comes back unchanged. */
  lemma {:induction false} RemoveTagsFixed(s: string)
    requires TagFree(s)
    ensures RemoveTags(s) == s
    decreases |s|
  {
    if s != [] {
      TagFreeSlice(s, 1, |s|);
      RemoveTagsFixed(s[1..]);
      if s[0] == '<' {
        assert '>' !in s[1..] by {
          forall k | 1 <= k < |s| ensures s[k] != '>' { }
        }
      }
    }
  }

  lemma {:induction false} CollapseKeepsTagFree(s: string)
    requires TagFree(s)
    ensures TagFree(CollapseSpaces(s))
    decreases |s|
  {
    if s != [] {
      if IsSpace(s[0]) {
        var rest := TrimStart(s);
        TagFreeSlice(s, |s| - |rest|, |s|);
        CollapseKeepsTagFree(rest);
      } else {
        TagFreeSlice(s, 1, |s|);
        CollapseKeepsTagFree(s[1..]);
        var c := CollapseSpaces(s);
        var tail := CollapseSpaces(s[1..]);
        assert c == [s[0]] + tail;
        if s[0] == '<' {
          assert '>' !in s[1..] by {
            forall k | 1 <= k < |s| ensures s[k] != '>' { }
          }
          CollapseSpacesKeepsAbsent(s[1..], '>');
          forall j | 1 <= j < |c| ensures c[j] != '>' {
            assert c[j] == tail[j - 1];
          }
        }
      }
    }
  }

  lemma TrimKeepsTagFree(s: string)
    requires TagFree(s)
    ensures TagFree(Trim(s))
  {
    TagFreeSliceIs(s, TrimOffset(s), Trim(s));
  }

  /** The same, for a slice given by its value. */
  lemma TagFreeSliceIs(s: string, a: nat, t: string)
    requires TagFree(s) && IsSliceAt(t, s, a)
    ensures TagFree(t)
  {
    TagFreeSlice(s, a, a + |t|);
  }

  lemma NormalizeKeepsTagFree(s: string)
    requires TagFree(s)
    ensures TagFree(NormalizeSpaces(s))
  {
    CollapseKeepsTagFree(s);
    TrimKeepsTagFree(CollapseSpaces(s));
  }

  /** `stripHtml`: markup spans removed, white-space runs turned into single spaces, ends trimmed.
      The result has no markup left for a second pass to remove. */
  function StripHtml(text: string): (r: string)
    ensures IsNormalized(r) && TagFree(r)
  {
    var bare := RemoveTags(text);
    NormalizeKeepsTagFree(bare);
    NormalizeSpaces(bare)
  }

  lemma StripHtmlIdempotent(text: string)
    ensures StripHtml(StripHtml(text)) == StripHtml(text)
  {
    var once := StripHtml(text);
    RemoveTagsFixed(once);
    NormalizedIsFixed(once);
  }

  // ----- escapeRegExpLiteral ----------------------------------------------------------------

  /** The characters `escapeRegExpLiteral` escapes: `\ ^ $ . * + ? ( ) [ ] { } |` (not `-`). */
  predicate IsRegExpMeta(c: char) {
    c in "\\^$.*+?()[]{}|"
  }

  /** `text.replace(/[\\^$.*+?()[\]{}|]/g, '\\$&')`: a backslash before every metacharacter. */
  function EscapeRegExpLiteral(text: string): (r: string)
    ensures |r| >= |text|
    ensures IsEscapedLiteral(r)
    ensures (forall i :: 0 <= i < |text| ==> !IsRegExpMeta(text[i])) ==> r == text
  {
    if text == [] then []
    else if IsRegExpMeta(text[0]) then ['\\', text[0]] + EscapeRegExpLiteral(text[1..])
    else [text[0]] + EscapeRegExpLiteral(text[1..])
  }

  /** Read as a pattern, `p` is a chain of literal atoms: each character is either an ordinary
      one or a backslash followed by a metacharacter. */
  predicate IsEscapedLiteral(p: string)
    decreases |p|
  {
    || p == []
    || (!IsRegExpMeta(p[0]) && IsEscapedLiteral(p[1..]))
    || (|p| >= 2 && p[0] == '\\' && IsRegExpMeta(p[1]) && IsEscapedLiteral(p[2..]))
  }

  /** Deletes the backslash in front of each metacharacter. */
  function UnescapeRegExpLiteral(p: string): string
    decreases |p|
  {
    if p == [] then []
    else if |p| >= 2 && p[0] == '\\' && IsRegExpMeta(p[1]) then [p[1]] + UnescapeRegExpLiteral(p[2..])
    else [p[0]] + UnescapeRegExpLiteral(p[1..])
  }

  /** Deleting the inserted backslashes gives the input back. */
  lemma {:induction false} EscapeRegExpLiteralRoundTrip(text: string)
    ensures UnescapeRegExpLiteral(EscapeRegExpLiteral(text)) == text
  {
    if text != [] {
      EscapeRegExpLiteralRoundTrip(text[1..]);
      var e := EscapeRegExpLiteral(text);
      if IsRegExpMeta(text[0]) {
        assert e[2..] == EscapeRegExpLiteral(text[1..]);
      } else {
        assert e[1..] == EscapeRegExpLiteral(text[1..]);
        assert text[0] != '\\';
      }
    }
  }
}
