/** Finding the Hebrew sub-question labels (א, ב, ג, ד, ה, ו, optionally with a dot) among the
    recognised words of a figure, and ordering them top to bottom, right to left. */
module SubpartLabels {
  import opened Chars
  import opened Results
  import opened Strings
  import opened Seqs
  import opened Sorting
  import opened TesseractTsv

  /** LEFT-TO-RIGHT MARK, RIGHT-TO-LEFT MARK and ZERO WIDTH SPACE, which OCR output carries around
      Hebrew text. */
  predicate IsMark(c: char) {
    c == '\U{200E}' || c == '\U{200F}' || c == '\U{200B}'
  }

  predicate NotMark(c: char) {
    !IsMark(c)
  }

  /** `normalizeText`: the marks removed everywhere, then the white space trimmed from both ends. */
  function NormalizeText(text: string): (r: string)
    ensures IsTrimmed(r)
  {
    Trim(Filter(NotMark, text))
  }

  /** The six letters the label pattern accepts, U+05D0 to U+05D5. */
  predicate IsSubpartLetter(c: char) {
    '\U{05D0}' <= c <= '\U{05D5}'
  }

  predicate NotSpace(c: char) {
    !IsSpace(c)
  }

  /** `^[אבגדהו][\.]?$`: one label letter, then at most a dot. */
  predicate IsLabelCore(s: string) {
    (|s| == 1 || (|s| == 2 && s[1] == '.')) && IsSubpartLetter(s[0])
  }

  /** `isHebrewSubpartLabel`: the normalised text with all white space removed is a label; that
      is, ignoring white space and marks anywhere in it, the text is one of the six letters, alone
      or followed by a dot. */
  predicate IsHebrewSubpartLabel(text: string)
    ensures IsHebrewSubpartLabel(text) <==> IsLabelCore(Content(text))
  {
    NormalizeTextContent(text);
    IsLabelCore(Filter(NotSpace, NormalizeText(text)))
  }

  // ----- normalisation ----------------------------------------------------------------------------

  /** Trimming only drops white space, so a filter that drops white space anyway sees no
      difference. */
  lemma FilterTrim(keep: char -> bool, s: string)
    requires forall c :: keep(c) ==> !IsSpace(c)
    ensures Filter(keep, Trim(s)) == Filter(keep, s)
  {
    FilterTrimStart(keep, s);
    FilterTrimEnd(keep, TrimStart(s));
  }

  lemma {:induction false} FilterTrimStart(keep: char -> bool, s: string)
    requires forall c :: keep(c) ==> !IsSpace(c)
    ensures Filter(keep, TrimStart(s)) == Filter(keep, s)
  {
    if |s| > 0 && IsSpace(s[0]) {
      FilterTrimStart(keep, s[1..]);
    }
  }

  lemma {:induction false} FilterTrimEnd(keep: char -> bool, s: string)
    requires forall c :: keep(c) ==> !IsSpace(c)
    ensures Filter(keep, TrimEnd(s)) == Filter(keep, s)
  {
    if |s| > 0 && IsSpace(s[|s| - 1]) {
      var init := s[..|s| - 1];
      FilterTrimEnd(keep, init);
      assert s == init + [s[|s| - 1]];
      FilterAppend(keep, init, [s[|s| - 1]]);
      assert [s[|s| - 1]][1..] == [];
    }
  }

  /** Normalised text has no marks. */
  lemma NormalizeTextHasNoMarks(text: string)
    ensures forall i :: 0 <= i < |NormalizeText(text)| ==> !IsMark(NormalizeText(text)[i])
  {
    var f := Filter(NotMark, text);
    var r := Trim(f);
    forall i | 0 <= i < |r| ensures !IsMark(r[i]) {
      assert r[i] == f[TrimOffset(f) + i];
    }
  }

  /** Normalising twice is normalising once. */
  lemma NormalizeTextIdempotent(text: string)
    ensures NormalizeText(NormalizeText(text)) == NormalizeText(text)
  {
    var r := NormalizeText(text);
    NormalizeTextHasNoMarks(text);
    FilterFixed(NotMark, r);
  }

  predicate IsContent(c: char) {
    !IsSpace(c) && !IsMark(c)
  }

  /** White space and marks removed together, which is what the label test looks at. */
  function Content(text: string): string {
    Filter(IsContent, text)
  }

  /** Normalising keeps the content: only marks and white space are dropped. */
  lemma NormalizeTextContent(text: string)
    ensures Filter(NotSpace, NormalizeText(text)) == Content(text)
  {
    FilterTrim(NotSpace, Filter(NotMark, text));
    FilterFilter(NotSpace, NotMark, IsContent, text);
  }

  /** Normalising a label leaves a label. */
  lemma NormalizeTextKeepsLabel(text: string)
    ensures IsHebrewSubpartLabel(NormalizeText(text)) <==> IsHebrewSubpartLabel(text)
  {
    NormalizeTextIdempotent(text);
  }

  // ----- hits -------------------------------------------------------------------------------------

  /** `(w.confidence ?? 0) >= 10`. */
  predicate ConfidentEnough(w: Word) {
    ConfidentAtLeast(w, 10)
  }

  predicate HasLabelText(w: Word) {
    IsHebrewSubpartLabel(w.text)
  }

  predicate IsHit(w: Word) {
    ConfidentAtLeast(w, 10) && IsHebrewSubpartLabel(w.text)
  }

  /** `{ ...w, text: normalizeText(w.text) }`. */
  function NormalizeWord(w: Word): Word {
    w.(text := NormalizeText(w.text))
  }

  /** The words confident enough and reading as a label, with their text normalised. */
  function Hits(words: seq<Word>): (r: seq<Word>)
    ensures |r| <= |words|
  {
    Map(NormalizeWord, Filter(HasLabelText, Filter(ConfidentEnough, words)))
  }

  /** The two filters in a row keep exactly the hits. */
  lemma HitsFilter(words: seq<Word>)
    ensures Hits(words) == Map(NormalizeWord, Filter(IsHit, words))
  {
    FilterFilter(HasLabelText, ConfidentEnough, IsHit, words);
  }

  /** Each word is judged on its own: a hit gives its normalised self, in place, and any other word
      gives nothing. */
  lemma HitsKeeps(a: seq<Word>, w: Word, b: seq<Word>)
    ensures Hits(a + [w] + b) == Hits(a) + (if IsHit(w) then [NormalizeWord(w)] else []) + Hits(b)
  {
    var mid := if IsHit(w) then [w] else [];
    var fa, fb := Filter(IsHit, a), Filter(IsHit, b);
    FilterKeeps(IsHit, a, w, b);
    MapThree(NormalizeWord, fa, mid, fb);
    assert Map(NormalizeWord, mid) == if IsHit(w) then [NormalizeWord(w)] else [];
    HitsFilter(a + [w] + b);
    HitsFilter(a);
    HitsFilter(b);
  }

  /** Every hit is confident enough, has normalised text, and that text is a label. */
  lemma HitsAreLabels(words: seq<Word>)
    ensures forall i :: 0 <= i < |Hits(words)| ==>
      && ConfidentAtLeast(Hits(words)[i], 10)
      && NormalizeText(Hits(words)[i].text) == Hits(words)[i].text
      && IsHebrewSubpartLabel(Hits(words)[i].text)
  {
    HitsFilter(words);
    var kept := Filter(IsHit, words);
    forall i | 0 <= i < |Hits(words)|
      ensures ConfidentAtLeast(Hits(words)[i], 10)
      ensures NormalizeText(Hits(words)[i].text) == Hits(words)[i].text
      ensures IsHebrewSubpartLabel(Hits(words)[i].text)
    {
      assert IsHit(kept[i]);
      NormalizeTextIdempotent(kept[i].text);
      NormalizeTextKeepsLabel(kept[i].text);
    }
  }

  // ----- ordering ---------------------------------------------------------------------------------

  /** `(a, b) => a.bbox.y0 - b.bbox.y0 || b.bbox.x0 - a.bbox.x0` read as "strictly before": higher
      on the page first, and on the same top edge the one further right first. */
  predicate HitBefore(a: Word, b: Word) {
    a.bbox.y0 < b.bbox.y0 || (a.bbox.y0 == b.bbox.y0 && a.bbox.x0 > b.bbox.x0)
  }

  lemma HitBeforeIsStrict()
    ensures StrictOrder(HitBefore)
  {
  }

  /** `hits.sort(...)`: the same hits, rearranged. */
  function SortHits(hits: seq<Word>): (r: seq<Word>)
    ensures multiset(r) == multiset(hits)
  {
    Sort(HitBefore, hits)
  }

  /** After sorting, top edges never decrease, and on a shared top edge left edges never
      increase. */
  lemma SortHitsOrder(hits: seq<Word>)
    ensures forall i, j :: 0 <= i < j < |SortHits(hits)| ==>
      var a, b := SortHits(hits)[i], SortHits(hits)[j];
      a.bbox.y0 < b.bbox.y0 || (a.bbox.y0 == b.bbox.y0 && a.bbox.x0 >= b.bbox.x0)
  {
    HitBeforeIsStrict();
    SortSorted(HitBefore, hits);
  }
}
