/** Reading the word rows of Tesseract's TSV output (`parseTsvWords`), in the two variants the
    scripts use, and the confidence filters applied to the words. */
module TesseractTsv {
  import opened Chars
  import opened Results
  import opened Strings
  import opened Seqs
  import OcrText

  datatype BBox = BBox(x0: int, y0: int, x1: int, y1: int)

  /** A recognised word. `confidence` is `None` where `parseFloat` gives `NaN`. */
  datatype Word = Word(text: string, confidence: Option<int>, bbox: BBox)

  /** The vectorisation script keeps the text column as it is; the label-debugging script trims
      it and skips rows whose text is empty. */
  datatype TextColumn = KeepText | TrimText

  /** The bounding box from the left, top, width and height columns when all four parse. */
  function BoxOf(left: Option<int>, top: Option<int>, width: Option<int>, height: Option<int>): Option<BBox>
  {
    if left.Some? && top.Some? && width.Some? && height.Some? then
      Some(BBox(left.value, top.value, left.value + width.value, top.value + height.value))
    else None
  }

  /** The loop body for one line: a word, or `None` where the loop `continue`s. Columns are
      level, page_num, block_num, par_num, line_num, word_num, left, top, width, height, conf,
      text; level 5 is the word level. */
  function RowWord(line: string, column: TextColumn): Option<Word>
  {
    if line == [] then None else ColumnsWord(Split(line, '\t'), column)
  }

  function ColumnsWord(cols: seq<string>, column: TextColumn): Option<Word>
  {
    if |cols| < 12 then None
    else
      FieldsWord(ParseInt(cols[0]), ParseInt(cols[6]), ParseInt(cols[7]), ParseInt(cols[8]),
                 ParseInt(cols[9]), ParseInt(cols[10]), cols[11], column)
  }

  /** The checks on the level, left, top, width, height, conf and text columns of one row, after
      the numeric columns are read. */
  function FieldsWord(level: Option<int>, left: Option<int>, top: Option<int>, width: Option<int>,
                      height: Option<int>, conf: Option<int>, text: string, column: TextColumn): Option<Word>
  {
    if level != Some(5) then None
    else
      var t := if column == TrimText then Trim(text) else text;
      if column == TrimText && t == [] then None
      else
        match BoxOf(left, top, width, height)
        case Some(box) => Some(Word(t, conf, box))
        case None => None
  }

  /** A row yields a word exactly when it is at level 5, has integer left, top, width and height,
      and (when trimming) non-empty text; the word's box runs from (left, top) to
      (left + width, top + height), its confidence is the conf column and its text the text
      column, trimmed when trimming. */
  lemma FieldsWordShape(level: Option<int>, left: Option<int>, top: Option<int>, width: Option<int>,
                        height: Option<int>, conf: Option<int>, text: string, column: TextColumn)
    ensures FieldsWord(level, left, top, width, height, conf, text, column).Some? <==>
      && level == Some(5)
      && left.Some? && top.Some? && width.Some? && height.Some?
      && (column == TrimText ==> Trim(text) != [])
    ensures FieldsWord(level, left, top, width, height, conf, text, column).Some? ==>
      var w := FieldsWord(level, left, top, width, height, conf, text, column).value;
      && left == Some(w.bbox.x0)
      && top == Some(w.bbox.y0)
      && width == Some(w.bbox.x1 - w.bbox.x0)
      && height == Some(w.bbox.y1 - w.bbox.y0)
      && w.confidence == conf
      && w.text == (if column == TrimText then Trim(text) else text)
  {
  }

  /** `BoxOf` is the box of the four numbers: `x1 = left + width`, `y1 = top + height`. */
  lemma BoxOfSome(left: Option<int>, top: Option<int>, width: Option<int>, height: Option<int>)
    ensures BoxOf(left, top, width, height).Some? <==> left.Some? && top.Some? && width.Some? && height.Some?
    ensures BoxOf(left, top, width, height).Some? ==>
      var b := BoxOf(left, top, width, height).value;
      left == Some(b.x0) && top == Some(b.y0) && width == Some(b.x1 - b.x0) && height == Some(b.y1 - b.y0)
  {
  }

  /** The lines of the TSV text after `\r\n` is turned into `\n`. */
  function TsvLines(tsv: Option<string>): (lines: seq<string>)
    ensures |lines| >= 1
  {
    Split(OcrText.CrlfToLf(tsv.GetOr([])), '\n')
  }

  /** `parseTsvWords`: the words of every line but the first (the header). */
  function ParseTsvWords(tsv: Option<string>, column: TextColumn): (r: seq<Word>)
    ensures |r| <= |TsvLines(tsv)| - 1
  {
    Collect((line: string) => RowWord(line, column), TsvLines(tsv)[1..])
  }

  /** Each word comes from a row after the header that passes the row checks. */
  lemma ParseTsvWordsOrigin(tsv: Option<string>, column: TextColumn, i: nat)
    requires i < |ParseTsvWords(tsv, column)|
    ensures exists k :: 1 <= k < |TsvLines(tsv)| && RowWord(TsvLines(tsv)[k], column) == Some(ParseTsvWords(tsv, column)[i])
  {
    var lines := TsvLines(tsv);
    CollectOrigin((line: string) => RowWord(line, column), lines[1..], i);
    var j :| 0 <= j < |lines[1..]| && RowWord(lines[1..][j], column) == Some(ParseTsvWords(tsv, column)[i]);
    assert lines[1..][j] == lines[j + 1];
  }

  /** The header line is never read: whatever it says, only the lines after it count. */
  lemma ParseTsvWordsSkipsHeader(header: string, body: string, column: TextColumn)
    requires '\n' !in header && '\r' !in header
    ensures ParseTsvWords(Some(header + "\n" + body), column) ==
      Collect((line: string) => RowWord(line, column), Split(OcrText.CrlfToLf(body), '\n'))
  {
    CrlfToLfAfterLine(header, body);
    assert Join([header], '\n') == header;
    SplitAfterJoin([header], '\n', OcrText.CrlfToLf(body));
  }

  lemma {:induction false} CrlfToLfAfterLine(header: string, body: string)
    requires '\r' !in header
    ensures OcrText.CrlfToLf(header + "\n" + body) == header + "\n" + OcrText.CrlfToLf(body)
  {
    if header == [] {
      assert header + "\n" + body == ['\n'] + body;
      assert (['\n'] + body)[1..] == body;
    } else {
      var s := header + "\n" + body;
      assert s[0] == header[0] && s[1..] == header[1..] + "\n" + body;
      CrlfToLfAfterLine(header[1..], body);
    }
  }

  // ----- rows as Tesseract writes them -----------------------------------------------------------

  /** The geometry and confidence columns of a row read as these numbers, at level 5. */
  predicate ReadsAs(cols: seq<string>, left: int, top: int, width: int, height: int, conf: int) {
    && |cols| >= 12
    && ParseInt(cols[0]) == Some(5)
    && ParseInt(cols[6]) == Some(left) && ParseInt(cols[7]) == Some(top)
    && ParseInt(cols[8]) == Some(width) && ParseInt(cols[9]) == Some(height)
    && ParseInt(cols[10]) == Some(conf)
  }

  /** Twelve tab-free columns at level 5 whose geometry and confidence columns read as numbers,
      joined with tabs, give the word those numbers describe. */
  lemma RowWordOfColumns(cols: seq<string>, left: int, top: int, width: int, height: int, conf: int,
                         column: TextColumn)
    requires |cols| == 12 && ReadsAs(cols, left, top, width, height, conf)
    requires forall k :: 0 <= k < 12 ==> '\t' !in cols[k]
    requires column == TrimText ==> cols[11] != [] && IsTrimmed(cols[11])
    ensures RowWord(Join(cols, '\t'), column) ==
      Some(Word(cols[11], Some(conf), BBox(left, top, left + width, top + height)))
  {
    assert Join(cols, '\t') != [] by {
      JoinEnds(cols, '\t');
    }
    assert Split(Join(cols, '\t'), '\t') == cols by {
      SplitJoin(cols, '\t');
    }
    ColumnsWordOf(cols, left, top, width, height, conf, column);
  }

  /** Columns at level 5 whose geometry and confidence columns read as numbers give the word
      those numbers describe. */
  lemma ColumnsWordOf(cols: seq<string>, left: int, top: int, width: int, height: int, conf: int,
                      column: TextColumn)
    requires ReadsAs(cols, left, top, width, height, conf)
    requires column == TrimText ==> cols[11] != [] && IsTrimmed(cols[11])
    ensures ColumnsWord(cols, column) ==
      Some(Word(cols[11], Some(conf), BBox(left, top, left + width, top + height)))
  {
    FieldsWordOf(left, top, width, height, conf, cols[11], column);
  }

  /** A level-5 row with its four box numbers read gives the word with that box. */
  lemma FieldsWordOf(left: int, top: int, width: int, height: int, conf: int, text: string,
                     column: TextColumn)
    requires column == TrimText ==> text != [] && IsTrimmed(text)
    ensures FieldsWord(Some(5), Some(left), Some(top), Some(width), Some(height), Some(conf), text, column)
      == Some(Word(text, Some(conf), BBox(left, top, left + width, top + height)))
  {
    if column == TrimText {
      assert Trim(text) == text;
    }
  }

  // ----- the filters applied to the words ----------------------------------------------------------

  /** `(w.confidence ?? 0) >= t`; `NaN` compares false. */
  predicate ConfidentAtLeast(w: Word, t: int) {
    match w.confidence
    case Some(c) => c >= t
    case None => false
  }

  predicate IsTracedWord(w: Word) {
    Trim(w.text) != [] && ConfidentAtLeast(w, 30)
  }

  /** The vectorisation scripts keep words with non-empty trimmed text and confidence at least 30. */
  function TracedWords(words: seq<Word>): (r: seq<Word>)
    ensures |r| <= |words|
    ensures forall i :: 0 <= i < |r| ==> IsTracedWord(r[i])
  {
    Filter(IsTracedWord, words)
  }

  /** Exactly the words that pass both filters are kept, in their order: a word passes when its
      trimmed text is non-empty and its confidence is at least 30. */
  lemma TracedWordsKeeps(a: seq<Word>, w: Word, b: seq<Word>)
    ensures TracedWords(a + [w] + b)
      == TracedWords(a) + (if IsTracedWord(w) then [w] else []) + TracedWords(b)
  {
    FilterKeeps(IsTracedWord, a, w, b);
  }
}
