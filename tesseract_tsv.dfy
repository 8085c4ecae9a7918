/**
  The Rust app's reading of Tesseract's `image_to_data` output: tab-separated
  values, one header line, then one row per recognised item with twelve columns
  (level, page, block, paragraph, line, word, left, top, width, height, confidence,
  text). Parsing a column as `f32` is done by the standard library and is a
  parameter here.
*/
module TesseractTsv {
  import opened Common
  import opened Geometry
  import opened Text

  /** `OcrWord`: the raw text of the column, its confidence and its box in the crop. */
  datatype OcrWord = OcrWord(text: string, confidence: real, bbox: Rect)

  const TAB: char := '\t'
  const COLUMNS: nat := 12
  const MIN_CONFIDENCE: real := 50.0

  /** `str::parse::<f32>`, `None` for text that is not a number. */
  type Parser = string -> Option<real>

  /** `text.trim().is_empty()`, stated directly (see Text.TrimEmptyIff). */
  predicate Blank(s: string) {
    forall i :: 0 <= i < |s| ==> IsWhitespace(s[i])
  }

  /**
    The word one data row contributes, if any: a row with exactly twelve columns
    whose columns 6 to 10 all parse, with confidence above 50 and text that is not
    blank after trimming.
  */
  function RowWord(line: string, parse: Parser): (w: Option<OcrWord>)
    ensures w.Some? ==> w.value.confidence > MIN_CONFIDENCE
    ensures w.Some? ==> !Blank(w.value.text) && TAB !in w.value.text
  {
    var cols := Split(line, TAB);
    if |cols| != COLUMNS then None
    else
      var conf, x, y, wd, ht := parse(cols[10]), parse(cols[6]), parse(cols[7]), parse(cols[8]), parse(cols[9]);
      if conf.None? || x.None? || y.None? || wd.None? || ht.None? then None
      else if conf.value > MIN_CONFIDENCE && !Blank(cols[11]) then
        Some(OcrWord(cols[11], conf.value, FromMinSize(Point(x.value, y.value), Point(wd.value, ht.value))))
      else None
  }

  /**
    The text of a kept word is everything after the eleventh tab of its row: the
    row is some prefix holding ten tabs, a tab, then the text.
  */
  lemma RowTextIsLastColumn(line: string, parse: Parser)
    requires RowWord(line, parse).Some?
    ensures exists pre :: line == pre + [TAB] + RowWord(line, parse).value.text && Count(pre, TAB) == COLUMNS - 2
  {
    var cols := Split(line, TAB);
    JoinSplit(line, TAB);
    JoinSnoc(cols, TAB);
    var pre := Join(cols[..COLUMNS - 1], TAB);
    CountJoin(cols[..COLUMNS - 1], TAB);
    assert line == pre + [TAB] + cols[11];
  }

  /** A row is kept exactly when it has twelve columns that parse and pass both filters. */
  lemma RowKeptIff(line: string, parse: Parser)
    ensures RowWord(line, parse).Some? <==>
      var cols := Split(line, TAB);
      && |cols| == COLUMNS
      && (forall k :: 6 <= k <= 10 ==> parse(cols[k]).Some?)
      && parse(cols[10]).value > MIN_CONFIDENCE
      && exists c :: c in cols[11] && !IsWhitespace(c)
  {
    var cols := Split(line, TAB);
    if |cols| == COLUMNS && !Blank(cols[11]) {
      var i :| 0 <= i < |cols[11]| && !IsWhitespace(cols[11][i]);
      assert cols[11][i] in cols[11];
    }
  }

  /** The word a row contributes: one or none. */
  function Kept(line: string, parse: Parser): seq<OcrWord> {
    var w := RowWord(line, parse);
    if w.Some? then [w.value] else []
  }

  /** The words of the data rows, in row order. */
  function Words(rows: seq<string>, parse: Parser): (ws: seq<OcrWord>)
    ensures |ws| <= |rows|
    ensures forall k :: 0 <= k < |ws| ==> ws[k].confidence > MIN_CONFIDENCE && !Blank(ws[k].text)
  {
    if rows == [] then [] else Kept(rows[0], parse) + Words(rows[1..], parse)
  }

  lemma {:induction false} WordsAppend(a: seq<string>, b: seq<string>, parse: Parser)
    ensures Words(a + b, parse) == Words(a, parse) + Words(b, parse)
  {
    if a == [] {
      assert a + b == b;
    } else {
      assert (a + b)[0] == a[0] && (a + b)[1..] == a[1..] + b;
      WordsAppend(a[1..], b, parse);
      var head, wa, wb := Kept(a[0], parse), Words(a[1..], parse), Words(b, parse);
      assert head + (wa + wb) == (head + wa) + wb;
    }
  }

  /** `lines().skip(1)`: everything after the header line. */
  function DataRows(output: string): (rows: seq<string>)
    ensures |rows| == if Lines(output) == [] then 0 else |Lines(output)| - 1
  {
    var ls := Lines(output);
    if ls == [] then [] else ls[1..]
  }

  /**
    The header line never yields a word: for output written as line-feed-terminated
    lines, the words are those of the lines after the first.
  */
  lemma HeaderSkipped(header: string, rows: seq<string>, parse: Parser)
    requires forall k :: 0 <= k < |rows| ==> PlainLine(rows[k])
    requires PlainLine(header)
    ensures Words(DataRows(Terminated([header] + rows)), parse) == Words(rows, parse)
  {
    LinesTerminated([header] + rows);
    assert ([header] + rows)[1..] == rows;
  }

  /** What `results` accumulates: each word's trimmed text followed by one space. */
  function ResultsText(ws: seq<OcrWord>): string {
    if ws == [] then [] else Trim(ws[0].text) + " " + ResultsText(ws[1..])
  }

  lemma {:induction false} ResultsTextAppend(a: seq<OcrWord>, b: seq<OcrWord>)
    ensures ResultsText(a + b) == ResultsText(a) + ResultsText(b)
  {
    if a == [] {
      assert a + b == b;
    } else {
      assert (a + b)[0] == a[0];
      assert (a + b)[1..] == a[1..] + b;
      ResultsTextAppend(a[1..], b);
    }
  }

  /**
    The results text of kept words ends in a space exactly when some word was kept,
    and never starts with whitespace.
  */
  lemma {:induction false} ResultsTextShape(ws: seq<OcrWord>)
    requires forall k :: 0 <= k < |ws| ==> !Blank(ws[k].text)
    ensures ResultsText(ws) == [] <==> ws == []
    ensures ResultsText(ws) != [] ==> ResultsText(ws)[|ResultsText(ws)| - 1] == ' '
    ensures ResultsText(ws) != [] ==> !IsWhitespace(ResultsText(ws)[0])
  {
    if ws != [] {
      ResultsTextShape(ws[1..]);
      TrimEmptyIff(ws[0].text);
      TrimShape(ws[0].text);
      var t := Trim(ws[0].text);
      assert ResultsText(ws) == t + " " + ResultsText(ws[1..]);
      if ResultsText(ws[1..]) == [] {
        assert ResultsText(ws) == t + " ";
      }
    }
  }
}
