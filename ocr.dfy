/**
  `SOCRResult`, what every recognition backend of the Wayland front-end returns:
  a piece of text and its box (top-left position and size) in the cropped image.
*/
module Ocr {
  import opened Geometry

  datatype OcrResult = OcrResult(text: string, pos: Point, size: Point)

  /** The text shown for a list of results: each text followed by one space. */
  function JoinedText(rs: seq<OcrResult>): string {
    if rs == [] then [] else rs[0].text + " " + JoinedText(rs[1..])
  }

  lemma {:induction false} JoinedTextAppend(a: seq<OcrResult>, b: seq<OcrResult>)
    ensures JoinedText(a + b) == JoinedText(a) + JoinedText(b)
  {
    if a == [] {
      assert a + b == b;
    } else {
      assert (a + b)[0] == a[0];
      assert (a + b)[1..] == a[1..] + b;
      JoinedTextAppend(a[1..], b);
    }
  }

  /** Every result contributes its text and one space, so the text is as long as all of them together. */
  lemma {:induction false} JoinedTextLength(rs: seq<OcrResult>)
    ensures |JoinedText(rs)| == TotalLength(rs) + |rs|
  {
    if rs != [] {
      JoinedTextLength(rs[1..]);
    }
  }

  function TotalLength(rs: seq<OcrResult>): nat {
    if rs == [] then 0 else |rs[0].text| + TotalLength(rs[1..])
  }
}
