/**
  `ScreenshotApp` of the Rust front-end: the rectangle selection driven by cursor
  events, Tesseract OCR of the selection, and the single AI job whose streamed
  text arrives through a channel and is polled once per frame.
*/
module ScreenshotApp {
  import opened Common
  import opened Geometry
  import opened Text
  import opened TesseractTsv
  import opened Channels

  /** `DragMode`; `NotDragging` is the source's `DragMode::None`. */
  datatype DragMode = NotDragging | Creating | TopLeft | TopRight | BottomLeft | BottomRight

  const HANDLE_RADIUS: real := 8.0
  const PLACEHOLDER: string := "Analizando imagen con IA..."
  const PNG_ERROR: string := "Error: No se pudo codificar la imagen a PNG."
  const U32_LIMIT: int := 0x1_0000_0000

  /** The four resize handles, in the order a press tests them. */
  const HANDLES: seq<DragMode> := [TopLeft, TopRight, BottomLeft, BottomRight]

  /** The corner of `r` that a resize handle grabs. */
  function Corner(r: Rect, m: DragMode): Point
    requires m in HANDLES
  {
    match m
    case TopLeft => r.LeftTop()
    case TopRight => r.RightTop()
    case BottomLeft => r.LeftBottom()
    case BottomRight => r.RightBottom()
  }

  /** The handle diagonally opposite. */
  function Opposite(m: DragMode): (o: DragMode)
    requires m in HANDLES
    ensures o in HANDLES && o != m
  {
    match m
    case TopLeft => BottomRight
    case TopRight => BottomLeft
    case BottomLeft => TopRight
    case BottomRight => TopLeft
  }

  /**
    The mode a press at `pos` starts when no drag is active: the first handle, in
    the order TL, TR, BL, BR, whose corner of the normalized selection lies closer
    than 8, and otherwise a new selection.
  */
  function PressMode(selection: Option<Rect>, pos: Point): (m: DragMode)
    ensures m == Creating || m in HANDLES
    ensures m in HANDLES ==>
      selection.Some? && (
      exists k :: 0 <= k < |HANDLES| && HANDLES[k] == m
        && Near(Corner(Normalized(selection.value), m), pos, HANDLE_RADIUS)
        && forall j :: 0 <= j < k ==> !Near(Corner(Normalized(selection.value), HANDLES[j]), pos, HANDLE_RADIUS))
    ensures m == Creating <==>
      selection.None? || forall k :: 0 <= k < |HANDLES| ==> !Near(Corner(Normalized(selection.value), HANDLES[k]), pos, HANDLE_RADIUS)
  {
    if selection.None? then Creating
    else
      var s := Normalized(selection.value);
      if Near(s.LeftTop(), pos, HANDLE_RADIUS) then TopLeft
      else if Near(s.RightTop(), pos, HANDLE_RADIUS) then TopRight
      else if Near(s.LeftBottom(), pos, HANDLE_RADIUS) then BottomLeft
      else if Near(s.RightBottom(), pos, HANDLE_RADIUS) then BottomRight
      else Creating
  }

  /** The selection after a drag to `pos` in a mode other than `NotDragging`. */
  function Dragged(mode: DragMode, start: Option<Point>, sel: Rect, pos: Point): Rect
    requires mode != NotDragging
    requires mode == Creating ==> start.Some?
  {
    match mode
    case Creating => FromTwoPos(start.value, pos)
    case TopLeft => FromTwoPos(pos, sel.RightBottom())
    case TopRight => FromTwoPos(pos, sel.LeftBottom())
    case BottomLeft => FromTwoPos(pos, sel.RightTop())
    case BottomRight => FromTwoPos(pos, sel.LeftTop())
  }

  /** `pos` lies on the side of the anchor (the opposite corner) that handle `m` belongs to. */
  predicate OnHandleSide(sel: Rect, m: DragMode, pos: Point)
    requires m in HANDLES
  {
    var a := Corner(sel, Opposite(m));
    match m
    case TopLeft => pos.x <= a.x && pos.y <= a.y
    case TopRight => pos.x >= a.x && pos.y <= a.y
    case BottomLeft => pos.x <= a.x && pos.y >= a.y
    case BottomRight => pos.x >= a.x && pos.y >= a.y
  }

  /**
    Resizing by a handle moves that corner to the cursor and keeps the opposite
    corner where it was, as long as the cursor does not cross the anchor.
  */
  lemma HandleDragKeepsAnchor(sel: Rect, m: DragMode, pos: Point)
    requires IsNormalized(sel) && m in HANDLES && OnHandleSide(sel, m, pos)
    ensures var r := Dragged(m, None, sel, pos);
      Corner(r, m) == pos && Corner(r, Opposite(m)) == Corner(sel, Opposite(m))
  {
    var r := Dragged(m, None, sel, pos);
    var a := Corner(sel, Opposite(m));
    assert r == Rect(Point(Min(pos.x, a.x), Min(pos.y, a.y)), Point(Max(pos.x, a.x), Max(pos.y, a.y)));
    match m {
      case TopLeft => assert r == Rect(pos, a);
      case TopRight => assert r == Rect(Point(a.x, pos.y), Point(pos.x, a.y));
      case BottomLeft => assert r == Rect(Point(pos.x, a.y), Point(a.x, pos.y));
      case BottomRight => assert r == Rect(a, pos);
    }
  }

  /** `f32::round() as u32`: round half away from zero, saturating at both ends. */
  function RoundU32(v: real): (n: nat)
    ensures n < U32_LIMIT
    ensures 0.0 <= v && v + 0.5 < U32_LIMIT as real ==> n as real <= v + 0.5 < n as real + 1.0
  {
    if v < 0.0 then 0
    else if (v + 0.5).Floor >= U32_LIMIT then U32_LIMIT - 1
    else (v + 0.5).Floor
  }

  /** A side of the crop is empty exactly when it is shorter than half a pixel. */
  lemma RoundU32Zero(v: real)
    ensures RoundU32(v) == 0 <==> v < 0.5
  {
  }

  /** The crop rectangle in whole pixels: position and size of the normalized selection, rounded. */
  datatype Crop = Crop(x: nat, y: nat, width: nat, height: nat)

  function CropOf(selection: Rect): (c: Crop)
    ensures c.width == 0 <==> Normalized(selection).Width() < 0.5
    ensures c.height == 0 <==> Normalized(selection).Height() < 0.5
  {
    var s := Normalized(selection);
    RoundU32Zero(s.Width());
    RoundU32Zero(s.Height());
    Crop(RoundU32(s.min.x), RoundU32(s.min.y), RoundU32(s.Width()), RoundU32(s.Height()))
  }

  /** A selection whose rounded crop has pixels in both directions. */
  predicate Croppable(selection: Option<Rect>) {
    selection.Some? && CropOf(selection.value).width > 0 && CropOf(selection.value).height > 0
  }

  /** One streamed chunk added to the results: the placeholder text is replaced, anything else extended. */
  function AbsorbChunk(results: string, chunk: string): string {
    (if results == PLACEHOLDER then [] else results) + chunk
  }

  /** Chunks added one after another, oldest first. */
  function Absorb(results: string, chunks: seq<string>): string
    decreases |chunks|
  {
    if chunks == [] then results else Absorb(AbsorbChunk(results, chunks[0]), chunks[1..])
  }

  lemma {:induction false} AbsorbAppend(r: string, a: seq<string>, b: seq<string>)
    ensures Absorb(r, a + b) == Absorb(Absorb(r, a), b)
    decreases |a|
  {
    if a == [] {
      assert a + b == b;
    } else {
      assert (a + b)[0] == a[0];
      assert (a + b)[1..] == a[1..] + b;
      AbsorbAppend(AbsorbChunk(r, a[0]), a[1..], b);
    }
  }

  /** The text is never exactly the placeholder just before one of the chunks arrives. */
  predicate NeverPlaceholder(r: string, cs: seq<string>)
    decreases |cs|
  {
    cs == [] || (r != PLACEHOLDER && NeverPlaceholder(r + cs[0], cs[1..]))
  }

  /**
    As long as the text is never the placeholder when a chunk arrives, the chunks
    are appended in order and nothing is lost.
  */
  lemma {:induction false} AbsorbConcat(r: string, cs: seq<string>)
    requires NeverPlaceholder(r, cs)
    ensures Absorb(r, cs) == r + Concat(cs)
    decreases |cs|
  {
    if cs != [] {
      AbsorbConcat(r + cs[0], cs[1..]);
    }
  }

  /**
    Starting from the placeholder, the first chunk replaces it and the rest are
    appended, unless the text happens to spell the placeholder again.
  */
  lemma AbsorbFromPlaceholder(cs: seq<string>)
    requires cs != [] && NeverPlaceholder(cs[0], cs[1..])
    ensures Absorb(PLACEHOLDER, cs) == Concat(cs)
  {
    var first, rest := cs[0], cs[1..];
    assert AbsorbChunk(PLACEHOLDER, first) == first;
    assert Absorb(PLACEHOLDER, cs) == Absorb(first, rest);
    AbsorbConcat(first, rest);
  }

  /** One more row read: its word, if any, is appended. */
  lemma WordsStep(rows: seq<string>, i: nat, parse: Parser)
    requires i < |rows|
    ensures Words(rows[..i + 1], parse) == Words(rows[..i], parse) + Kept(rows[i], parse)
  {
    assert rows[..i + 1] == rows[..i] + [rows[i]];
    WordsAppend(rows[..i], [rows[i]], parse);
    assert [rows[i]][1..] == [];
  }

  /** One more word kept: its trimmed text and a space are appended. */
  lemma ResultsTextStep(ws: seq<OcrWord>, w: OcrWord)
    ensures ResultsText(ws + [w]) == ResultsText(ws) + Trim(w.text) + " "
  {
    ResultsTextAppend(ws, [w]);
    var t := Trim(w.text);
    var a := ResultsText(ws);
    assert [w][1..] == [];
    assert ResultsText([w]) == t + " ";
    assert a + (t + " ") == a + t + " ";
  }

  class App {
    var selection: Option<Rect>
    var dragStart: Option<Point>
    var dragMode: DragMode
    var ocrResults: seq<OcrWord>
    var results: string
    var isAiWorking: bool
    /** `ai_result_receiver`: the receiving end of the running job's channel. */
    var aiReceiver: Channel?<string>

    /**
      A job runs exactly while its receiver is held; only a new selection carries a
      drag start; a drag always has a selection; and the selection is always
      normalized, since every way of setting it produces a normalized rectangle.
    */
    predicate Valid()
      reads this
    {
      && (isAiWorking <==> aiReceiver != null)
      && (dragMode == Creating <==> dragStart.Some?)
      && (dragMode != NotDragging ==> selection.Some?)
      && (selection.Some? ==> IsNormalized(selection.value))
    }

    constructor ()
      ensures Valid()
      ensures selection == None && dragStart == None && dragMode == NotDragging
      ensures ocrResults == [] && results == [] && !isAiWorking && aiReceiver == null
    {
      selection, dragStart, dragMode := None, None, NotDragging;
      ocrResults, results := [], [];
      isAiWorking, aiReceiver := false, null;
    }

    /** A press on the screenshot (`is_pointer_button_down_on`), at `pos` if the cursor is known. */
    method OnPointerDown(pos: Option<Point>)
      requires Valid()
      modifies this`selection, this`dragStart, this`dragMode, this`ocrResults
      ensures Valid()
      ensures old(dragMode) != NotDragging || pos.None? ==>
        selection == old(selection) && dragStart == old(dragStart) && dragMode == old(dragMode) && ocrResults == old(ocrResults)
      ensures old(dragMode) == NotDragging && pos.Some? ==>
        dragMode == PressMode(old(selection), pos.value)
      ensures old(dragMode) == NotDragging && pos.Some? && dragMode in HANDLES ==>
        selection == old(selection) && dragStart == None && ocrResults == old(ocrResults)
      ensures old(dragMode) == NotDragging && pos.Some? && dragMode == Creating ==>
        selection == Some(FromMinSize(pos.value, ORIGIN)) && dragStart == pos && ocrResults == []
    {
      if dragMode == NotDragging && pos.Some? {
        var p := pos.value;
        var mode := PressMode(selection, p);
        if mode == Creating {
          dragMode := Creating;
          dragStart := Some(p);
          selection := Some(FromMinSize(p, ORIGIN));
          ocrResults := [];
        } else {
          dragMode := mode;
        }
      }
    }

    /** The cursor moved while pressed (`response.dragged()`). */
    method OnDrag(pos: Option<Point>)
      requires Valid()
      modifies this`selection
      ensures Valid()
      ensures pos.Some? && old(selection).Some? && dragMode != NotDragging ==>
        selection == Some(Dragged(dragMode, dragStart, old(selection).value, pos.value))
      ensures pos.None? || dragMode == NotDragging ==> selection == old(selection)
    {
      if pos.Some? && selection.Some? && dragMode != NotDragging {
        selection := Some(Dragged(dragMode, dragStart, selection.value, pos.value));
      }
    }

    /**
      `perform_ocr`: when the rounded crop is not empty and Tesseract succeeds
      (`output` is its TSV text, `None` its error), the words and the results text
      are rebuilt from the data rows; otherwise nothing changes.
    */
    method PerformOcr(output: Option<string>, parse: Parser)
      modifies this`ocrResults, this`results
      ensures if Croppable(selection) && output.Some? then
          ocrResults == Words(DataRows(output.value), parse) && results == ResultsText(ocrResults)
        else
          ocrResults == old(ocrResults) && results == old(results)
    {
      if selection.Some? {
        var crop := CropOf(selection.value);
        if crop.width > 0 && crop.height > 0 && output.Some? {
          ReadWords(DataRows(output.value), parse);
        }
      }
    }

    /** The loop over Tesseract's data rows: the words kept, in order, and their text. */
    method ReadWords(rows: seq<string>, parse: Parser)
      modifies this`ocrResults, this`results
      ensures ocrResults == Words(rows, parse) && results == ResultsText(ocrResults)
    {
      ocrResults := [];
      results := [];
      var i := 0;
      while i < |rows|
        invariant 0 <= i <= |rows|
        invariant ocrResults == Words(rows[..i], parse)
        invariant results == ResultsText(ocrResults)
      {
        var w := RowWord(rows[i], parse);
        WordsStep(rows, i, parse);
        if w.Some? {
          ResultsTextStep(ocrResults, w.value);
          results := results + Trim(w.value.text) + " ";
          ocrResults := ocrResults + [w.value];
        }
        i := i + 1;
      }
      assert rows[..|rows|] == rows;
    }

    /** The drag ended: the selection is normalized and OCR runs on it, then the drag state resets. */
    method OnDragStopped(output: Option<string>, parse: Parser)
      requires Valid()
      modifies this`selection, this`dragStart, this`dragMode, this`ocrResults, this`results
      ensures Valid()
      ensures dragMode == NotDragging && dragStart == None
      ensures selection == old(selection)
      ensures if Croppable(selection) && output.Some? then
          ocrResults == Words(DataRows(output.value), parse) && results == ResultsText(ocrResults)
        else
          ocrResults == old(ocrResults) && results == old(results)
    {
      if selection.Some? {
        NormalizeSelection();
        PerformOcr(output, parse);
      }
      dragMode := NotDragging;
      dragStart := None;
    }

    /** `*selection = selection.normalized()`: a no-op on a selection kept normalized. */
    method NormalizeSelection()
      requires Valid() && selection.Some?
      modifies this`selection
      ensures selection == old(selection)
    {
      NormalizedFixesNormal(selection.value);
      selection := Some(Normalized(selection.value));
    }

    /**
      `start_image_recognition_with_ai`: with no job running, a selection whose
      rounded crop is not empty, and a crop that encodes to PNG (`encoded`), a new
      job channel is opened and returned for the backend task. A failed encoding
      only reports the error.
    */
    method StartImageRecognitionWithAi(encoded: bool) returns (job: Channel?<string>)
      requires Valid()
      modifies this`results, this`isAiWorking, this`aiReceiver
      ensures Valid()
      ensures var eligible := !old(isAiWorking) && Croppable(selection);
        && (eligible && encoded ==>
              job != null && fresh(job) && aiReceiver == job && isAiWorking && results == PLACEHOLDER
              && job.queue == [] && !job.senderGone && !job.receiverGone)
        && (eligible && !encoded ==>
              job == null && results == PNG_ERROR && aiReceiver == old(aiReceiver) && !isAiWorking)
        && (!eligible ==>
              job == null && results == old(results) && aiReceiver == old(aiReceiver) && isAiWorking == old(isAiWorking))
    {
      job := null;
      if isAiWorking || selection.None? {
        return;
      }
      var crop := CropOf(selection.value);
      if crop.width == 0 || crop.height == 0 {
        return;
      }
      if !encoded {
        results := PNG_ERROR;
        return;
      }
      job := new Channel<string>();
      aiReceiver := job;
      isAiWorking := true;
      results := PLACEHOLDER;
    }

    /**
      `poll_ai_result` as written: drains the channel with `try_iter`, then calls
      `try_recv` once more only to detect disconnection. The backend runs
      concurrently: `late` is a chunk it sends, and `lateHangUp` says whether it
      finishes, in the window between the two calls. A late chunk is taken by the
      probe and thrown away.
    */
    method PollAiResultAsWritten(late: Option<string>, lateHangUp: bool)
      requires Valid()
      requires late.Some? ==> aiReceiver != null && !aiReceiver.senderGone && !aiReceiver.receiverGone
      modifies this`results, this`isAiWorking, this`aiReceiver, aiReceiver
      ensures Valid()
      ensures old(aiReceiver) == null ==> results == old(results) && aiReceiver == null
      ensures old(aiReceiver) != null ==>
        && results == Absorb(old(results), old(aiReceiver.queue))
        && old(aiReceiver).queue == []
        && old(aiReceiver).senderGone == (old(aiReceiver.senderGone) || lateHangUp)
        && old(aiReceiver).receiverGone == old(aiReceiver.receiverGone)
        && (aiReceiver == null <==> old(aiReceiver.senderGone) || (lateHangUp && late.None?))
        && (aiReceiver != null ==> aiReceiver == old(aiReceiver))
    {
      var rx := aiReceiver;
      if rx == null {
        return;
      }
      Drain(rx);
      if late.Some? {
        var _ := rx.Send(late.value);
      }
      if lateHangUp {
        rx.DropSender();
      }
      var probe := rx.TryRecv();
      if probe.Disconnected? {
        isAiWorking := false;
        aiReceiver := null;
      }
    }

    /** The `try_iter` loop: every chunk queued now is taken, in order, and nothing else changes. */
    method Drain(rx: Channel<string>)
      modifies this`results, rx
      ensures results == Absorb(old(results), old(rx.queue))
      ensures rx.queue == [] && rx.senderGone == old(rx.senderGone) && rx.receiverGone == old(rx.receiverGone)
    {
      ghost var taken: seq<string> := [];
      while true
        invariant taken + rx.queue == old(rx.queue)
        invariant results == Absorb(old(results), taken)
        invariant rx.senderGone == old(rx.senderGone) && rx.receiverGone == old(rx.receiverGone)
        decreases |rx.queue|
      {
        var r := rx.TryRecv();
        if !r.Received? {
          break;
        }
        AbsorbAppend(old(results), taken, [r.value]);
        taken := taken + [r.value];
        results := AbsorbChunk(results, r.value);
      }
      assert taken == old(rx.queue);
    }

    /**
      `poll_ai_result` corrected: one loop of `try_recv` takes every queued chunk in
      order and ends on `Empty`, or on `Disconnected`, which ends the job.
      Every chunk is either in the results or still queued for the next frame.
    */
    method PollAiResult()
      requires Valid()
      modifies this`results, this`isAiWorking, this`aiReceiver, aiReceiver
      ensures Valid()
      ensures old(aiReceiver) == null ==> results == old(results) && aiReceiver == null
      ensures old(aiReceiver) != null ==>
        && results == Absorb(old(results), old(aiReceiver.queue))
        && old(aiReceiver).queue == []
        && old(aiReceiver).senderGone == old(aiReceiver.senderGone)
        && old(aiReceiver).receiverGone == old(aiReceiver.receiverGone)
        && (aiReceiver == null <==> old(aiReceiver.senderGone))
        && (aiReceiver != null ==> aiReceiver == old(aiReceiver))
    {
      var rx := aiReceiver;
      if rx == null {
        return;
      }
      ghost var taken: seq<string> := [];
      while true
        invariant rx == aiReceiver && isAiWorking && Valid()
        invariant taken + rx.queue == old(rx.queue)
        invariant results == Absorb(old(results), taken)
        invariant rx.senderGone == old(rx.senderGone) && rx.receiverGone == old(rx.receiverGone)
        decreases |rx.queue|
      {
        var r := rx.TryRecv();
        if r.Disconnected? {
          isAiWorking := false;
          aiReceiver := null;
          break;
        } else if r.Empty? {
          break;
        }
        AbsorbAppend(old(results), taken, [r.value]);
        taken := taken + [r.value];
        results := AbsorbChunk(results, r.value);
      }
      assert taken == old(rx.queue);
    }
  }

  /**
    The lost chunk, concretely: the job has sent "Hola" when a frame polls; "mundo"
    arrives, and the job ends, between the drain and the probe. Two frames later the
    code as written shows "Hola", the corrected poll "Holamundo".
  */
  method LateChunkLost() returns (asWritten: string, corrected: string)
    ensures asWritten == "Hola" && corrected == "Holamundo"
  {
    asWritten := LateChunkAsWritten();
    corrected := LateChunkCorrected();
  }

  /** The scenario of `LateChunkLost` against the poll as written. */
  method LateChunkAsWritten() returns (shown: string)
    ensures shown == "Hola"
  {
    var app := new App();
    app.selection := Some(Rect(ORIGIN, Point(10.0, 10.0)));
    var job := app.StartImageRecognitionWithAi(true);
    var _ := job.Send("Hola");
    app.PollAiResultAsWritten(Some("mundo"), true);
    assert app.results == AbsorbChunk(PLACEHOLDER, "Hola");
    app.PollAiResultAsWritten(None, false);
    shown := app.results;
  }

  /** The same scenario against the corrected poll. */
  method LateChunkCorrected() returns (shown: string)
    ensures shown == "Holamundo"
  {
    var app := new App();
    app.selection := Some(Rect(ORIGIN, Point(10.0, 10.0)));
    var job := app.StartImageRecognitionWithAi(true);
    var _ := job.Send("Hola");
    app.PollAiResult();
    var _ := job.Send("mundo");
    job.DropSender();
    app.PollAiResult();
    assert app.results == Absorb(AbsorbChunk(PLACEHOLDER, "Hola"), ["mundo"]);
    shown := app.results;
  }
}
