/**
  `CCaptura`, the Wayland front-end: the selection made with the cursor (create,
  move, resize by a corner handle), the check that ends a selection, and the menu
  of recognition backends that appears next to it. Wayland, Cairo and Pango
  calls are not modelled; what they would produce (the PNG of the crop, the
  monitor size, whether a screen buffer exists) is passed in.
*/
module Captura {
  import opened Common
  import opened Geometry
  import opened Ocr

  /** `EDragMode`. */
  datatype DragMode = DragNone | DragCreating | DragTopLeft | DragTopRight | DragBottomLeft | DragBottomRight | DragMoving

  const HANDLE_SIZE: real := 20.0
  const MIN_SELECTION: real := 5.0
  const READY_TEXT: string := "Selección lista. Elija una opción."
  const COPIED_TEXT: string := "¡Texto copiado!"

  /** The four resize handles, in the order a press tests them. */
  const HANDLES: seq<DragMode> := [DragTopLeft, DragTopRight, DragBottomLeft, DragBottomRight]

  function Corner(r: Rect, m: DragMode): Point
    requires m in HANDLES
  {
    match m
    case DragTopLeft => r.LeftTop()
    case DragTopRight => r.RightTop()
    case DragBottomLeft => r.LeftBottom()
    case DragBottomRight => r.RightBottom()
  }

  /** A selection under 5 on either side, which ends without opening the menu. */
  predicate TooSmall(r: Rect) {
    r.Width() < MIN_SELECTION || r.Height() < MIN_SELECTION
  }

  predicate StrictlyInside(r: Rect, p: Point) {
    r.min.x < p.x < r.max.x && r.min.y < p.y < r.max.y
  }

  /**
    The mode a press at `pos` starts, `sel` being the normalized selection: the
    first handle within 20 in the order TL, TR, BL, BR; otherwise moving when the
    press is strictly inside; otherwise a new selection.
  */
  function PressMode(sel: Rect, pos: Point): (m: DragMode)
    ensures m in HANDLES || m == DragMoving || m == DragCreating
    ensures m in HANDLES ==>
      exists k :: 0 <= k < |HANDLES| && HANDLES[k] == m && Near(pos, Corner(sel, m), HANDLE_SIZE)
        && forall j :: 0 <= j < k ==> !Near(pos, Corner(sel, HANDLES[j]), HANDLE_SIZE)
    ensures m !in HANDLES <==> forall k :: 0 <= k < |HANDLES| ==> !Near(pos, Corner(sel, HANDLES[k]), HANDLE_SIZE)
    ensures m == DragMoving <==> m !in HANDLES && StrictlyInside(sel, pos)
  {
    if Near(pos, sel.LeftTop(), HANDLE_SIZE) then DragTopLeft
    else if Near(pos, sel.RightTop(), HANDLE_SIZE) then DragTopRight
    else if Near(pos, sel.LeftBottom(), HANDLE_SIZE) then DragBottomLeft
    else if Near(pos, sel.RightBottom(), HANDLE_SIZE) then DragBottomRight
    else if StrictlyInside(sel, pos) then DragMoving
    else DragCreating
  }

  // ---------------------------------------------------------------- the menu

  datatype MenuAction = RunTesseract | RunPaddle | RunOllama | RunGemini | CopyText | Close

  /** Which recognition backends the program was built with (`HAS_TESSERACT` and so on). */
  datatype Backends = Backends(tesseract: bool, paddle: bool, ollama: bool, gemini: bool)

  /** `SMenuButton`. */
  datatype MenuButton = MenuButton(caption: string, pos: Point, size: Point, action: MenuAction)

  const MENU_WIDTH: int := 340
  const BUTTON_HEIGHT: int := 36
  const PADDING: int := 15
  const GAP: int := 8
  const COL_WIDTH: int := (MENU_WIDTH - PADDING * 2 - GAP) / 2

  /** The buttons in menu order: the backends built in, then Copiar and Cerrar. */
  function MenuDefs(b: Backends): (defs: seq<(string, MenuAction)>)
    ensures 2 <= |defs| <= 6
    ensures defs[|defs| - 2] == ("Copiar", CopyText) && defs[|defs| - 1] == ("Cerrar", Close)
  {
    (if b.tesseract then [("Tesseract", RunTesseract)] else [])
    + (if b.paddle then [("PaddleOCR", RunPaddle)] else [])
    + (if b.ollama then [("Ollama AI", RunOllama)] else [])
    + (if b.gemini then [("Gemini AI", RunGemini)] else [])
    + [("Copiar", CopyText), ("Cerrar", Close)]
  }

  /** A backend's button is offered exactly when that backend was built in. */
  lemma MenuDefsOffer(b: Backends)
    ensures ("Tesseract", RunTesseract) in MenuDefs(b) <==> b.tesseract
    ensures ("PaddleOCR", RunPaddle) in MenuDefs(b) <==> b.paddle
    ensures ("Ollama AI", RunOllama) in MenuDefs(b) <==> b.ollama
    ensures ("Gemini AI", RunGemini) in MenuDefs(b) <==> b.gemini
  {
    var defs := MenuDefs(b);
    forall k | 0 <= k < |defs| - 2
      ensures defs[k].1 in {RunTesseract, RunPaddle, RunOllama, RunGemini}
    {
    }
    assert forall k :: 0 <= k < |defs| ==> defs[k].1 in {RunTesseract, RunPaddle, RunOllama, RunGemini, CopyText, Close};
  }

  /** Top-left corner of the i-th button: two columns, rows of button height plus gap. */
  function Slot(pos: Point, i: nat): Point {
    Point(pos.x + (PADDING + (i % 2) * (COL_WIDTH + GAP)) as real,
          pos.y + (PADDING + (i / 2) * (BUTTON_HEIGHT + GAP)) as real)
  }

  const BUTTON_SIZE: Point := Point(COL_WIDTH as real, BUTTON_HEIGHT as real)

  /** The hit test of `checkMenuClick`: bounds included on all four sides. */
  predicate Inside(btn: MenuButton, p: Point) {
    && btn.pos.x <= p.x <= btn.pos.x + btn.size.x
    && btn.pos.y <= p.y <= btn.pos.y + btn.size.y
  }

  /**
    The grid leaves a gap between any two buttons, so no point hits two of them
    even with inclusive bounds: the first match is the only match.
  */
  lemma SlotsDisjoint(pos: Point, i: nat, j: nat, a: MenuButton, b: MenuButton, p: Point)
    requires i != j
    requires a.pos == Slot(pos, i) && a.size == BUTTON_SIZE
    requires b.pos == Slot(pos, j) && b.size == BUTTON_SIZE
    ensures !(Inside(a, p) && Inside(b, p))
  {
    if i / 2 == j / 2 {
      assert i % 2 != j % 2;
      if i % 2 < j % 2 {
        assert a.pos.x + a.size.x < b.pos.x;
      } else {
        assert b.pos.x + b.size.x < a.pos.x;
      }
    } else if i / 2 < j / 2 {
      assert a.pos.y + a.size.y < b.pos.y;
    } else {
      assert b.pos.y + b.size.y < a.pos.y;
    }
  }

  /** Where the menu opens: at the cursor, moved left by 200 and up by 300 where it would overflow. */
  function MenuPositionAsWritten(coords: Point, monitor: Point): Point {
    Point(if coords.x + 200.0 > monitor.x then coords.x - 200.0 else coords.x,
          if coords.y + 300.0 > monitor.y then coords.y - 300.0 else coords.y)
  }

  /**
    The menu is 340 wide, so shifting by 200 can leave up to 140 of it past the
    right edge of the monitor.
  */
  lemma MenuOverflowsAsWritten()
    ensures var p := MenuPositionAsWritten(Point(1700.0, 100.0), Point(1920.0, 1080.0));
      p.x + MENU_WIDTH as real > 1920.0
  {
  }

  /** The tallest menu: padding, three rows of buttons, and the 150 of the text area. */
  const MENU_HEIGHT: int := PADDING + 3 * (BUTTON_HEIGHT + GAP) + 150

  /** How far up the menu is moved when it would run past the bottom edge. */
  const MENU_LIFT: real := 300.0

  /**
    Where the menu opens, corrected: moved left by its own width where it would
    overflow; the vertical rule is kept, since 300 covers the tallest menu.
  */
  function MenuPosition(coords: Point, monitor: Point): (p: Point)
    ensures 0.0 <= coords.x <= monitor.x ==> p.x + MENU_WIDTH as real <= monitor.x
    ensures 0.0 <= coords.y <= monitor.y ==> p.y + MENU_HEIGHT as real <= monitor.y
    ensures 2.0 * MENU_WIDTH as real <= monitor.x && 0.0 <= coords.x ==> 0.0 <= p.x
    ensures 2.0 * MENU_LIFT <= monitor.y && 0.0 <= coords.y ==> 0.0 <= p.y
    ensures p.y == MenuPositionAsWritten(coords, monitor).y
  {
    var w := MENU_WIDTH as real;
    Point(if coords.x + w > monitor.x then coords.x - w else coords.x,
          if coords.y + MENU_LIFT > monitor.y then coords.y - MENU_LIFT else coords.y)
  }

  /** Every menu, whatever backends it lists, fits in MENU_HEIGHT. */
  lemma MenuHeightBound(b: Backends)
    ensures PADDING + ((|MenuDefs(b)| + 1) / 2) * (BUTTON_HEIGHT + GAP) + 150 <= MENU_HEIGHT
  {
  }

  /** The outputs the menu actions change. */
  datatype Outputs = Outputs(resultText: string, lastResults: seq<OcrResult>, clipboard: seq<string>, exitCode: Option<int>)

  /** The "Copiar" action as written: anything but the empty text and the ready notice is copied. */
  function CopyAsWritten(o: Outputs): Outputs {
    if o.resultText != [] && o.resultText != READY_TEXT then
      o.(clipboard := o.clipboard + [o.resultText], resultText := COPIED_TEXT)
    else o
  }

  /** Pressing Copiar twice puts the "copied" notice itself on the clipboard. */
  lemma CopyTwiceCopiesNotice(o: Outputs)
    requires o.resultText != [] && o.resultText != READY_TEXT
    ensures var twice := CopyAsWritten(CopyAsWritten(o));
      twice.clipboard == o.clipboard + [o.resultText, COPIED_TEXT]
  {
  }

  /** The "Copiar" action corrected: the copied notice is not copied either. */
  function Copy(o: Outputs): Outputs {
    if o.resultText != [] && o.resultText != READY_TEXT && o.resultText != COPIED_TEXT then
      o.(clipboard := o.clipboard + [o.resultText], resultText := COPIED_TEXT)
    else o
  }

  /** Only recognised text reaches the clipboard, and copying again changes nothing. */
  lemma CopyOnlyResults(o: Outputs)
    ensures Copy(Copy(o)) == Copy(o)
    ensures Copy(o).clipboard == o.clipboard
         || (Copy(o).clipboard == o.clipboard + [o.resultText]
             && o.resultText !in {[], READY_TEXT, COPIED_TEXT})
  {
  }

  /** What a menu action does, as written; a recognition action shows the backend's `results`. */
  function Act(a: MenuAction, o: Outputs, results: seq<OcrResult>): Outputs {
    match a
    case Close => o.(exitCode := Some(0))
    case CopyText => CopyAsWritten(o)
    case _ => o.(lastResults := results, resultText := JoinedText(results))
  }

  /** What a menu action does with the corrected Copiar. */
  function ActCorrected(a: MenuAction, o: Outputs, results: seq<OcrResult>): Outputs {
    if a == CopyText then Copy(o) else Act(a, o, results)
  }

  class Captura {
    const backends: Backends
    var dragMode: DragMode
    var selectionStart: Point
    var selectionEnd: Point
    var lastSelectionMin: Point
    var dragOffset: Point
    var lastCoords: Point
    var lastSelectionPng: seq<uint8>
    var lastResults: seq<OcrResult>
    var menuVisible: bool
    var menuPos: Point
    var resultText: string
    var pressedButton: int
    var menuButtons: seq<MenuButton>
    /** Text handed to the clipboard, oldest first. */
    var clipboard: seq<string>
    /** The code passed to `finish`, which ends the process. */
    var exitCode: Option<int>

    function Out(): Outputs
      reads this
    {
      Outputs(resultText, lastResults, clipboard, exitCode)
    }

    /** Outside a drag the selection is normalized: start is its top-left corner. */
    predicate Valid()
      reads this
    {
      dragMode == DragNone ==> selectionStart.x <= selectionEnd.x && selectionStart.y <= selectionEnd.y
    }

    constructor (backends: Backends)
      ensures Valid() && this.backends == backends
      ensures dragMode == DragNone && !menuVisible && resultText == [] && pressedButton == -1
      ensures menuButtons == [] && lastResults == [] && clipboard == [] && exitCode == None
    {
      this.backends := backends;
      dragMode := DragNone;
      selectionStart, selectionEnd, lastSelectionMin, dragOffset := ORIGIN, ORIGIN, ORIGIN, ORIGIN;
      lastCoords, menuPos := ORIGIN, ORIGIN;
      lastSelectionPng, lastResults := [], [];
      menuVisible, resultText, pressedButton := false, [], -1;
      menuButtons, clipboard, exitCode := [], [], None;
    }

    function Selection(): Rect
      reads this`selectionStart, this`selectionEnd
    {
      Normalized(Rect(selectionStart, selectionEnd))
    }

    /** The layout half of `drawMenu`: one button per entry, in the grid; the pressed highlight is reset. */
    method DrawMenu(pos: Point)
      modifies this`menuButtons, this`pressedButton
      ensures var defs := MenuDefs(backends);
        && |menuButtons| == |defs|
        && forall i :: 0 <= i < |defs| ==>
             menuButtons[i] == MenuButton(defs[i].0, Slot(pos, i), BUTTON_SIZE, defs[i].1)
      ensures pressedButton == -1
    {
      var defs := MenuDefs(backends);
      menuButtons := [];
      var i := 0;
      while i < |defs|
        invariant 0 <= i <= |defs| && |menuButtons| == i
        invariant forall k :: 0 <= k < i ==>
          menuButtons[k] == MenuButton(defs[k].0, Slot(pos, k), BUTTON_SIZE, defs[k].1)
      {
        menuButtons := menuButtons + [MenuButton(defs[i].0, Slot(pos, i), BUTTON_SIZE, defs[i].1)];
        i := i + 1;
      }
      pressedButton := -1;
    }

    /** A recognition button: the backend's results replace the last ones, and their texts are shown. */
    method ShowResults(results: seq<OcrResult>)
      modifies this`lastResults, this`resultText
      ensures lastResults == results && resultText == JoinedText(results)
    {
      lastResults := results;
      resultText := [];
      var i := 0;
      while i < |lastResults|
        invariant 0 <= i <= |lastResults| && lastResults == results
        invariant resultText == JoinedText(results[..i])
      {
        JoinedTextAppend(results[..i], [results[i]]);
        assert results[..i + 1] == results[..i] + [results[i]];
        resultText := resultText + lastResults[i].text + " ";
        i := i + 1;
      }
      assert results[..|results|] == results;
    }

    /** Runs one menu action; `results` is what the button's backend returns for the last crop. */
    method RunAction(a: MenuAction, results: seq<OcrResult>)
      modifies this`lastResults, this`resultText, this`clipboard, this`exitCode
      ensures Out() == Act(a, old(Out()), results)
    {
      match a
      case Close =>
        exitCode := Some(0);
      case CopyText =>
        if resultText != [] && resultText != READY_TEXT {
          clipboard := clipboard + [resultText];
          resultText := COPIED_TEXT;
        }
      case _ =>
        ShowResults(results);
    }

    /** `RunAction` with the corrected Copiar, which leaves the copied notice alone. */
    method RunActionCorrected(a: MenuAction, results: seq<OcrResult>)
      modifies this`lastResults, this`resultText, this`clipboard, this`exitCode
      ensures Out() == ActCorrected(a, old(Out()), results)
    {
      if a == CopyText {
        if resultText != [] && resultText != READY_TEXT && resultText != COPIED_TEXT {
          clipboard := clipboard + [resultText];
          resultText := COPIED_TEXT;
        }
      } else {
        RunAction(a, results);
      }
    }

    /**
      `checkMenuClick`: the first button containing the click, bounds included, is
      marked pressed and its action runs; with no hit the mark is cleared.
    */
    method CheckMenuClick(click: Point, results: seq<OcrResult>) returns (hit: bool)
      modifies this`pressedButton, this`lastResults, this`resultText, this`clipboard, this`exitCode
      ensures hit <==> exists i :: 0 <= i < |menuButtons| && Inside(menuButtons[i], click)
      ensures hit ==>
        && 0 <= pressedButton < |menuButtons| && Inside(menuButtons[pressedButton], click)
        && (forall j :: 0 <= j < pressedButton ==> !Inside(menuButtons[j], click))
        && Out() == Act(menuButtons[pressedButton].action, old(Out()), results)
      ensures !hit ==> pressedButton == -1 && Out() == old(Out())
    {
      var i := 0;
      while i < |menuButtons|
        invariant 0 <= i <= |menuButtons|
        invariant forall j :: 0 <= j < i ==> !Inside(menuButtons[j], click)
      {
        if Inside(menuButtons[i], click) {
          pressedButton := i;
          RunAction(menuButtons[i].action, results);
          assert Inside(menuButtons[i], click);
          return true;
        }
        i := i + 1;
      }
      pressedButton := -1;
      return false;
    }

    /**
      A button press. With the menu open, a click on a button runs it and ends
      there; any other click closes the menu. The press then starts a resize, a
      move or a new selection, whatever drag was in progress.
    */
    method OnButtonPressed(results: seq<OcrResult>)
      requires Valid()
      modifies this`pressedButton, this`lastResults, this`resultText, this`clipboard, this`exitCode
      modifies this`menuVisible, this`dragMode, this`dragOffset, this`selectionStart, this`selectionEnd
      ensures Valid()
      ensures var clicked := old(menuVisible) && exists i :: 0 <= i < |menuButtons| && Inside(menuButtons[i], lastCoords);
        && (clicked ==>
              && dragMode == old(dragMode) && menuVisible && dragOffset == old(dragOffset)
              && selectionStart == old(selectionStart) && selectionEnd == old(selectionEnd)
              && 0 <= pressedButton < |menuButtons|
              && Out() == Act(menuButtons[pressedButton].action, old(Out()), results))
        && (!clicked ==>
              && !menuVisible
              && resultText == old(resultText) && clipboard == old(clipboard) && exitCode == old(exitCode)
              && pressedButton == (if old(menuVisible) then -1 else old(pressedButton))
              && Pressed(old(Selection()), old(selectionStart), old(selectionEnd), old(dragOffset), old(lastResults)))
    {
      if menuVisible {
        var hit := CheckMenuClick(lastCoords, results);
        if hit {
          return;
        }
        menuVisible := false;
      }
      StartDrag();
    }

    /**
      The drag a press starts, given the selection `sel`, the corners `s` and `e`,
      the drag offset `offset` and the last results `rs` before it: the mode the
      press point picks; a move records the offset of the cursor from the top-left
      corner; a new selection collapses to the cursor and forgets the last results;
      a resize keeps the corners as they are. Nothing else changes.
    */
    predicate Pressed(sel: Rect, s: Point, e: Point, offset: Point, rs: seq<OcrResult>)
      reads this
    {
      && dragMode == PressMode(sel, lastCoords)
      && (dragMode == DragMoving ==>
            dragOffset == lastCoords.Minus(sel.min) && selectionStart == s && selectionEnd == e)
      && (dragMode == DragCreating ==>
            selectionStart == lastCoords && selectionEnd == lastCoords && lastResults == [])
      && (dragMode in HANDLES ==> selectionStart == s && selectionEnd == e)
      && (dragMode != DragMoving ==> dragOffset == offset)
      && (dragMode != DragCreating ==> lastResults == rs)
    }

    /** The second half of a press: the drag starts at the cursor. */
    method StartDrag()
      requires Valid()
      modifies this`dragMode, this`dragOffset, this`selectionStart, this`selectionEnd, this`lastResults
      ensures Valid()
      ensures Pressed(old(Selection()), old(selectionStart), old(selectionEnd), old(dragOffset), old(lastResults))
    {
      var sel := Selection();
      var pos := lastCoords;
      var mode := PressMode(sel, pos);
      dragMode := mode;
      if mode == DragMoving {
        dragOffset := pos.Minus(sel.min);
      } else if mode == DragCreating {
        selectionStart := pos;
        selectionEnd := pos;
        lastResults := [];
      }
    }

    /** Cursor motion: the position is recorded, and an active drag reshapes the selection. */
    method OnMotion(pos: Point)
      requires Valid()
      modifies this`lastCoords, this`selectionStart, this`selectionEnd
      ensures Valid()
      ensures lastCoords == pos
      ensures var s, e := old(selectionStart), old(selectionEnd);
        match dragMode
        case DragNone => selectionStart == s && selectionEnd == e
        case DragCreating => selectionStart == s && selectionEnd == pos
        case DragMoving =>
          selectionStart == pos.Minus(dragOffset)
          && selectionEnd.Minus(selectionStart) == old(Selection()).max.Minus(old(Selection()).min)
        case DragTopLeft => selectionStart == pos && selectionEnd == e
        case DragBottomRight => selectionStart == s && selectionEnd == pos
        case DragTopRight => selectionStart == Point(s.x, pos.y) && selectionEnd == Point(pos.x, e.y)
        case DragBottomLeft => selectionStart == Point(pos.x, s.y) && selectionEnd == Point(e.x, pos.y)
    {
      lastCoords := pos;
      if dragMode != DragNone {
        var sel := Selection();
        match dragMode {
          case DragCreating =>
            selectionEnd := pos;
          case DragMoving =>
            var size := sel.max.Minus(sel.min);
            selectionStart := pos.Minus(dragOffset);
            selectionEnd := selectionStart.Plus(size);
          case DragTopLeft =>
            selectionStart := pos;
          case DragBottomRight =>
            selectionEnd := pos;
          case DragTopRight =>
            selectionStart := Point(selectionStart.x, pos.y);
            selectionEnd := Point(pos.x, selectionEnd.y);
          case DragBottomLeft =>
            selectionStart := Point(pos.x, selectionStart.y);
            selectionEnd := Point(selectionEnd.x, pos.y);
        }
      }
    }

    /**
      `finishSelection`. A selection under 5 on either side is ignored. Without a
      screen buffer the program exits with code 1. Otherwise `png` (the encoded
      crop) is kept, the menu opens next to the cursor, moved left by 200 and up
      by 300 where it would overflow, and the ready notice shows.
    */
    method FinishSelection(hasBuffer: bool, png: seq<uint8>, monitor: Point)
      modifies this`lastSelectionPng, this`lastSelectionMin, this`lastResults, this`menuVisible
      modifies this`menuPos, this`resultText, this`exitCode
      ensures TooSmall(old(Selection())) ==>
        && Out() == old(Out()) && menuVisible == old(menuVisible)
        && lastSelectionPng == old(lastSelectionPng) && menuPos == old(menuPos)
      ensures !TooSmall(old(Selection())) && !hasBuffer ==>
        exitCode == Some(1) && menuVisible == old(menuVisible)
      ensures !TooSmall(old(Selection())) && hasBuffer ==>
        && lastSelectionPng == png && lastSelectionMin == old(Selection()).min && lastResults == []
        && menuVisible && menuPos == MenuPositionAsWritten(old(lastCoords), monitor)
        && resultText == READY_TEXT && exitCode == old(exitCode)
    {
      var sel := Selection();
      if TooSmall(sel) {
        return;
      }
      if !hasBuffer {
        exitCode := Some(1);
        return;
      }
      lastSelectionPng := png;
      lastSelectionMin := sel.min;
      lastResults := [];
      menuVisible := true;
      menuPos := MenuPositionAsWritten(lastCoords, monitor);
      resultText := READY_TEXT;
    }

    /** `FinishSelection` with the corrected menu placement: an opened menu lies within the monitor. */
    method FinishSelectionCorrected(hasBuffer: bool, png: seq<uint8>, monitor: Point)
      modifies this`lastSelectionPng, this`lastSelectionMin, this`lastResults, this`menuVisible
      modifies this`menuPos, this`resultText, this`exitCode
      ensures TooSmall(old(Selection())) ==>
        && Out() == old(Out()) && menuVisible == old(menuVisible)
        && lastSelectionPng == old(lastSelectionPng) && menuPos == old(menuPos)
      ensures !TooSmall(old(Selection())) && !hasBuffer ==>
        exitCode == Some(1) && menuVisible == old(menuVisible)
      ensures !TooSmall(old(Selection())) && hasBuffer ==>
        && lastSelectionPng == png && lastSelectionMin == old(Selection()).min && lastResults == []
        && menuVisible && menuPos == MenuPosition(old(lastCoords), monitor)
        && resultText == READY_TEXT && exitCode == old(exitCode)
    {
      var sel := Selection();
      if TooSmall(sel) {
        return;
      }
      if !hasBuffer {
        exitCode := Some(1);
        return;
      }
      lastSelectionPng := png;
      lastSelectionMin := sel.min;
      lastResults := [];
      menuVisible := true;
      menuPos := MenuPosition(lastCoords, monitor);
      resultText := READY_TEXT;
    }

    /**
      A button release ends an active drag: the corners are put in order (start
      is the top-left one) and the selection is finished.
    */
    method OnButtonReleased(hasBuffer: bool, png: seq<uint8>, monitor: Point)
      requires Valid()
      modifies this`dragMode, this`selectionStart, this`selectionEnd
      modifies this`lastSelectionPng, this`lastSelectionMin, this`lastResults, this`menuVisible
      modifies this`menuPos, this`resultText, this`exitCode
      ensures Valid() && dragMode == DragNone
      ensures old(dragMode) == DragNone ==>
        selectionStart == old(selectionStart) && selectionEnd == old(selectionEnd) && Out() == old(Out())
      ensures old(dragMode) != DragNone ==>
        Rect(selectionStart, selectionEnd) == old(Selection())
    {
      if dragMode != DragNone {
        dragMode := DragNone;
        var n := Selection();
        selectionStart, selectionEnd := n.min, n.max;
        NormalizedFixesNormal(n);
        FinishSelection(hasBuffer, png, monitor);
      }
    }
  }

  /**
    The copy bug, concretely: recognised text "Hola " is copied, then Copiar is
    pressed again. As written the clipboard ends with the notice; corrected it
    keeps the text.
  */
  method CopyTwice() returns (asWritten: seq<string>, corrected: seq<string>)
    ensures asWritten == ["Hola ", COPIED_TEXT] && corrected == ["Hola "]
  {
    var o := Outputs("Hola ", [], [], None);
    asWritten := CopyAsWritten(CopyAsWritten(o)).clipboard;
    corrected := Copy(Copy(o)).clipboard;
  }
}
