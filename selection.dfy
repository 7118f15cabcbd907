/**
 * The selection overlay of MainWindow: the mouse handlers that draw the selection box,
 * the scaling of that box to device pixels, the choice between a point click and a
 * region capture, and what happens to the recognised text.
 */
module Selection {
  import opened Outcomes
  import opened Text
  import opened Imaging
  import opened Ocr

  /** selectBorder's geometry: Canvas.Left, Canvas.Top, Width and Height. */
  datatype Box = Box(left: real, top: real, width: real, height: real)

  /** System.Drawing.Rectangle in device pixels. */
  datatype ScreenRect = ScreenRect(left: int, top: int, width: int, height: int)

  /** Where MouseUp sends the selection. */
  datatype Route = PointClick(at: Point) | RegionCapture(region: ScreenRect)

  /** How a MouseUp ends. */
  datatype GrabOutcome =
    | Copied(text: string)   // Clipboard.SetText(text) and the application shuts down
    | Retry                  // blank text: the overlay comes back for another try
    | Faulted(fault: Fault)  // an exception escapes the handler

  /**
   * What the handlers learn from the environment: the window's absolute position, its
   * size and DPI scale, the input language, the installed languages, the screen's
   * pixels and the OCR engine.
   */
  datatype Desktop = Desktop(
    origin: Point,
    actualWidth: real, actualHeight: real,
    dpiScaleX: real, dpiScaleY: real,
    inputLanguage: string,
    installed: seq<string>,
    screen: Screen,
    recognize: Engine)

  function Abs(x: real): real { if x < 0.0 then -x else x }

  /** C#'s (int) cast of a double. */
  function Trunc(x: real): int {
    if x >= 0.0 then x.Floor else -((-x).Floor)
  }

  /** The cast rounds toward zero: it drops the fraction without crossing zero. */
  lemma TruncRoundsTowardZero(x: real)
    ensures x >= 0.0 ==> Trunc(x) as real <= x < Trunc(x) as real + 1.0
    ensures x < 0.0 ==> Trunc(x) as real - 1.0 < x <= Trunc(x) as real
  {
  }

  /** Truncation keeps a value on the same side of a whole-number threshold. */
  lemma TruncBelow(x: real, k: int)
    requires k >= 1
    ensures Trunc(x) < k <==> x < k as real
  {
    TruncRoundsTowardZero(x);
  }

  /**
   * The box after a mouse move to p from the anchor: nothing changes unless the pointer
   * moved on both axes; then width and height are the distances to the anchor, and the
   * left (top) edge moves to the pointer only on an axis where it went left (up).
   * On an axis where it went right (down) the edge keeps whatever value it had.
   */
  function Dragged(b: Box, anchor: Point, p: Point): (r: Box)
    ensures p.x == anchor.x || p.y == anchor.y ==> r == b
    ensures p.x != anchor.x && p.y != anchor.y ==>
      r.width > 0.0 && r.height > 0.0
      && (p.x < anchor.x ==> r.left == p.x && r.left + r.width == anchor.x)
      && (p.x > anchor.x ==> r.left == b.left && anchor.x + r.width == p.x)
      && (p.y < anchor.y ==> r.top == p.y && r.top + r.height == anchor.y)
      && (p.y > anchor.y ==> r.top == b.top && anchor.y + r.height == p.y)
  {
    var dx := p.x - anchor.x;
    var dy := p.y - anchor.y;
    if dx == 0.0 || dy == 0.0 then b
    else Box(if dx < 0.0 then p.x else b.left, if dy < 0.0 then p.y else b.top, Abs(dx), Abs(dy))
  }

  /** The box scaled by the transform's diagonal and truncated to whole pixels. */
  function ScaledRegion(b: Box, m11: real, m22: real): ScreenRect {
    ScreenRect(Trunc(b.left * m11), Trunc(b.top * m22), Trunc(b.width * m11), Trunc(b.height * m22))
  }

  /**
   * A box narrower or lower than 3 device pixels is a click at its scaled top-left corner;
   * any other box is captured as its scaled, truncated rectangle.
   */
  function RouteOf(b: Box, m11: real, m22: real): (r: Route)
    ensures r.PointClick? ==> r.at == Point(b.left * m11, b.top * m22)
    ensures r.RegionCapture? ==> r.region.width >= 3 && r.region.height >= 3
  {
    var region := ScaledRegion(b, m11, m22);
    if region.width < 3 || region.height < 3 then PointClick(Point(b.left * m11, b.top * m22))
    else RegionCapture(region)
  }

  /**
   * Truncation does not move the threshold: a box is a click exactly when its scaled width
   * or height is below 3, and a captured region is the scaled box cut down to whole pixels.
   */
  lemma RouteByScaledSize(b: Box, m11: real, m22: real)
    ensures RouteOf(b, m11, m22).PointClick? <==> b.width * m11 < 3.0 || b.height * m22 < 3.0
    ensures var r := RouteOf(b, m11, m22); r.RegionCapture? ==>
      r.region.width as real <= b.width * m11 < r.region.width as real + 1.0
      && r.region.height as real <= b.height * m22 < r.region.height as real + 1.0
      && r.region.left == Trunc(b.left * m11) && r.region.top == Trunc(b.top * m22)
  {
    var region := ScaledRegion(b, m11, m22);
    assert region.width == Trunc(b.width * m11) && region.height == Trunc(b.height * m22);
    assert RouteOf(b, m11, m22).PointClick? <==> region.width < 3 || region.height < 3;
    TruncBelow(b.width * m11, 3);
    TruncBelow(b.height * m22, 3);
    TruncRoundsTowardZero(b.width * m11);
    TruncRoundsTowardZero(b.height * m22);
  }

  /** The text of a successful recognition with its outer white space removed; faults pass through. */
  function Trimmed(t: Result<string, Fault>): (r: Result<string, Fault>)
    ensures r.Success? <==> t.Success?
    ensures r.Success? ==> IsTrimmed(r.value) && (r.value == [] <==> AllWhiteSpace(t.value))
    ensures r.Failure? ==> r == t
  {
    match t
    case Failure(e) => Failure(e)
    case Success(s) => Success(Trim(s))
  }

  /** What GetRegionsText returns: capture the region, pad it, recognise it in full, trim. */
  function RegionsText(region: ScreenRect, env: Desktop): (r: Result<string, Fault>)
    ensures r.Success? ==> IsTrimmed(r.value)
  {
    if region.width < 1 || region.height < 1 then Failure(InvalidBitmapSize(region.width, region.height))
    else
      var shot := Captured(env.screen, Trunc(env.origin.x) + region.left, Trunc(env.origin.y) + region.top,
                           region.width, region.height);
      var lang := ChooseLanguage(env.inputLanguage, env.installed);
      Trimmed(Extracted(Pad(shot, 64, 64), lang, env.installed, env.recognize, None))
  }

  /** A proof helper for GetRegionsText: RegionsText unfolded into its capture, pad, recognise and trim steps. */
  lemma RegionsTextSteps(region: ScreenRect, env: Desktop, shot: Grid, padded: Grid, text: Result<string, Fault>)
    requires region.width >= 1 && region.height >= 1
    requires shot == Captured(env.screen, Trunc(env.origin.x) + region.left, Trunc(env.origin.y) + region.top,
                              region.width, region.height)
    requires padded == Pad(shot, 64, 64)
    requires text == Extracted(padded, ChooseLanguage(env.inputLanguage, env.installed), env.installed, env.recognize, None)
    ensures RegionsText(region, env) == Trimmed(text)
  {
    var lang := ChooseLanguage(env.inputLanguage, env.installed);
    assert RegionsText(region, env) == Trimmed(Extracted(Pad(shot, 64, 64), lang, env.installed, env.recognize, None));
  }

  /** The size of the bitmap GetClickedWord captures: the window in device pixels. */
  function WindowPixels(env: Desktop): (int, int) {
    (Trunc(env.actualWidth * env.dpiScaleX), Trunc(env.actualHeight * env.dpiScaleY))
  }

  /** What GetClickedWord returns: capture the whole window, unpadded, and keep the words at the point, trimmed. */
  function ClickedWordText(clicked: Point, env: Desktop): (r: Result<string, Fault>)
    ensures r.Success? ==> IsTrimmed(r.value)
  {
    var (w, h) := WindowPixels(env);
    if w < 1 || h < 1 then Failure(InvalidBitmapSize(w, h))
    else
      var shot := Captured(env.screen, Trunc(env.origin.x), Trunc(env.origin.y), w, h);
      var lang := ChooseLanguage(env.inputLanguage, env.installed);
      Trimmed(Extracted(shot, lang, env.installed, env.recognize, Some(clicked)))
  }

  /** The text read along a route: the words at a clicked point, or the whole of a captured region. */
  function RouteText(route: Route, env: Desktop): (r: Result<string, Fault>)
    ensures r.Success? ==> IsTrimmed(r.value)
  {
    match route
    case PointClick(p) => ClickedWordText(p, env)
    case RegionCapture(region) => RegionsText(region, env)
  }

  /** The text a MouseUp grabs for the box it finds. */
  function Grab(b: Box, m11: real, m22: real, env: Desktop): (r: Result<string, Fault>)
    ensures r.Success? ==> IsTrimmed(r.value)
  {
    RouteText(RouteOf(b, m11, m22), env)
  }

  /** Non-blank text is copied and ends the session; blank text asks for another try. */
  function Conclude(t: Result<string, Fault>): (r: GrabOutcome)
    ensures r.Faulted? <==> t.Failure?
    ensures r.Faulted? ==> r.fault == t.error
    ensures r.Copied? <==> t.Success? && !AllWhiteSpace(t.value)
    ensures r.Copied? ==> r.text == t.value
  {
    match t
    case Failure(e) => Faulted(e)
    case Success(s) => if AllWhiteSpace(s) then Retry else Copied(s)
  }

  /** MainWindow's selection state and the handlers that change it. */
  class MainWindow {
    var isSelecting: bool
    var clickedPoint: Point
    var border: Box
    // whether MouseDown has given selectBorder its geometry (before that WPF reports NaN)
    var placed: bool
    // whether selectBorder is one of the canvas's children
    var borderShown: bool
    // RegionClickCanvas.Background.Opacity
    var overlayOpacity: real

    ghost predicate Valid() reads this {
      (isSelecting || borderShown) ==> placed
    }

    constructor (opacity: real)
      ensures Valid()
      ensures !isSelecting && clickedPoint == Point(0.0, 0.0) && !placed && !borderShown
      ensures overlayOpacity == opacity
    {
      isSelecting := false;
      clickedPoint := Point(0.0, 0.0);
      border := Box(0.0, 0.0, 0.0, 0.0);
      placed := false;
      borderShown := false;
      overlayOpacity := opacity;
    }

    /** RegionClickCanvas_MouseDown: arm the selection with a 1 by 1 box at the pointer. */
    method MouseDown(pos: Point)
      requires Valid()
      modifies this
      ensures Valid()
      ensures isSelecting && clickedPoint == pos && border == Box(pos.x, pos.y, 1.0, 1.0)
      ensures placed && borderShown && overlayOpacity == old(overlayOpacity)
    {
      isSelecting := true;
      clickedPoint := pos;
      border := border.(height := 1.0, width := 1.0);
      borderShown := true;
      border := border.(left := clickedPoint.x, top := clickedPoint.y);
      placed := true;
    }

    /** RegionClickCanvas_MouseMove: while selecting, stretch the box between the anchor and the pointer. */
    method MouseMove(pos: Point)
      requires Valid()
      modifies this`border
      ensures Valid()
      ensures border == if isSelecting then Dragged(old(border), clickedPoint, pos) else old(border)
    {
      if !isSelecting {
        return;
      }
      var xDelta := pos.x - clickedPoint.x;
      var yDelta := pos.y - clickedPoint.y;
      if xDelta > 0.0 && yDelta > 0.0 {
        border := border.(width := Abs(pos.x - clickedPoint.x), height := Abs(pos.y - clickedPoint.y));
      }
      if xDelta < 0.0 && yDelta > 0.0 {
        border := border.(left := clickedPoint.x - Abs(xDelta));
        border := border.(width := Abs(pos.x - clickedPoint.x), height := Abs(pos.y - clickedPoint.y));
      }
      if xDelta > 0.0 && yDelta < 0.0 {
        border := border.(top := clickedPoint.y - Abs(yDelta));
        border := border.(width := Abs(pos.x - clickedPoint.x), height := Abs(pos.y - clickedPoint.y));
      }
      if xDelta < 0.0 && yDelta < 0.0 {
        border := border.(left := clickedPoint.x - Abs(xDelta), top := clickedPoint.y - Abs(yDelta));
        border := border.(width := Abs(pos.x - clickedPoint.x), height := Abs(pos.y - clickedPoint.y));
      }
    }

    /** GetRegionsText: the text of a screen region given relative to the window. */
    method GetRegionsText(selectedRegion: ScreenRect, env: Desktop) returns (r: Result<string, Fault>)
      ensures r == RegionsText(selectedRegion, env)
    {
      var thisCorrectedLeft := Trunc(env.origin.x) + selectedRegion.left;
      var thisCorrectedTop := Trunc(env.origin.y) + selectedRegion.top;
      var shot := Capture(env.screen, thisCorrectedLeft, thisCorrectedTop, selectedRegion.width, selectedRegion.height);
      if shot.Failure? {
        return Failure(shot.error);
      }
      var bmp := PadImage(shot.value, 64, 64);
      var inputLang := ChooseLanguage(env.inputLanguage, env.installed);
      var ocrText := ExtractText(bmp, inputLang, env.installed, env.recognize, None);
      RegionsTextSteps(selectedRegion, env, shot.value.Image(), bmp.Image(), ocrText);
      if ocrText.Failure? {
        return Failure(ocrText.error);
      }
      return Success(Trim(ocrText.value));
    }

    /** GetClickedWord: the words at a point of the window, read from an unpadded capture of the whole window. */
    method GetClickedWord(clicked: Point, env: Desktop) returns (r: Result<string, Fault>)
      ensures r == ClickedWordText(clicked, env)
    {
      var (w, h) := WindowPixels(env);
      var shot := Capture(env.screen, Trunc(env.origin.x), Trunc(env.origin.y), w, h);
      if shot.Failure? {
        return Failure(shot.error);
      }
      assert shot.value.Image() == Captured(env.screen, Trunc(env.origin.x), Trunc(env.origin.y), w, h);
      var inputLang := ChooseLanguage(env.inputLanguage, env.installed);
      var ocrText := ExtractText(shot.value, inputLang, env.installed, env.recognize, Some(clicked));
      if ocrText.Failure? {
        return Failure(ocrText.error);
      }
      return Success(Trim(ocrText.value));
    }

    /**
     * RegionClickCanvas_MouseUp: end the selection, hide the box and the overlay, grab the
     * text for the scaled box, and bring the overlay back at 0.2 when the text is blank.
     */
    method MouseUp(m11: real, m22: real, env: Desktop) returns (outcome: GrabOutcome)
      requires Valid() && placed
      modifies this
      ensures Valid()
      ensures !isSelecting && !borderShown && placed
      ensures border == old(border) && clickedPoint == old(clickedPoint)
      ensures outcome == Conclude(Grab(old(border), m11, m22, env))
      ensures overlayOpacity == if outcome.Retry? then 0.2 else 0.0
    {
      isSelecting := false;
      borderShown := false;
      overlayOpacity := 0.0;
      var grabbedText := GrabScaled(border, m11, m22, env);
      match grabbedText
      case Failure(e) =>
        outcome := Faulted(e);
      case Success(s) =>
        if !AllWhiteSpace(s) {
          outcome := Copied(s);
        } else {
          overlayOpacity := 0.2;
          outcome := Retry;
        }
    }

    /** The middle of MouseUp: scale the box to device pixels and pick the route by the scaled size. */
    method GrabScaled(box: Box, m11: real, m22: real, env: Desktop) returns (grabbedText: Result<string, Fault>)
      ensures grabbedText == Grab(box, m11, m22, env)
    {
      var xDimScaled := box.left * m11;
      var yDimScaled := box.top * m22;
      var regionScaled := ScaledRegion(box, m11, m22);
      var route;
      if regionScaled.width < 3 || regionScaled.height < 3 {
        route := PointClick(Point(xDimScaled, yDimScaled));
      } else {
        route := RegionCapture(regionScaled);
      }
      assert route == RouteOf(box, m11, m22);
      grabbedText := ReadRoute(route, env);
    }

    /** The end of MouseUp's grab: read the word at a clicked point, or the whole captured region. */
    method ReadRoute(route: Route, env: Desktop) returns (grabbedText: Result<string, Fault>)
      ensures grabbedText == RouteText(route, env)
    {
      match route
      case PointClick(p) =>
        grabbedText := GetClickedWord(p, env);
      case RegionCapture(region) =>
        grabbedText := GetRegionsText(region, env);
    }
  }

  // ---- properties of the selection geometry

  /**
   * The first move after MouseDown gives the box spanned by the anchor and the pointer:
   * its corner is the smaller coordinate on each axis and its size the distance.
   */
  lemma FirstMoveSpansAnchorAndPointer(anchor: Point, p: Point)
    requires p.x != anchor.x && p.y != anchor.y
    ensures var b := Dragged(Box(anchor.x, anchor.y, 1.0, 1.0), anchor, p);
      b.left == (if p.x < anchor.x then p.x else anchor.x)
      && b.top == (if p.y < anchor.y then p.y else anchor.y)
      && b.left + b.width == (if p.x < anchor.x then anchor.x else p.x)
      && b.top + b.height == (if p.y < anchor.y then anchor.y else p.y)
  {
  }

  /**
   * A drag that first goes left of the anchor (to p1) and then right of it (to p2) keeps
   * the left edge at p1: the box stops short of the pointer by the distance the drag
   * first went left.
   */
  lemma ReversedDragLeavesStaleEdge(anchor: Point, p1: Point, p2: Point)
    requires p1.x < anchor.x < p2.x
    requires p1.y != anchor.y && p2.y != anchor.y
    ensures var b1 := Dragged(Box(anchor.x, anchor.y, 1.0, 1.0), anchor, p1);
      var b2 := Dragged(b1, anchor, p2);
      b2.left == p1.x
      && b2.left + b2.width == p2.x - (anchor.x - p1.x)
      && b2.left + b2.width < p2.x
  {
  }

  /** The drag 100 -> 50 -> 150: the box spans 50 to 100 while the pointer is at 150. */
  lemma ReversedDragExample()
    ensures var anchor := Point(100.0, 100.0);
      var b1 := Dragged(Box(100.0, 100.0, 1.0, 1.0), anchor, Point(50.0, 150.0));
      Dragged(b1, anchor, Point(150.0, 150.0)) == Box(50.0, 100.0, 50.0, 50.0)
  {
    ReversedDragLeavesStaleEdge(Point(100.0, 100.0), Point(50.0, 150.0), Point(150.0, 150.0));
  }

  // ---- properties of a grab

  /** Text that a grab copies is never blank and never starts or ends with white space. */
  lemma CopiedTextIsTrimmed(b: Box, m11: real, m22: real, env: Desktop)
    requires Conclude(Grab(b, m11, m22, env)).Copied?
    ensures var s := Conclude(Grab(b, m11, m22, env)).text; s != [] && IsTrimmed(s)
  {
  }

  /** With no language installed every grab whose capture has a size fails on the language guard. */
  lemma NoLanguageFaults(b: Box, m11: real, m22: real, env: Desktop)
    requires env.installed == []
    requires RouteOf(b, m11, m22).PointClick? ==> WindowPixels(env).0 >= 1 && WindowPixels(env).1 >= 1
    ensures Grab(b, m11, m22, env) == Failure(LanguageNotInstalled(None))
  {
  }

  /** A region capture never fails on the bitmap size, and fails at all only when no language is installed. */
  lemma RegionCaptureFaultsOnlyWithoutLanguages(b: Box, m11: real, m22: real, env: Desktop)
    requires RouteOf(b, m11, m22).RegionCapture?
    ensures Grab(b, m11, m22, env).Failure? <==> env.installed == []
  {
    ChosenLanguagePassesGuard(env.inputLanguage, env.installed);
  }

  /**
   * With an engine that reads the same lines from every image and at least one language
   * installed, a grab yields those lines trimmed: all of them for a region, the words
   * under the point for a click.
   */
  lemma GrabRecognizes(b: Box, m11: real, m22: real, env: Desktop, lines: seq<Line>)
    requires |env.installed| > 0
    requires forall g, lang :: env.recognize(g, lang) == lines
    requires RouteOf(b, m11, m22).PointClick? ==> WindowPixels(env).0 >= 1 && WindowPixels(env).1 >= 1
    ensures var route := RouteOf(b, m11, m22);
      Grab(b, m11, m22, env) ==
        if route.PointClick? then Success(Trim(PointText(lines, route.at))) else Success(Trim(FullText(lines)))
  {
    var lang := ChooseLanguage(env.inputLanguage, env.installed);
    ChosenLanguagePassesGuard(env.inputLanguage, env.installed);
    match RouteOf(b, m11, m22)
    case PointClick(p) =>
      var (w, h) := WindowPixels(env);
      var shot := Captured(env.screen, Trunc(env.origin.x), Trunc(env.origin.y), w, h);
      assert Extracted(shot, lang, env.installed, env.recognize, Some(p)) == Success(PointText(lines, p));
    case RegionCapture(region) =>
      var shot := Captured(env.screen, Trunc(env.origin.x) + region.left, Trunc(env.origin.y) + region.top,
                           region.width, region.height);
      var padded := Pad(shot, 64, 64);
      var text := Extracted(padded, lang, env.installed, env.recognize, None);
      assert text == Success(FullText(lines));
      RegionsTextSteps(region, env, shot, padded, text);
  }

  /**
   * A region selection over text whose outer edges are not white space copies the
   * recognised lines joined by the line terminator.
   */
  lemma RegionGrabCopiesJoinedLines(b: Box, m11: real, m22: real, env: Desktop, lines: seq<Line>)
    requires RouteOf(b, m11, m22).RegionCapture?
    requires |env.installed| > 0
    requires forall g, lang :: env.recognize(g, lang) == lines
    requires TextEdgesVisible(lines)
    ensures Conclude(Grab(b, m11, m22, env)) == Copied(JoinLines(Texts(lines)))
  {
    GrabRecognizes(b, m11, m22, env, lines);
    TrimmedFullText(lines);
    var j := JoinLines(Texts(lines));
    assert j != [] by {
      JoinLinesEnds(Texts(lines));
    }
  }

  /** A click inside exactly one word's box copies that word, when the word is not padded with white space. */
  lemma ClickOnOneWordCopiesIt(b: Box, m11: real, m22: real, env: Desktop, lines: seq<Line>, k: nat)
    requires RouteOf(b, m11, m22).PointClick?
    requires WindowPixels(env).0 >= 1 && WindowPixels(env).1 >= 1
    requires |env.installed| > 0
    requires forall g, lang :: env.recognize(g, lang) == lines
    requires var p := RouteOf(b, m11, m22).at;
      k < |AllWords(lines)| && Contains(AllWords(lines)[k].box, p)
      && forall i :: 0 <= i < |AllWords(lines)| && i != k ==> !Contains(AllWords(lines)[i].box, p)
    requires var t := AllWords(lines)[k].text; t != [] && IsTrimmed(t)
    ensures Conclude(Grab(b, m11, m22, env)) == Copied(AllWords(lines)[k].text)
  {
    var t := AllWords(lines)[k].text;
    GrabRecognizes(b, m11, m22, env, lines);
    PointInsideOneBox(lines, RouteOf(b, m11, m22).at, k);
    TrimDropsWhiteSpaceTail(t, "");
    assert t + "" == t;
  }

  /** A click outside every word's box finds nothing, and the overlay is offered again. */
  lemma ClickOnNothingRetries(b: Box, m11: real, m22: real, env: Desktop, lines: seq<Line>)
    requires RouteOf(b, m11, m22).PointClick?
    requires WindowPixels(env).0 >= 1 && WindowPixels(env).1 >= 1
    requires |env.installed| > 0
    requires forall g, lang :: env.recognize(g, lang) == lines
    requires forall w :: w in AllWords(lines) ==> !Contains(w.box, RouteOf(b, m11, m22).at)
    ensures Conclude(Grab(b, m11, m22, env)) == Retry
  {
    GrabRecognizes(b, m11, m22, env, lines);
    PointOutsideEveryBox(lines, RouteOf(b, m11, m22).at);
  }
}
