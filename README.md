# Text Grab's selection overlay, modelled in Dafny

Text Grab is a Windows tool. It covers the screen with a translucent overlay. The user drags
a box (or clicks) on the overlay, and the tool reads the text under the selection with the
Windows OCR engine and puts it on the clipboard. This project models the deterministic core of
`MainWindow`:

- **Padding** (`PadImage`). A capture smaller than 64 by 64 pixels is placed at offset (8, 8)
  on a larger canvas. The canvas is filled with the capture's top-left colour.
  The bitmap is a class over an `array2` of ARGB pixels, and `Clear` and `DrawImageUnscaled`
  write the new buffer in place. The result is specified by the value-level function `Pad`.
- **Language choice and guard**. The current input language is used if it is installed,
  otherwise the first installed language, otherwise none. `ExtractText` refuses a language that is not installed.
- **Text assembly** (`ExtractText` after the engine call). Full mode appends every line's text and a
  line terminator. Point mode appends, with no separator, the text of every word whose bounding
  rectangle contains the point. Both are loops over the OCR result, proved against the recursive
  specifications `FullText` and `PointText`. Those are in turn related to independent definitions:
  lines joined by the terminator, and the concatenated texts of the words filtered by `Contains`.
- **Trim**. `string.Trim` is modelled as .NET does it: a forward scan and a backward scan
  over `char.IsWhiteSpace`. It is shown to return the unique trimmed slice that has only
  white space around it.
- **Selection state machine**. The class `MainWindow` has the fields `isSelecting` and
  `clickedPoint`, plus the `selectBorder` geometry (`border`). The three mouse handlers are
  its methods. `MouseUp` scales the box by the transform's diagonal and truncates like C#'s
  `(int)` cast. It routes boxes narrower or lower than 3 device pixels to a point click and
  larger ones to a region capture, then copies non-blank text or brings the overlay back at 0.2.

The OCR engine is a function value from an image and a language tag to recognised lines. The
screen is a function from absolute coordinates to colours. The window's absolute origin, size,
DPI scale, input language and installed languages are parameters (`Desktop`).

Some behaviour of the code is easy to misread:

- `AppendLine` ends lines with `Environment.NewLine`, which is `"\r\n"` on Windows, so two lines
  "Hello" and "World" give `"Hello\r\nWorld"` (`Ocr.TwoLinesJoinedByCrLf`).
- Scaled coordinates go through the `(int)` cast, which truncates toward zero. The window origin
  may be negative; the clamped `correctedLeft`/`correctedTop` are computed but never used.
- The padded canvas keeps the capture at (8, 8), so the extra margin all lies to the right and below.
- A drag that crosses the anchor and comes back does not move the left (top) edge back: the
  positive-delta branches only change the size, so the box stops short of the pointer
  (`Selection.ReversedDragLeavesStaleEdge`; `Selection.ReversedDragExample` is 100 to 50 to 150).

The handler `MouseUp` is split into methods along the source's own steps: `GrabScaled` computes
`xDimScaled`, `yDimScaled` and `regionScaled` and picks the route, and `ReadRoute` is the
`GetClickedWord`/`GetRegionsText` branch. Each is proved equal to the function that specifies it
(`Grab` and `RouteText`), which the lemmas about whole grabs are stated over.

Files: `outcomes.dfy` (Option, Result, the faults), `text.dfy` (white space, Trim, the line
terminator), `imaging.dfy` (pixels, `Bitmap`, padding, capture), `ocr.dfy` (OCR result, language
choice, `ExtractText`), `selection.dfy` (geometry, routing, `MainWindow` and its handlers).

## Model

| member | source | states |
|---|---|---|
| Imaging.PaddedSize | Text-Grab/MainWindow.xaml.cs:39-43 | the size is unchanged when both minimums are met; otherwise it is max(w+16, minW+16) by max(h+16, minH+16), strictly larger than both the input and the minimums |
| Imaging.Pad | Text-Grab/MainWindow.xaml.cs:37-53 | the padded image is rectangular and has exactly the size PaddedSize gives |
| Imaging.PadIdempotent | Text-Grab/MainWindow.xaml.cs:39-40 | an image that meets the minimums comes back unchanged, so padding twice equals padding once |
| Imaging.PadPlacesImage | Text-Grab/MainWindow.xaml.cs:49-50 | padded pixel (x+8, y+8) is input pixel (x, y); every other padded pixel is input pixel (0, 0) |
| Imaging.CropUndoesPad | Text-Grab/MainWindow.xaml.cs:49-50 | cutting the input-sized window at (8, 8) out of the padded image gives back the input |
| Imaging.Bitmap.constructor | Text-Grab/MainWindow.xaml.cs:46 | a new bitmap has the requested size and pixel format and a fresh buffer |
| Imaging.Bitmap.Clear | Text-Grab/MainWindow.xaml.cs:49 | every pixel becomes the given colour |
| Imaging.Bitmap.DrawImageUnscaled | Text-Grab/MainWindow.xaml.cs:50 | source pixel (x, y) lands on (x+dx, y+dy) where that is inside the canvas; every other pixel keeps its old value |
| Imaging.PadImage | Text-Grab/MainWindow.xaml.cs:37-53 | returns the same bitmap when it is big enough; otherwise returns a fresh bitmap with the same pixel format whose pixels are Pad of the input's |
| Imaging.Captured | Text-Grab/MainWindow.xaml.cs:64 | the copied screen rectangle has the requested width and height and is an image when both are positive |
| Imaging.Capture | Text-Grab/MainWindow.xaml.cs:57-64 | fails with an invalid-size fault exactly when width or height is below 1; otherwise gives a fresh 32-bit ARGB bitmap holding the screen rectangle at (left, top) |
| Ocr.LanguageInstalled | Text-Grab/MainWindow.xaml.cs:121 | the guard: a language code is accepted only when it is present and in the installed list; ChosenLanguagePassesGuard and UninstalledLanguageFails state what it means for the chosen language |
| Ocr.ChooseLanguage | Text-Grab/MainWindow.xaml.cs:67-70 | the current input language if installed, else the first installed language, else none; a language is chosen exactly when one is installed, and it is installed |
| Ocr.ChosenLanguagePassesGuard | Text-Grab/MainWindow.xaml.cs:121-122 | the chosen language passes ExtractText's guard exactly when the installed list is non-empty |
| Ocr.UninstalledLanguageFails | Text-Grab/MainWindow.xaml.cs:121-122 | a missing or uninstalled language ends in the out-of-range fault, never in text |
| Ocr.Extracted | Text-Grab/MainWindow.xaml.cs:118-154 | fails exactly when the language code is missing or not installed, and then with the not-installed fault naming that code |
| Ocr.Contains | Text-Grab/MainWindow.xaml.cs:145 | Rect.Contains with every edge inside; PointInsideOneBox and PointOutsideEveryBox state what it selects |
| Ocr.FullText | Text-Grab/MainWindow.xaml.cs:136-137 | the text the full-mode loop builds; its meaning, the lines joined by the terminator plus one more, is FullTextIsJoinedLines |
| Ocr.LineHits | Text-Grab/MainWindow.xaml.cs:143-146 | one line's contribution in point mode; LineHitsIsConcatOfHits states it is the concatenated texts of the words containing the point |
| Ocr.PointText | Text-Grab/MainWindow.xaml.cs:139-148 | the text the point-mode loops build; PointTextIsConcatOfHits states it is the concatenated texts of all words containing the point |
| Ocr.ExtractText | Text-Grab/MainWindow.xaml.cs:118-154 | fails on an uninstalled language; otherwise gives FullText of the recognised lines, or PointText when a point is given |
| Ocr.AppendLines | Text-Grab/MainWindow.xaml.cs:136-137 | the full-mode loop builds FullText: each line's text followed by the terminator, in order |
| Ocr.AppendWordsAt | Text-Grab/MainWindow.xaml.cs:139-148 | the nested point-mode loops build PointText: line by line, word by word, every contained word's text |
| Ocr.FullTextIsJoinedLines | Text-Grab/MainWindow.xaml.cs:136-137 | full-mode text is the line texts joined by the terminator, followed by one more terminator |
| Ocr.TrimmedFullText | Text-Grab/MainWindow.xaml.cs:72-73 | after Trim, full-mode text is exactly the line texts joined by "\r\n" when the first line is non-empty and starts, and the last line is non-empty and ends, with a character that is not white space |
| Ocr.TwoLinesJoinedByCrLf | Text-Grab/MainWindow.xaml.cs:137 | two lines a and b, where a is non-empty and starts and b is non-empty and ends with a character that is not white space, come back from a region as a + "\r\n" + b |
| Ocr.LineHitsIsConcatOfHits | Text-Grab/MainWindow.xaml.cs:143-146 | one line contributes the concatenated texts of exactly its words whose boxes contain the point |
| Ocr.PointTextIsConcatOfHits | Text-Grab/MainWindow.xaml.cs:139-148 | point-mode text is the concatenation, with no separator, of the texts of all words (in reading order) whose boxes contain the point |
| Ocr.PointOutsideEveryBox | Text-Grab/MainWindow.xaml.cs:139-153 | a point inside no word's box yields the empty string |
| Ocr.PointInsideOneBox | Text-Grab/MainWindow.xaml.cs:139-153 | a point inside exactly one word's box yields that word's text alone |
| Text.IsWhiteSpace | Text-Grab/MainWindow.xaml.cs:73 | char.IsWhiteSpace: the Unicode White_Space characters that Trim removes |
| Text.AllWhiteSpace | Text-Grab/MainWindow.xaml.cs:291 | string.IsNullOrWhiteSpace of a non-null string; Trim states that its result is empty exactly on such strings |
| Text.FirstNonWhiteSpace | Text-Grab/MainWindow.xaml.cs:73 | Trim's forward scan stops at the first character that is not white space, having passed only white space |
| Text.EndOfNonWhiteSpace | Text-Grab/MainWindow.xaml.cs:73 | Trim's backward scan stops after the last character that is not white space, having passed only white space |
| Text.Trim | Text-Grab/MainWindow.xaml.cs:73 | the result is empty exactly when the input is blank, and otherwise neither starts nor ends with white space |
| Text.TrimIsTheTrimmedMiddle | Text-Grab/MainWindow.xaml.cs:73 | any trimmed slice with only white space before and after it is what Trim returns |
| Text.TrimDropsWhiteSpaceTail | Text-Grab/MainWindow.xaml.cs:99 | a trimmed string followed by white space trims back to itself |
| Selection.Trunc | Text-Grab/MainWindow.xaml.cs:273-276 | the (int) cast, also used at lines 61-62, 80 and 84-85; TruncRoundsTowardZero and TruncBelow state how it rounds |
| Selection.TruncRoundsTowardZero | Text-Grab/MainWindow.xaml.cs:272-276 | the (int) cast drops the fraction toward zero: within 1 below a non-negative value, within 1 above a negative one |
| Selection.ScaledRegion | Text-Grab/MainWindow.xaml.cs:272-276 | the Rectangle of the box scaled by the transform's diagonal; RouteByScaledSize states that each size is the truncated scaled size |
| Selection.Dragged | Text-Grab/MainWindow.xaml.cs:206-239 | a move with a zero delta on either axis leaves the box unchanged; otherwise the width and height are the distances from the anchor to the pointer; on an axis where the pointer went left (up) the box runs from the pointer to the anchor, and on an axis where it went right (down) the left (top) edge keeps its old value |
| Selection.WindowPixels | Text-Grab/MainWindow.xaml.cs:80 | the window size in device pixels, ActualWidth by ActualHeight scaled by the DPI and truncated |
| Selection.RouteOf | Text-Grab/MainWindow.xaml.cs:286-289 | a point click is at the scaled (Left, Top); a region capture is at least 3 by 3 device pixels |
| Selection.RouteByScaledSize | Text-Grab/MainWindow.xaml.cs:269-289 | a box is a click exactly when its scaled width or height is below 3; a captured region is the scaled box truncated, each size within 1 of the real one |
| Selection.RegionsText | Text-Grab/MainWindow.xaml.cs:55-74 | a region's text, when there is one, neither starts nor ends with white space |
| Selection.ClickedWordText | Text-Grab/MainWindow.xaml.cs:76-100 | a clicked word's text, when there is one, neither starts nor ends with white space |
| Selection.RouteText | Text-Grab/MainWindow.xaml.cs:286-289 | the text read at a clicked point or over a captured region, when there is one, neither starts nor ends with white space |
| Selection.Grab | Text-Grab/MainWindow.xaml.cs:286-289 | the grabbed text, when there is one, neither starts nor ends with white space |
| Selection.Conclude | Text-Grab/MainWindow.xaml.cs:291-297 | an exception faults; otherwise the text is copied exactly when it is not blank, and it is copied unchanged |
| Selection.MainWindow.constructor | Text-Grab/MainWindow.xaml.cs:170-172 | a new window is not selecting and its anchor is the origin |
| Selection.MainWindow.MouseDown | Text-Grab/MainWindow.xaml.cs:174-197 | sets isSelecting, records the anchor and shows a 1 by 1 box at the anchor |
| Selection.MainWindow.MouseMove | Text-Grab/MainWindow.xaml.cs:199-240 | changes only the box: not at all unless selecting, otherwise to Dragged of the old box |
| Selection.MainWindow.GetRegionsText | Text-Grab/MainWindow.xaml.cs:55-74 | captures the region at the truncated window origin plus its offset, pads it to 64 by 64, recognises it in full mode in the chosen language and trims |
| Selection.MainWindow.GetClickedWord | Text-Grab/MainWindow.xaml.cs:76-100 | captures the whole window at its device size without padding, keeps the words at the point in the chosen language and trims |
| Selection.MainWindow.GrabScaled | Text-Grab/MainWindow.xaml.cs:269-289 | scales and truncates the box, then reads the word at its corner or the whole region as the route decides |
| Selection.MainWindow.ReadRoute | Text-Grab/MainWindow.xaml.cs:286-289 | a click reads the words at the point through GetClickedWord; a region is read whole through GetRegionsText |
| Selection.MainWindow.MouseUp | Text-Grab/MainWindow.xaml.cs:242-298 | ends the selection and hides the box; copies non-blank text, faults on an exception, and otherwise sets the overlay opacity to 0.2 (0 in the other cases) |
| Selection.FirstMoveSpansAnchorAndPointer | Text-Grab/MainWindow.xaml.cs:174-239 | the first move after MouseDown, when it leaves the anchor on both axes, gives the box whose corner is the smaller coordinate and whose far edge is the larger one on each axis |
| Selection.ReversedDragLeavesStaleEdge | Text-Grab/MainWindow.xaml.cs:210-223 | after a first move left of the anchor and a second move right of it (both off the anchor vertically), the left edge stays at the first pointer position, so the box stops short of the pointer by the distance the drag first went left |
| Selection.ReversedDragExample | Text-Grab/MainWindow.xaml.cs:210-223 | the drag 100 to 50 to 150 gives the box from 50 to 100 while the pointer is at 150 |
| Selection.CopiedTextIsTrimmed | Text-Grab/MainWindow.xaml.cs:291-295 | text that is copied is never empty and never starts or ends with white space |
| Selection.NoLanguageFaults | Text-Grab/MainWindow.xaml.cs:67-72 | with no language installed every grab whose capture has a size ends in the language fault |
| Selection.RegionCaptureFaultsOnlyWithoutLanguages | Text-Grab/MainWindow.xaml.cs:55-74 | a region capture never fails on the bitmap size, and fails at all exactly when no language is installed |
| Selection.GrabRecognizes | Text-Grab/MainWindow.xaml.cs:286-289 | with an engine that reads fixed lines and a language installed, a region yields the trimmed full text and a click yields the trimmed words at the point |
| Selection.RegionGrabCopiesJoinedLines | Text-Grab/MainWindow.xaml.cs:286-295 | a region over lines with visible outer edges copies the lines joined by "\r\n" |
| Selection.ClickOnOneWordCopiesIt | Text-Grab/MainWindow.xaml.cs:286-295 | a click inside exactly one word's box copies that word, when the word is non-empty and has no white space at either end |
| Selection.ClickOnNothingRetries | Text-Grab/MainWindow.xaml.cs:286-297 | a click inside no word's box gives blank text, so the overlay is offered again |

## Left out

- Screen capture is a given function from coordinates to colours. `Graphics.CopyFromScreen` and what the
  overlay itself looks like on screen are not modelled, so the order of hiding the box and capturing has no effect.
- `GetAbsolutePosition` is not part of this model. The window origin is a parameter, and so are
  `TransformToDevice`, `VisualTreeHelper.GetDpi`, `ActualWidth`/`ActualHeight` and the current input language.
- The OCR engine is a function value. Bitmap encoding through `MemoryStream`, `BitmapDecoder` and
  `SoftwareBitmap`, `OcrEngine.TryCreateFromLanguage` and `RecognizeAsync` are foreign WinRT calls.
  Neither their failures nor a null engine are modelled.
- `BitmapToImageSource` and the commented-out debug image are display-only.
- `async`/`await`, `UpdateLayout` and the `Dispatcher.Invoke` render pump are asynchrony and rendering.
- The clipboard, `App.Current.Shutdown`, `Window_Loaded` and the Escape key are shell plumbing. `Copied` stands
  for "copy and shut down".
- The `Math.Round`/`GetMousePos` comparison only writes a debug line, and `correctedLeft`/`correctedTop`
  are computed but never used. Neither affects any output.
- Floating point is modelled as exact real arithmetic: rounding error, NaN and infinities are not modelled, and neither is
  overflow of the `(int)` cast or of `int` sums. Coordinates are reals and pixel sizes unbounded integers.
- Imaging.Bitmap.DrawImageUnscaled: modelled as a plain copy. Alpha compositing is not modelled; a screen capture is opaque,
  so the result is the same.
- Selection.MainWindow.MouseUp: requires that a MouseDown came first. Before that, `selectBorder` has no
  Canvas.Left/Top and WPF reports NaN, which this model does not represent.
- Selection.MainWindow.MouseDown: the border's thickness and brush and its removal and re-adding to the canvas
  are display-only. Only whether the box is shown is kept.
- Imaging.PadImage: the pixels are exact only for 32-bit ARGB. `Graphics.FromImage` throws for indexed formats, and
  `Clear`/`DrawImageUnscaled` convert colours for other formats; neither is modelled. The only caller passes a
  32-bit ARGB capture.
