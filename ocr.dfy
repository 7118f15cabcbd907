/**
 * What MainWindow does with an OCR result: the language it asks for, the guard in
 * ExtractText, and the two ways ExtractText turns recognised lines into text.
 * The engine itself is a function value from an image and a language to lines.
 */
module Ocr {
  import opened Outcomes
  import opened Text
  import opened Imaging

  datatype Point = Point(x: real, y: real)

  /** A bounding rectangle in bitmap pixels. */
  datatype Rect = Rect(x: real, y: real, width: real, height: real)

  /** Windows.Foundation.Rect.Contains: every edge counts as inside. */
  predicate Contains(r: Rect, p: Point) {
    r.x <= p.x && p.x - r.width <= r.x && r.y <= p.y && p.y - r.height <= r.y
  }

  /** OcrWord: its text and its bounding rectangle. */
  datatype Word = Word(text: string, box: Rect)

  /** OcrLine: the line's text as the engine reports it, and its words in reading order. */
  datatype Line = Line(text: string, words: seq<Word>)

  /** OcrEngine.RecognizeAsync for an engine created from a language tag. */
  type Engine = (Grid, string) -> seq<Line>

  /**
   * The language GetRegionsText and GetClickedWord pass on: the current input language
   * when it is installed, else the first installed language, else nothing (a null tag).
   */
  function ChooseLanguage(current: string, installed: seq<string>): (r: Option<string>)
    ensures r.Some? <==> |installed| > 0
    ensures r.Some? ==> r.value in installed
    ensures current in installed ==> r == Some(current)
    ensures current !in installed && |installed| > 0 ==> r == Some(installed[0])
  {
    if current in installed then Some(current)
    else if |installed| > 0 then Some(installed[0])
    else None
  }

  /** The guard at the top of ExtractText. */
  predicate LanguageInstalled(code: Option<string>, installed: seq<string>) {
    code.Some? && code.value in installed
  }

  /** The chosen language passes the guard exactly when some language is installed. */
  lemma ChosenLanguagePassesGuard(current: string, installed: seq<string>)
    ensures LanguageInstalled(ChooseLanguage(current, installed), installed) <==> |installed| > 0
  {
  }

  /** Full-region mode: every line's text followed by a line terminator, in reading order. */
  function FullText(lines: seq<Line>): (r: string)
  {
    if lines == [] then ""
    else FullText(lines[..|lines| - 1]) + lines[|lines| - 1].text + NewLine
  }

  /** The texts of the words of one line whose boxes contain p, in order. */
  function LineHits(words: seq<Word>, p: Point): string {
    if words == [] then ""
    else
      var w := words[|words| - 1];
      LineHits(words[..|words| - 1], p) + (if Contains(w.box, p) then w.text else "")
  }

  /** Point mode: the texts of all words whose boxes contain p, line by line, with no separator. */
  function PointText(lines: seq<Line>, p: Point): string {
    if lines == [] then ""
    else PointText(lines[..|lines| - 1], p) + LineHits(lines[|lines| - 1].words, p)
  }

  /** What ExtractText returns for a bitmap whose pixels are g. */
  function Extracted(g: Grid, code: Option<string>, installed: seq<string>, recognize: Engine,
                     singlePoint: Option<Point>): (r: Result<string, Fault>)
    ensures r.Failure? <==> !LanguageInstalled(code, installed)
    ensures r.Failure? ==> r.error == LanguageNotInstalled(code)
  {
    if !LanguageInstalled(code, installed) then Failure(LanguageNotInstalled(code))
    else
      var lines := recognize(g, code.value);
      match singlePoint
      case None => Success(FullText(lines))
      case Some(p) => Success(PointText(lines, p))
  }

  /**
   * MainWindow.ExtractText after the engine call: fails unless the language is installed;
   * otherwise builds the text line by line, or word by word when a point is given.
   */
  method ExtractText(bmp: Bitmap, languageCode: Option<string>, installed: seq<string>,
                     recognize: Engine, singlePoint: Option<Point>) returns (r: Result<string, Fault>)
    ensures r == Extracted(bmp.Image(), languageCode, installed, recognize, singlePoint)
  {
    if !LanguageInstalled(languageCode, installed) {
      return Failure(LanguageNotInstalled(languageCode));
    }
    var ocrLines := recognize(bmp.Image(), languageCode.value);
    var text;
    if singlePoint.None? {
      text := AppendLines(ocrLines);
    } else {
      text := AppendWordsAt(ocrLines, singlePoint.value);
    }
    return Success(text);
  }

  /** The full-region loop: AppendLine of every line's text, in order. */
  method AppendLines(ocrLines: seq<Line>) returns (text: string)
    ensures text == FullText(ocrLines)
  {
    text := "";
    var i := 0;
    while i < |ocrLines|
      invariant 0 <= i <= |ocrLines|
      invariant text == FullText(ocrLines[..i])
    {
      assert ocrLines[..i + 1][..i] == ocrLines[..i];
      text := text + ocrLines[i].text + NewLine;
      i := i + 1;
    }
    assert ocrLines[..i] == ocrLines;
  }

  /** The point-mode loops: Append of the text of every word whose box contains p, line by line. */
  method AppendWordsAt(ocrLines: seq<Line>, p: Point) returns (text: string)
    ensures text == PointText(ocrLines, p)
  {
    text := "";
    var i := 0;
    while i < |ocrLines|
      invariant 0 <= i <= |ocrLines|
      invariant text == PointText(ocrLines[..i], p)
    {
      var words := ocrLines[i].words;
      var j := 0;
      while j < |words|
        invariant 0 <= j <= |words|
        invariant text == PointText(ocrLines[..i], p) + LineHits(words[..j], p)
      {
        assert words[..j + 1][..j] == words[..j];
        if Contains(words[j].box, p) {
          text := text + words[j].text;
        }
        j := j + 1;
      }
      assert words[..j] == words;
      assert ocrLines[..i + 1][..i] == ocrLines[..i];
      i := i + 1;
    }
    assert ocrLines[..i] == ocrLines;
  }

  /** A language that is not installed is refused, never replaced by another. */
  lemma UninstalledLanguageFails(g: Grid, code: Option<string>, installed: seq<string>, recognize: Engine,
                                 singlePoint: Option<Point>)
    requires code.None? || code.value !in installed
    ensures Extracted(g, code, installed, recognize, singlePoint) == Failure(LanguageNotInstalled(code))
  {
  }

  // ---- full-region mode, restated as lines joined by the terminator

  function Texts(lines: seq<Line>): (ts: seq<string>)
    ensures |ts| == |lines| && forall i :: 0 <= i < |lines| ==> ts[i] == lines[i].text
  {
    seq(|lines|, i requires 0 <= i < |lines| => lines[i].text)
  }

  /** The texts with a line terminator between each two. */
  function JoinLines(ts: seq<string>): string
    requires ts != []
  {
    if |ts| == 1 then ts[0] else JoinLines(ts[..|ts| - 1]) + NewLine + ts[|ts| - 1]
  }

  /** Full-region text is the lines joined by the terminator, with one more terminator at the end. */
  lemma {:induction false} FullTextIsJoinedLines(lines: seq<Line>)
    requires lines != []
    ensures FullText(lines) == JoinLines(Texts(lines)) + NewLine
  {
    var n := |lines|;
    assert Texts(lines)[..n - 1] == Texts(lines[..n - 1]);
    if n > 1 {
      FullTextIsJoinedLines(lines[..n - 1]);
      assert lines[..n - 1][..n - 2] == lines[..n - 2];
    } else {
      assert lines[..0] == [];
    }
  }

  /** Joined text starts with the first text and ends with the last. */
  lemma {:induction false} JoinLinesEnds(ts: seq<string>)
    requires ts != []
    ensures |JoinLines(ts)| >= |ts[0]| && JoinLines(ts)[..|ts[0]|] == ts[0]
    ensures |JoinLines(ts)| >= |ts[|ts| - 1]| && JoinLines(ts)[|JoinLines(ts)| - |ts[|ts| - 1]|..] == ts[|ts| - 1]
  {
    if |ts| > 1 {
      JoinLinesEnds(ts[..|ts| - 1]);
      var j := JoinLines(ts[..|ts| - 1]);
      assert JoinLines(ts) == j + (NewLine + ts[|ts| - 1]);
      assert (j + (NewLine + ts[|ts| - 1]))[..|ts[0]|] == j[..|ts[0]|];
    }
  }

  /** The first line starts, and the last line ends, with something other than white space. */
  predicate TextEdgesVisible(lines: seq<Line>) {
    lines != []
    && lines[0].text != [] && !IsWhiteSpace(lines[0].text[0])
    && lines[|lines| - 1].text != [] && !IsWhiteSpace(lines[|lines| - 1].text[|lines[|lines| - 1].text| - 1])
  }

  /** The line terminator is white space. */
  lemma NewLineIsWhiteSpace()
    ensures AllWhiteSpace(NewLine)
  {
    assert NewLine[0] == '\r' && NewLine[1] == '\n';
  }

  /** When the outer edges of the lines are not white space, neither are those of their joined text. */
  lemma JoinedLinesTrimmed(lines: seq<Line>)
    requires TextEdgesVisible(lines)
    ensures JoinLines(Texts(lines)) != [] && IsTrimmed(JoinLines(Texts(lines)))
  {
    var ts := Texts(lines);
    var j := JoinLines(ts);
    JoinLinesEnds(ts);
    assert j[0] == j[..|ts[0]|][0];
    assert j[|j| - 1] == j[|j| - |ts[|ts| - 1]|..][|ts[|ts| - 1]| - 1];
  }

  /**
   * What the caller gets after Trim in full-region mode: the lines joined by the terminator,
   * when the outer edges of the text are not white space.
   */
  lemma TrimmedFullText(lines: seq<Line>)
    requires TextEdgesVisible(lines)
    ensures Trim(FullText(lines)) == JoinLines(Texts(lines))
  {
    FullTextIsJoinedLines(lines);
    JoinedLinesTrimmed(lines);
    NewLineIsWhiteSpace();
    TrimDropsWhiteSpaceTail(JoinLines(Texts(lines)), NewLine);
  }

  /**
   * Two recognised lines come out as one string with the Windows terminator between them
   * ("Hello" and "World" give "Hello\r\nWorld").
   */
  lemma TwoLinesJoinedByCrLf(a: Line, b: Line)
    requires a.text != [] && !IsWhiteSpace(a.text[0])
    requires b.text != [] && !IsWhiteSpace(b.text[|b.text| - 1])
    ensures Trim(FullText([a, b])) == a.text + "\r\n" + b.text
  {
    var lines := [a, b];
    var ts := Texts(lines);
    TrimmedFullText(lines);
    assert ts[..1] == [a.text] && ts[1] == b.text;
  }

  // ---- point mode, restated as a filter over all words

  /** Every word of every line, in reading order. */
  function AllWords(lines: seq<Line>): seq<Word> {
    if lines == [] then [] else lines[0].words + AllWords(lines[1..])
  }

  /** The words whose boxes contain p, in order. */
  function Hits(words: seq<Word>, p: Point): seq<Word> {
    if words == [] then []
    else (if Contains(words[0].box, p) then [words[0]] else []) + Hits(words[1..], p)
  }

  /** The words' texts run together. */
  function Concat(words: seq<Word>): string {
    if words == [] then "" else words[0].text + Concat(words[1..])
  }

  lemma {:induction false} AllWordsAppend(a: seq<Line>, b: seq<Line>)
    ensures AllWords(a + b) == AllWords(a) + AllWords(b)
  {
    if a != [] {
      assert (a + b)[1..] == a[1..] + b;
      AllWordsAppend(a[1..], b);
    } else {
      assert a + b == b;
    }
  }

  lemma {:induction false} HitsAppend(a: seq<Word>, b: seq<Word>, p: Point)
    ensures Hits(a + b, p) == Hits(a, p) + Hits(b, p)
  {
    if a != [] {
      assert (a + b)[1..] == a[1..] + b;
      HitsAppend(a[1..], b, p);
    } else {
      assert a + b == b;
    }
  }

  lemma {:induction false} ConcatAppend(a: seq<Word>, b: seq<Word>)
    ensures Concat(a + b) == Concat(a) + Concat(b)
  {
    if a != [] {
      assert (a + b)[0] == a[0] && (a + b)[1..] == a[1..] + b;
      ConcatAppend(a[1..], b);
    } else {
      assert a + b == b;
    }
  }

  /** One line's contribution is the concatenated texts of its hit words. */
  lemma {:induction false} LineHitsIsConcatOfHits(words: seq<Word>, p: Point)
    ensures LineHits(words, p) == Concat(Hits(words, p))
  {
    if words != [] {
      var n := |words|;
      var w := words[n - 1];
      LineHitsIsConcatOfHits(words[..n - 1], p);
      assert words == words[..n - 1] + [w];
      HitsAppend(words[..n - 1], [w], p);
      assert Hits([w], p) == if Contains(w.box, p) then [w] else [];
      ConcatAppend(Hits(words[..n - 1], p), Hits([w], p));
      assert Concat(Hits([w], p)) == if Contains(w.box, p) then w.text else "";
    }
  }

  /**
   * Point mode is the concatenation, with no separator, of the texts of exactly the words
   * whose boxes contain the point, in reading order.
   */
  lemma {:induction false} PointTextIsConcatOfHits(lines: seq<Line>, p: Point)
    ensures PointText(lines, p) == Concat(Hits(AllWords(lines), p))
  {
    if lines != [] {
      var n := |lines|;
      var last := lines[n - 1];
      PointTextIsConcatOfHits(lines[..n - 1], p);
      LineHitsIsConcatOfHits(last.words, p);
      assert lines == lines[..n - 1] + [last];
      AllWordsAppend(lines[..n - 1], [last]);
      assert AllWords([last]) == last.words by {
        assert [last][1..] == [];
        assert last.words + [] == last.words;
      }
      HitsAppend(AllWords(lines[..n - 1]), last.words, p);
      ConcatAppend(Hits(AllWords(lines[..n - 1]), p), Hits(last.words, p));
    }
  }

  lemma {:induction false} NoHits(words: seq<Word>, p: Point)
    requires forall i :: 0 <= i < |words| ==> !Contains(words[i].box, p)
    ensures Hits(words, p) == []
  {
    if words != [] {
      NoHits(words[1..], p);
    }
  }

  lemma {:induction false} OneHit(words: seq<Word>, p: Point, k: nat)
    requires k < |words| && Contains(words[k].box, p)
    requires forall i :: 0 <= i < |words| && i != k ==> !Contains(words[i].box, p)
    ensures Hits(words, p) == [words[k]]
  {
    if k == 0 {
      NoHits(words[1..], p);
    } else {
      OneHit(words[1..], p, k - 1);
    }
  }

  /** A point inside no box yields the empty string. */
  lemma PointOutsideEveryBox(lines: seq<Line>, p: Point)
    requires forall w :: w in AllWords(lines) ==> !Contains(w.box, p)
    ensures PointText(lines, p) == ""
  {
    PointTextIsConcatOfHits(lines, p);
    NoHits(AllWords(lines), p);
  }

  /** A point inside exactly one box yields that word's text alone. */
  lemma PointInsideOneBox(lines: seq<Line>, p: Point, k: nat)
    requires k < |AllWords(lines)| && Contains(AllWords(lines)[k].box, p)
    requires forall i :: 0 <= i < |AllWords(lines)| && i != k ==> !Contains(AllWords(lines)[i].box, p)
    ensures PointText(lines, p) == AllWords(lines)[k].text
  {
    PointTextIsConcatOfHits(lines, p);
    OneHit(AllWords(lines), p, k);
    assert [AllWords(lines)[k]][1..] == [];
  }
}
