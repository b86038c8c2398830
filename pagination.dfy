/**
 * `wrapText` and `fillBackground` (src/utils/pdf.ts:110-162; the same code, with the
 * first-page stamp and the cursor reset in the other order, at src/backup.ts:93-142).
 *
 * The pure part describes one call as a list of steps: a line drawn at a cursor position,
 * or a page break. `Paint` says what the steps draw on a document; the method `WrapText`
 * performs the source's loop on a `Document` and is proved to do exactly that.
 */
module Pagination {
  import opened Wrappers
  import opened Colour
  import opened Decimal
  import opened Pdf

  /** The cursor position on a new page. */
  const TopMargin := 20

  /** Page-number labels are drawn this far left of the right edge. */
  const LabelInset := 15

  /** What one call of `wrapText` is given about the page besides the text. */
  datatype Frame = Frame(docWidth: int, docHeight: int, lineSpacing: int, leftIndent: int, pageColour: Rgb)

  /** The loop's two variables: the vertical cursor `y` and `pageNumber`. */
  datatype Cursor = Cursor(y: int, page: nat)

  datatype Step = Line(text: string, y: int) | Break(stampFirst: bool, number: nat)

  /** The end of the page is reached: the test made before each line. */
  predicate Overflows(y: int, f: Frame) {
    y > f.docHeight - f.lineSpacing
  }

  /** What drawing one line does to the cursor. */
  function Advance(c: Cursor, f: Frame): Cursor {
    if Overflows(c.y, f) then Cursor(TopMargin + f.lineSpacing, c.page + 1)
    else Cursor(c.y + f.lineSpacing, c.page)
  }

  /** The cursor after the given lines, starting at `textStart` on page number 1. */
  function CursorAfter(lines: seq<string>, textStart: int, f: Frame): Cursor
    decreases |lines|
  {
    if lines == [] then Cursor(textStart, 1)
    else Advance(CursorAfter(lines[..|lines| - 1], textStart, f), f)
  }

  /** The steps for one line drawn with the cursor at `c`. */
  function LineSteps(line: string, c: Cursor, f: Frame): seq<Step> {
    if Overflows(c.y, f) then [Break(c.page == 1, c.page + 1), Line(line, TopMargin)]
    else [Line(line, c.y)]
  }

  /** The steps of one `wrapText` call over the given lines. */
  function Steps(lines: seq<string>, textStart: int, f: Frame): seq<Step>
    decreases |lines|
  {
    if lines == [] then []
    else
      var prev := lines[..|lines| - 1];
      Steps(prev, textStart, f) + LineSteps(lines[|lines| - 1], CursorAfter(prev, textStart, f), f)
  }

  /** `fillBackground`: set the fill colour and fill a rectangle over the whole page. */
  function Background(st: DocState, width: int, height: int, colour: Rgb): DocState {
    st.SetFillColour(colour).FillRect(0, 0, width, height)
  }

  /** The label drawn in the bottom right corner of a page. */
  function Label(st: DocState, n: nat, f: Frame): DocState {
    st.PutText(NatToString(n), f.docWidth - LabelInset, f.docHeight - f.lineSpacing)
  }

  /**
   * One step on a document: a line is drawn at the left indent; a break stamps "1" on the
   * page being left if it is the first break, adds a page, repaints its background and
   * stamps the new page's number.
   */
  function PaintStep(st: DocState, s: Step, f: Frame): DocState {
    match s
    case Line(t, y) => st.PutText(t, f.leftIndent, y)
    case Break(first, n) =>
      var left := if first then Label(st, 1, f) else st;
      Label(Background(left.AddPage(), f.docWidth, f.docHeight, f.pageColour), n, f)
  }

  function Paint(st: DocState, steps: seq<Step>, f: Frame): DocState
    decreases |steps|
  {
    if steps == [] then st else PaintStep(Paint(st, steps[..|steps| - 1], f), steps[|steps| - 1], f)
  }

  /** The effect of one `wrapText` call on a document, and the cursor it returns. */
  function WrapState(st: DocState, split: Splitter, style: FontStyle, fontSize: int, text: Option<string>,
                     textStart: int, wrapWidth: int, f: Frame): (DocState, int)
  {
    var lines := split(text, st.style, st.fontSize, wrapWidth);
    (Paint(st.SetFont(style).SetFontSize(fontSize), Steps(lines, textStart, f), f), CursorAfter(lines, textStart, f).y)
  }

  /** `fillBackground` (src/utils/pdf.ts:110-123). */
  method FillBackground(doc: Document, width: int, height: int, colour: Rgb)
    modifies doc
    ensures doc.State() == Background(old(doc.State()), width, height, colour)
  {
    doc.SetFillColour(colour);
    doc.Rect(0, 0, width, height);
  }

  lemma PaintAppend(st: DocState, a: seq<Step>, b: seq<Step>, f: Frame)
    ensures Paint(st, a + b, f) == Paint(Paint(st, a, f), b, f)
    decreases |b|
  {
    if b == [] {
      assert a + b == a;
    } else {
      assert (a + b)[..|a + b| - 1] == a + b[..|b| - 1];
      PaintAppend(st, a, b[..|b| - 1], f);
    }
  }

  /** What drawing one line with the cursor at `c` does to a document. */
  function PaintLine(st: DocState, line: string, c: Cursor, f: Frame): DocState {
    if Overflows(c.y, f) then PaintStep(PaintStep(st, Break(c.page == 1, c.page + 1), f), Line(line, TopMargin), f)
    else PaintStep(st, Line(line, c.y), f)
  }

  lemma PaintSingle(st: DocState, s: Step, f: Frame)
    ensures Paint(st, [s], f) == PaintStep(st, s, f)
  {
    assert [s][..0] == [];
  }

  lemma PaintPair(st: DocState, s: Step, t: Step, f: Frame)
    ensures Paint(st, [s, t], f) == PaintStep(PaintStep(st, s, f), t, f)
  {
    assert [s] + [t] == [s, t];
    PaintAppend(st, [s], [t], f);
    PaintSingle(st, s, f);
    PaintSingle(PaintStep(st, s, f), t, f);
  }

  lemma PaintLineSteps(st: DocState, line: string, c: Cursor, f: Frame)
    ensures Paint(st, LineSteps(line, c, f), f) == PaintLine(st, line, c, f)
  {
    if Overflows(c.y, f) {
      PaintPair(st, Break(c.page == 1, c.page + 1), Line(line, TopMargin), f);
    } else {
      PaintSingle(st, Line(line, c.y), f);
    }
  }

  /** One more line: how the steps, the drawing and the cursor grow. */
  lemma LoopStep(st: DocState, lines: seq<string>, i: nat, textStart: int, f: Frame)
    requires i < |lines|
    ensures CursorAfter(lines[..i + 1], textStart, f) == Advance(CursorAfter(lines[..i], textStart, f), f)
    ensures Paint(st, Steps(lines[..i + 1], textStart, f), f)
         == PaintLine(Paint(st, Steps(lines[..i], textStart, f), f), lines[i], CursorAfter(lines[..i], textStart, f), f)
  {
    assert lines[..i + 1][..i] == lines[..i];
    var c := CursorAfter(lines[..i], textStart, f);
    var prefix := Steps(lines[..i], textStart, f);
    assert Steps(lines[..i + 1], textStart, f) == prefix + LineSteps(lines[i], c, f);
    PaintAppend(st, prefix, LineSteps(lines[i], c, f), f);
    PaintLineSteps(Paint(st, prefix, f), lines[i], c, f);
  }

  /**
   * The body of `wrapText`'s overflow branch: stamp "1" if this is the first break, add a
   * page, repaint its background and stamp its number; returns the new page number.
   */
  method BreakPage(doc: Document, pageNumber: nat, docWidth: int, docHeight: int, lineSpacing: int,
                   ghost f: Frame, pageColour: Rgb) returns (next: nat)
    requires f.docWidth == docWidth && f.docHeight == docHeight && f.lineSpacing == lineSpacing
    requires f.pageColour == pageColour
    modifies doc
    ensures next == pageNumber + 1
    ensures doc.State() == PaintStep(old(doc.State()), Break(pageNumber == 1, pageNumber + 1), f)
  {
    ghost var start := doc.State();
    ghost var left := if pageNumber == 1 then Label(start, 1, f) else start;
    if pageNumber == 1 {
      doc.Text(NatToString(pageNumber), docWidth - LabelInset, docHeight - lineSpacing);
    }
    assert doc.State() == left;
    doc.AddPage();
    FillBackground(doc, docWidth, docHeight, pageColour);
    ghost var filled := doc.State();
    assert filled == Background(left.AddPage(), f.docWidth, f.docHeight, f.pageColour);
    next := pageNumber + 1;
    doc.Text(NatToString(next), docWidth - LabelInset, docHeight - lineSpacing);
    assert doc.State() == Label(filled, next, f);
  }

  /** The body of `wrapText`'s loop: one line, after a page break if the cursor is past the end. */
  method DrawLine(doc: Document, line: string, y: int, pageNumber: nat, docWidth: int, docHeight: int,
                  lineSpacing: int, leftIndent: int, ghost f: Frame, pageColour: Rgb) returns (y': int, pageNumber': nat)
    requires f == Frame(docWidth, docHeight, lineSpacing, leftIndent, pageColour)
    modifies doc
    ensures Cursor(y', pageNumber') == Advance(Cursor(y, pageNumber), f)
    ensures doc.State() == PaintLine(old(doc.State()), line, Cursor(y, pageNumber), f)
  {
    ghost var start := doc.State();
    y', pageNumber' := y, pageNumber;
    if y' > docHeight - lineSpacing {
      y' := TopMargin;
      pageNumber' := BreakPage(doc, pageNumber', docWidth, docHeight, lineSpacing, f, pageColour);
    }
    ghost var broken := doc.State();
    assert broken == if Overflows(y, f) then PaintStep(start, Break(pageNumber == 1, pageNumber + 1), f) else start;
    doc.Text(line, leftIndent, y');
    assert doc.State() == PaintStep(broken, Line(line, y'), f);
    y' := y' + lineSpacing;
  }

  /**
   * `wrapText` (src/utils/pdf.ts:125-162): splits the text with the document's current font,
   * switches to the given font, then draws the lines one by one, starting a new page whenever
   * the cursor has passed `docHeight - lineSpacing`; returns the final cursor.
   */
  method WrapText(doc: Document, split: Splitter, style: FontStyle, fontSize: int, text: Option<string>,
                  textStart: int, docWidth: int, docHeight: int, wrapWidth: int, lineSpacing: int,
                  leftIndent: int, pageColour: Rgb) returns (y: int)
    modifies doc
    ensures (doc.State(), y) == WrapState(old(doc.State()), split, style, fontSize, text, textStart, wrapWidth,
                                         Frame(docWidth, docHeight, lineSpacing, leftIndent, pageColour))
  {
    ghost var f := Frame(docWidth, docHeight, lineSpacing, leftIndent, pageColour);
    var splitText := doc.SplitTextToSize(split, text, wrapWidth);
    doc.SetFont(style);
    doc.SetFontSize(fontSize);
    ghost var start := doc.State();
    y := textStart;
    var pageNumber := 1;
    for i := 0 to |splitText|
      invariant Cursor(y, pageNumber) == CursorAfter(splitText[..i], textStart, f)
      invariant doc.State() == Paint(start, Steps(splitText[..i], textStart, f), f)
    {
      LoopStep(start, splitText, i, textStart, f);
      y, pageNumber := DrawLine(doc, splitText[i], y, pageNumber, docWidth, docHeight, lineSpacing, leftIndent, f, pageColour);
    }
    assert splitText[..|splitText|] == splitText;
  }

  /** The lines a list of steps draws, in order. */
  function LinesOf(steps: seq<Step>): seq<string>
    decreases |steps|
  {
    if steps == [] then []
    else
      var last := steps[|steps| - 1];
      LinesOf(steps[..|steps| - 1]) + (if last.Line? then [last.text] else [])
  }

  /** The page breaks among a list of steps, in order. */
  function BreaksOf(steps: seq<Step>): seq<Step>
    decreases |steps|
  {
    if steps == [] then []
    else
      var last := steps[|steps| - 1];
      BreaksOf(steps[..|steps| - 1]) + (if last.Break? then [last] else [])
  }

  lemma {:induction false} LinesOfAppend(a: seq<Step>, b: seq<Step>)
    ensures LinesOf(a + b) == LinesOf(a) + LinesOf(b)
    decreases |b|
  {
    if b == [] {
      assert a + b == a;
    } else {
      assert (a + b)[..|a + b| - 1] == a + b[..|b| - 1];
      LinesOfAppend(a, b[..|b| - 1]);
    }
  }

  lemma {:induction false} BreaksOfAppend(a: seq<Step>, b: seq<Step>)
    ensures BreaksOf(a + b) == BreaksOf(a) + BreaksOf(b)
    decreases |b|
  {
    if b == [] {
      assert a + b == a;
    } else {
      assert (a + b)[..|a + b| - 1] == a + b[..|b| - 1];
      BreaksOfAppend(a, b[..|b| - 1]);
    }
  }

  lemma PartsOfLine(line: string, y: int)
    ensures LinesOf([Line(line, y)]) == [line]
    ensures BreaksOf([Line(line, y)]) == []
  {
    assert [Line(line, y)][..0] == [];
  }

  lemma PartsOfBreakLine(b: Step, line: string, y: int)
    requires b.Break?
    ensures LinesOf([b, Line(line, y)]) == [line]
    ensures BreaksOf([b, Line(line, y)]) == [b]
  {
    assert [b, Line(line, y)][..1] == [b];
    assert [b][..0] == [];
    assert LinesOf([b]) == [] && BreaksOf([b]) == [b];
  }

  lemma LineStepsParts(line: string, c: Cursor, f: Frame)
    ensures LinesOf(LineSteps(line, c, f)) == [line]
    ensures BreaksOf(LineSteps(line, c, f)) == if Overflows(c.y, f) then [Break(c.page == 1, c.page + 1)] else []
  {
    if Overflows(c.y, f) {
      PartsOfBreakLine(Break(c.page == 1, c.page + 1), line, TopMargin);
    } else {
      PartsOfLine(line, c.y);
    }
  }

  lemma EveryLineStep(prev: seq<string>, line: string, textStart: int, f: Frame)
    requires LinesOf(Steps(prev, textStart, f)) == prev
    ensures LinesOf(Steps(prev + [line], textStart, f)) == prev + [line]
  {
    var lines := prev + [line];
    assert lines[..|lines| - 1] == prev && lines[|lines| - 1] == line;
    var c := CursorAfter(prev, textStart, f);
    assert LinesOf(Steps(lines, textStart, f)) == prev + LinesOf(LineSteps(line, c, f)) by {
      LinesOfAppend(Steps(prev, textStart, f), LineSteps(line, c, f));
    }
    LineStepsParts(line, c, f);
  }

  /** Every line is drawn exactly once, in the order of the split text. */
  lemma {:induction false} EveryLineOnce(lines: seq<string>, textStart: int, f: Frame)
    ensures LinesOf(Steps(lines, textStart, f)) == lines
    decreases |lines|
  {
    if lines != [] {
      var prev := lines[..|lines| - 1];
      var line := lines[|lines| - 1];
      assert LinesOf(Steps(prev + [line], textStart, f)) == prev + [line] by {
        EveryLineOnce(prev, textStart, f);
        EveryLineStep(prev, line, textStart, f);
      }
      assert prev + [line] == lines;
    }
  }

  /** The page numbers a call stamps: break k (from 0) makes page k + 2, stamping "1" when k is 0. */
  function Numbering(n: nat): seq<Step>
    decreases n
  {
    if n == 0 then [] else Numbering(n - 1) + [Break(n == 1, n + 1)]
  }

  lemma {:induction false} NumberingAt(n: nat, k: nat)
    requires k < n
    ensures |Numbering(n)| == n && Numbering(n)[k] == Break(k == 0, k + 2)
    decreases n
  {
    if k < n - 1 {
      NumberingAt(n - 1, k);
    } else if n > 1 {
      NumberingAt(n - 1, 0);
    }
  }

  lemma {:induction false} CursorPagePositive(lines: seq<string>, textStart: int, f: Frame)
    ensures CursorAfter(lines, textStart, f).page >= 1
    decreases |lines|
  {
    if lines != [] {
      CursorPagePositive(lines[..|lines| - 1], textStart, f);
    }
  }

  /**
   * The breaks of a call are numbered 2, 3, ... in order, only the first stamps "1", and
   * their number is the final page counter minus one: the counter starts at 1 in every call.
   */
  lemma NextNumbering(line: string, c: Cursor, f: Frame)
    requires c.page >= 1
    ensures Numbering(c.page - 1) + BreaksOf(LineSteps(line, c, f)) == Numbering(Advance(c, f).page - 1)
  {
    LineStepsParts(line, c, f);
    if !Overflows(c.y, f) {
      assert Numbering(c.page - 1) + [] == Numbering(c.page - 1);
    }
  }

  lemma BreaksNumberedStep(prev: seq<string>, line: string, textStart: int, f: Frame)
    requires CursorAfter(prev, textStart, f).page >= 1
    requires BreaksOf(Steps(prev, textStart, f)) == Numbering(CursorAfter(prev, textStart, f).page - 1)
    ensures BreaksOf(Steps(prev + [line], textStart, f)) == Numbering(CursorAfter(prev + [line], textStart, f).page - 1)
  {
    var lines := prev + [line];
    assert lines[..|lines| - 1] == prev && lines[|lines| - 1] == line;
    var c := CursorAfter(prev, textStart, f);
    var more := LineSteps(line, c, f);
    assert BreaksOf(Steps(lines, textStart, f)) == BreaksOf(Steps(prev, textStart, f)) + BreaksOf(more) by {
      BreaksOfAppend(Steps(prev, textStart, f), more);
    }
    NextNumbering(line, c, f);
  }

  lemma {:induction false} BreaksNumbered(lines: seq<string>, textStart: int, f: Frame)
    ensures CursorAfter(lines, textStart, f).page >= 1
    ensures BreaksOf(Steps(lines, textStart, f)) == Numbering(CursorAfter(lines, textStart, f).page - 1)
    decreases |lines|
  {
    CursorPagePositive(lines, textStart, f);
    if lines != [] {
      var prev := lines[..|lines| - 1];
      var line := lines[|lines| - 1];
      assert BreaksOf(Steps(prev + [line], textStart, f)) == Numbering(CursorAfter(prev + [line], textStart, f).page - 1) by {
        BreaksNumbered(prev, textStart, f);
        BreaksNumberedStep(prev, line, textStart, f);
      }
      assert prev + [line] == lines;
    }
  }

  /** Each break adds exactly one page. */
  lemma {:induction false} PagesAdded(st: DocState, steps: seq<Step>, f: Frame)
    ensures |Paint(st, steps, f).pages| == |st.pages| + |BreaksOf(steps)|
    decreases |steps|
  {
    if steps != [] {
      PagesAdded(st, steps[..|steps| - 1], f);
    }
  }

  /**
   * With a non-negative line spacing the call stays on its page exactly when the last line
   * still fits (`textStart + n * lineSpacing <= docHeight`); then the cursor it returns is
   * `textStart + n * lineSpacing`. With no lines it returns `textStart`.
   */
  lemma {:induction false} NoOverflowIff(lines: seq<string>, textStart: int, f: Frame)
    requires f.lineSpacing >= 0
    ensures CursorAfter(lines, textStart, f).page == 1 <==> (lines == [] || textStart + |lines| * f.lineSpacing <= f.docHeight)
    ensures CursorAfter(lines, textStart, f).page == 1 ==> CursorAfter(lines, textStart, f).y == textStart + |lines| * f.lineSpacing
    decreases |lines|
  {
    if lines != [] {
      var n := |lines|;
      var prev := lines[..n - 1];
      var c := CursorAfter(prev, textStart, f);
      NoOverflowIff(prev, textStart, f);
      CursorPagePositive(prev, textStart, f);
      assert (n - 1) * f.lineSpacing + f.lineSpacing == n * f.lineSpacing;
      assert (n - 1) * f.lineSpacing <= n * f.lineSpacing;
    }
  }

  /** A break is always followed by a line drawn at the top margin of the new page. */
  lemma {:induction false} BreakThenTop(lines: seq<string>, textStart: int, f: Frame, i: nat)
    requires i < |Steps(lines, textStart, f)| && Steps(lines, textStart, f)[i].Break?
    ensures i + 1 < |Steps(lines, textStart, f)|
    ensures Steps(lines, textStart, f)[i + 1].Line? && Steps(lines, textStart, f)[i + 1].y == TopMargin
    decreases |lines|
  {
    var prev := lines[..|lines| - 1];
    var before := Steps(prev, textStart, f);
    var last := LineSteps(lines[|lines| - 1], CursorAfter(prev, textStart, f), f);
    if i < |before| {
      BreakThenTop(prev, textStart, f, i);
    } else {
      assert last[i - |before|].Break?;
    }
  }

  /**
   * When the top margin leaves room for a line, no line is ever drawn below
   * `docHeight - lineSpacing`.
   */
  lemma {:induction false} LinesFitPage(lines: seq<string>, textStart: int, f: Frame, i: nat)
    requires TopMargin <= f.docHeight - f.lineSpacing
    requires i < |Steps(lines, textStart, f)| && Steps(lines, textStart, f)[i].Line?
    ensures Steps(lines, textStart, f)[i].y <= f.docHeight - f.lineSpacing
    decreases |lines|
  {
    var prev := lines[..|lines| - 1];
    var before := Steps(prev, textStart, f);
    if i < |before| {
      LinesFitPage(prev, textStart, f, i);
    }
  }

  /** The returned cursor is one line spacing below the last line drawn. */
  lemma CursorBelowLastLine(lines: seq<string>, textStart: int, f: Frame)
    requires lines != []
    ensures var steps := Steps(lines, textStart, f);
            steps != [] && steps[|steps| - 1] == Line(lines[|lines| - 1], steps[|steps| - 1].y)
            && CursorAfter(lines, textStart, f).y == steps[|steps| - 1].y + f.lineSpacing
  {
  }

  lemma LabelPainted(st: DocState, n: nat, f: Frame)
    requires Painted(st.pages, f.pageColour, st.textColour)
    ensures Label(st, n, f).textColour == st.textColour
    ensures Painted(Label(st, n, f).pages, f.pageColour, st.textColour)
  {
    DrawPainted(st.pages, Text(NatToString(n), f.docWidth - LabelInset, f.docHeight - f.lineSpacing, st.style, st.fontSize, st.textColour),
                f.pageColour, st.textColour);
  }

  lemma NewPagePainted(st: DocState, f: Frame)
    requires Painted(st.pages, f.pageColour, st.textColour)
    ensures var r := Background(st.AddPage(), f.docWidth, f.docHeight, f.pageColour);
            r.textColour == st.textColour && Painted(r.pages, f.pageColour, st.textColour)
  {
    AddPagePainted(st.pages, f.pageColour, st.textColour);
    DrawPainted(st.pages + [[]], FilledRect(0, 0, f.docWidth, f.docHeight, f.pageColour), f.pageColour, st.textColour);
  }

  lemma BreakKeepsColours(st: DocState, first: bool, n: nat, f: Frame)
    requires Painted(st.pages, f.pageColour, st.textColour)
    ensures PaintStep(st, Break(first, n), f).textColour == st.textColour
    ensures Painted(PaintStep(st, Break(first, n), f).pages, f.pageColour, st.textColour)
  {
    var left := if first then Label(st, 1, f) else st;
    assert left.textColour == st.textColour && Painted(left.pages, f.pageColour, st.textColour) by {
      if first {
        LabelPainted(st, 1, f);
      }
    }
    var filled := Background(left.AddPage(), f.docWidth, f.docHeight, f.pageColour);
    NewPagePainted(left, f);
    LabelPainted(filled, n, f);
  }

  /** A call repaints new pages in the page colour and draws all its text in the current text colour. */
  lemma {:induction false} PaintKeepsColours(st: DocState, steps: seq<Step>, f: Frame)
    requires Painted(st.pages, f.pageColour, st.textColour)
    ensures Paint(st, steps, f).textColour == st.textColour
    ensures Painted(Paint(st, steps, f).pages, f.pageColour, st.textColour)
    decreases |steps|
  {
    if steps != [] {
      var mid := Paint(st, steps[..|steps| - 1], f);
      PaintKeepsColours(st, steps[..|steps| - 1], f);
      match steps[|steps| - 1]
      case Line(t, y) =>
        DrawPainted(mid.pages, Text(t, f.leftIndent, y, mid.style, mid.fontSize, st.textColour), f.pageColour, st.textColour);
      case Break(first, n) =>
        BreakKeepsColours(mid, first, n, f);
    }
  }

  /** The first step of a call: a break if the start is already past the end of the page. */
  lemma FirstStep(lines: seq<string>, textStart: int, f: Frame)
    requires lines != []
    ensures var steps := Steps(lines, textStart, f);
            steps != [] && steps[0] == if Overflows(textStart, f) then Break(true, 2) else Line(lines[0], textStart)
    decreases |lines|
  {
    if |lines| > 1 {
      FirstStep(lines[..|lines| - 1], textStart, f);
      assert lines[..|lines| - 1][0] == lines[0];
    }
  }

  /** The cursor depends on the page height and the spacing only. */
  lemma {:induction false} CursorIgnoresFrame(lines: seq<string>, textStart: int, f: Frame, g: Frame)
    requires f.docHeight == g.docHeight && f.lineSpacing == g.lineSpacing
    ensures CursorAfter(lines, textStart, f) == CursorAfter(lines, textStart, g)
    decreases |lines|
  {
    if lines != [] {
      CursorIgnoresFrame(lines[..|lines| - 1], textStart, f, g);
    }
  }

  lemma LabelExtends(st: DocState, n: nat, f: Frame)
    ensures Extends(st.pages, Label(st, n, f).pages)
  {
    DrawExtends(st.pages, Text(NatToString(n), f.docWidth - LabelInset, f.docHeight - f.lineSpacing, st.style, st.fontSize, st.textColour));
  }

  lemma BackgroundExtends(st: DocState, w: int, h: int, c: Rgb)
    ensures Extends(st.pages, Background(st, w, h, c).pages)
  {
    DrawExtends(st.pages, FilledRect(0, 0, w, h, c));
  }

  lemma BreakExtends(st: DocState, first: bool, n: nat, f: Frame)
    ensures Extends(st.pages, PaintStep(st, Break(first, n), f).pages)
  {
    var left := if first then Label(st, 1, f) else st;
    if first {
      LabelExtends(st, 1, f);
    }
    var added := left.AddPage();
    AddPageExtends(left.pages);
    ExtendsTrans(st.pages, left.pages, added.pages);
    var filled := Background(added, f.docWidth, f.docHeight, f.pageColour);
    BackgroundExtends(added, f.docWidth, f.docHeight, f.pageColour);
    ExtendsTrans(st.pages, added.pages, filled.pages);
    LabelExtends(filled, n, f);
    assert PaintStep(st, Break(first, n), f) == Label(filled, n, f);
    ExtendsTrans(st.pages, filled.pages, Label(filled, n, f).pages);
  }

  /** A call only adds to the document: nothing drawn before is changed or removed. */
  lemma {:induction false} PaintExtends(st: DocState, steps: seq<Step>, f: Frame)
    ensures Extends(st.pages, Paint(st, steps, f).pages)
    decreases |steps|
  {
    if steps != [] {
      var mid := Paint(st, steps[..|steps| - 1], f);
      PaintExtends(st, steps[..|steps| - 1], f);
      match steps[|steps| - 1]
      case Line(t, y) =>
        DrawExtends(mid.pages, Text(t, f.leftIndent, y, mid.style, mid.fontSize, mid.textColour));
        ExtendsTrans(st.pages, mid.pages, Paint(st, steps, f).pages);
      case Break(first, n) =>
        BreakExtends(mid, first, n, f);
        ExtendsTrans(st.pages, mid.pages, Paint(st, steps, f).pages);
    }
  }

  lemma {:induction false} NumberingLength(n: nat)
    ensures |Numbering(n)| == n
    decreases n
  {
    if n > 0 {
      NumberingLength(n - 1);
    }
  }

  /** A call adds one page per break: the final page counter minus one. */
  lemma WrapPageCount(st: DocState, split: Splitter, style: FontStyle, fontSize: int, text: Option<string>,
                      textStart: int, wrapWidth: int, f: Frame)
    ensures var lines := split(text, st.style, st.fontSize, wrapWidth);
            |WrapState(st, split, style, fontSize, text, textStart, wrapWidth, f).0.pages|
              == |st.pages| + CursorAfter(lines, textStart, f).page - 1
  {
    var lines := split(text, st.style, st.fontSize, wrapWidth);
    var steps := Steps(lines, textStart, f);
    var d := st.SetFont(style).SetFontSize(fontSize);
    var n := CursorAfter(lines, textStart, f).page;
    PagesAdded(d, steps, f);
    BreaksNumbered(lines, textStart, f);
    NumberingLength(n - 1);
    assert |Paint(d, steps, f).pages| == |st.pages| + (n - 1);
    assert WrapState(st, split, style, fontSize, text, textStart, wrapWidth, f).0 == Paint(d, steps, f);
  }

  /** A call only adds to the document. */
  lemma WrapExtends(st: DocState, split: Splitter, style: FontStyle, fontSize: int, text: Option<string>,
                    textStart: int, wrapWidth: int, f: Frame)
    ensures Extends(st.pages, WrapState(st, split, style, fontSize, text, textStart, wrapWidth, f).0.pages)
  {
    var lines := split(text, st.style, st.fontSize, wrapWidth);
    PaintExtends(st.SetFont(style).SetFontSize(fontSize), Steps(lines, textStart, f), f);
  }

  /** A call keeps the colours: new pages in the page colour, text in the current text colour. */
  lemma WrapColours(st: DocState, split: Splitter, style: FontStyle, fontSize: int, text: Option<string>,
                    textStart: int, wrapWidth: int, f: Frame)
    requires Painted(st.pages, f.pageColour, st.textColour)
    ensures var r := WrapState(st, split, style, fontSize, text, textStart, wrapWidth, f).0;
            r.textColour == st.textColour && Painted(r.pages, f.pageColour, st.textColour)
  {
    var lines := split(text, st.style, st.fontSize, wrapWidth);
    PaintKeepsColours(st.SetFont(style).SetFontSize(fontSize), Steps(lines, textStart, f), f);
  }

  /**
   * When the text starts on the page, the first line is drawn on the current page right after
   * what was there, at the left indent and `textStart`, in the call's font.
   */
  /** What the first step draws stays in place under the steps after it. */
  lemma PaintFirst(st: DocState, steps: seq<Step>, f: Frame)
    requires steps != []
    ensures Extends(PaintStep(st, steps[0], f).pages, Paint(st, steps, f).pages)
  {
    assert steps == [steps[0]] + steps[1..];
    PaintAppend(st, [steps[0]], steps[1..], f);
    PaintSingle(st, steps[0], f);
    PaintExtends(PaintStep(st, steps[0], f), steps[1..], f);
  }

  lemma FirstLineAtStart(st: DocState, split: Splitter, style: FontStyle, fontSize: int, text: Option<string>,
                         textStart: int, wrapWidth: int, f: Frame)
    requires split(text, st.style, st.fontSize, wrapWidth) != []
    requires !Overflows(textStart, f)
    ensures var r := WrapState(st, split, style, fontSize, text, textStart, wrapWidth, f).0;
            var k := |st.pages| - 1;
            k < |r.pages| && |st.pages[k]| < |r.pages[k]|
            && r.pages[k][|st.pages[k]|]
               == Text(split(text, st.style, st.fontSize, wrapWidth)[0], f.leftIndent, textStart, style, fontSize, st.textColour)
  {
    var lines := split(text, st.style, st.fontSize, wrapWidth);
    var d := st.SetFont(style).SetFontSize(fontSize);
    var steps := Steps(lines, textStart, f);
    var op := Text(lines[0], f.leftIndent, textStart, style, fontSize, st.textColour);
    var k := |st.pages| - 1;
    var first := d.PutText(lines[0], f.leftIndent, textStart);
    assert first.pages[k] == st.pages[k] + [op];
    assert Extends(first.pages, Paint(d, steps, f).pages) by {
      FirstStep(lines, textStart, f);
      PaintFirst(d, steps, f);
    }
    assert first.pages[k] <= Paint(d, steps, f).pages[k];
  }
}
