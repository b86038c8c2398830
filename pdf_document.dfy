/**
 * The part of jsPDF the export engine drives, as a value and as an object.
 * A document is a non-empty list of pages; each page is the log of what was drawn on it,
 * in drawing order. Drawing always goes to the last page, which `addPage` makes current.
 * Every text records the font style, size and colour in force when it was drawn; a filled
 * rectangle records the fill colour in force.
 */
module Pdf {
  import opened Colour
  import opened Bytes
  import opened Wrappers

  datatype FontStyle = Normal | Bold | Italic

  datatype ImageFormat = Png | Jpeg

  datatype DrawOp =
    | FilledRect(x: int, y: int, w: int, h: int, fill: Rgb)
    | Text(content: string, x: int, y: int, style: FontStyle, size: int, colour: Rgb)
    | Picture(data: seq<byte>, format: ImageFormat, x: int, y: int, w: int, h: int)

  type Page = seq<DrawOp>

  type Pages = p: seq<Page> | |p| > 0 witness [[]]

  /** Appends `op` to the current (last) page. */
  function Draw(pages: Pages, op: DrawOp): (r: Pages)
    ensures |r| == |pages| && r[..|r| - 1] == pages[..|pages| - 1]
    ensures r[|r| - 1] == pages[|pages| - 1] + [op]
  {
    pages[..|pages| - 1] + [pages[|pages| - 1] + [op]]
  }

  lemma DrawOnLast(pages: seq<Page>, p: Page, op: DrawOp)
    ensures Draw(pages + [p], op) == pages + [p + [op]]
  {
    assert (pages + [p])[..|pages|] == pages;
  }

  /** The drawing state of a document: its pages and the current colours and font. */
  datatype DocState = DocState(pages: Pages, textColour: Rgb, fillColour: Rgb, style: FontStyle, fontSize: int) {

    function SetTextColour(c: Rgb): DocState { this.(textColour := c) }

    function SetFillColour(c: Rgb): DocState { this.(fillColour := c) }

    function SetFont(s: FontStyle): DocState { this.(style := s) }

    function SetFontSize(n: int): DocState { this.(fontSize := n) }

    function PutText(s: string, x: int, y: int): DocState {
      this.(pages := Draw(pages, Text(s, x, y, style, fontSize, textColour)))
    }

    function FillRect(x: int, y: int, w: int, h: int): DocState {
      this.(pages := Draw(pages, FilledRect(x, y, w, h, fillColour)))
    }

    function PutImage(data: seq<byte>, format: ImageFormat, x: int, y: int, w: int, h: int): DocState {
      this.(pages := Draw(pages, Picture(data, format, x, y, w, h)))
    }

    function AddPage(): DocState { this.(pages := pages + [[]]) }
  }

  /** Every filled rectangle uses `fill` and every text is drawn in `ink`. */
  predicate OpPainted(op: DrawOp, fill: Rgb, ink: Rgb) {
    (op.FilledRect? ==> op.fill == fill) && (op.Text? ==> op.colour == ink)
  }

  predicate Painted(pages: seq<Page>, fill: Rgb, ink: Rgb) {
    forall p, k :: 0 <= p < |pages| && 0 <= k < |pages[p]| ==> OpPainted(pages[p][k], fill, ink)
  }

  lemma DrawPainted(pages: Pages, op: DrawOp, fill: Rgb, ink: Rgb)
    requires Painted(pages, fill, ink) && OpPainted(op, fill, ink)
    ensures Painted(Draw(pages, op), fill, ink)
  {
    var r := Draw(pages, op);
    forall p, k | 0 <= p < |r| && 0 <= k < |r[p]| ensures OpPainted(r[p][k], fill, ink) {
      if p < |r| - 1 {
        assert r[p] == pages[p];
      } else if k < |pages[p]| {
        assert r[p][k] == pages[p][k];
      }
    }
  }

  lemma AddPagePainted(pages: Pages, fill: Rgb, ink: Rgb)
    requires Painted(pages, fill, ink)
    ensures Painted(pages + [[]], fill, ink)
  {
    var r := pages + [[]];
    forall p, k | 0 <= p < |r| && 0 <= k < |r[p]| ensures OpPainted(r[p][k], fill, ink) {
      assert p < |pages|;
      assert r[p] == pages[p];
    }
  }

  /** `newer` keeps every page of `older`, each with what was drawn on it as a prefix. */
  predicate Extends(older: seq<Page>, newer: seq<Page>) {
    |older| <= |newer| && forall i :: 0 <= i < |older| ==> older[i] <= newer[i]
  }

  lemma ExtendsTrans(a: seq<Page>, b: seq<Page>, c: seq<Page>)
    requires Extends(a, b) && Extends(b, c)
    ensures Extends(a, c)
  {
    forall i | 0 <= i < |a| ensures a[i] <= c[i] {
      assert a[i] <= b[i] && b[i] <= c[i];
    }
  }

  lemma AddPageExtends(pages: Pages)
    ensures Extends(pages, pages + [[]])
  {
    forall i | 0 <= i < |pages| ensures pages[i] <= (pages + [[]])[i] {
      assert (pages + [[]])[i] == pages[i];
    }
  }

  lemma DrawExtends(pages: Pages, op: DrawOp)
    ensures Extends(pages, Draw(pages, op))
  {
    var r := Draw(pages, op);
    forall i | 0 <= i < |pages| ensures pages[i] <= r[i] {
      if i < |pages| - 1 {
        assert r[i] == pages[i];
      }
    }
  }

  /** A fresh document: one empty page, black text and fill, the default font. */
  function Blank(fontSize: int): DocState {
    DocState([[]], Black, Black, Normal, fontSize)
  }

  /**
   * Breaks a text into lines no wider than a given width, as jsPDF's `splitTextToSize`
   * measures them with the font style and size current at the call:
   * arguments are the text (None for undefined), the style, the size and the width.
   */
  type Splitter = (Option<string>, FontStyle, int, int) -> seq<string>

  /** A jsPDF document under construction, as `new jsPDF(...)` returns it. */
  class Document {
    const width: int
    const height: int
    var pages: Pages
    var textColour: Rgb
    var fillColour: Rgb
    var style: FontStyle
    var fontSize: int

    function State(): DocState
      reads this
    {
      DocState(pages, textColour, fillColour, style, fontSize)
    }

    constructor (width: int, height: int, fontSize: int)
      ensures this.width == width && this.height == height
      ensures State() == Blank(fontSize)
    {
      this.width := width;
      this.height := height;
      pages := [[]];
      textColour, fillColour := Black, Black;
      style := Normal;
      this.fontSize := fontSize;
    }

    method SetTextColour(c: Rgb)
      modifies this
      ensures State() == old(State()).SetTextColour(c)
    {
      textColour := c;
    }

    method SetFillColour(c: Rgb)
      modifies this
      ensures State() == old(State()).SetFillColour(c)
    {
      fillColour := c;
    }

    method SetFont(s: FontStyle)
      modifies this
      ensures State() == old(State()).SetFont(s)
    {
      style := s;
    }

    method SetFontSize(n: int)
      modifies this
      ensures State() == old(State()).SetFontSize(n)
    {
      fontSize := n;
    }

    method Text(s: string, x: int, y: int)
      modifies this
      ensures State() == old(State()).PutText(s, x, y)
    {
      pages := Draw(pages, DrawOp.Text(s, x, y, style, fontSize, textColour));
    }

    /** `rect(x, y, w, h, "F")`: a rectangle filled with the current fill colour. */
    method Rect(x: int, y: int, w: int, h: int)
      modifies this
      ensures State() == old(State()).FillRect(x, y, w, h)
    {
      pages := Draw(pages, FilledRect(x, y, w, h, fillColour));
    }

    method AddImage(data: seq<byte>, format: ImageFormat, x: int, y: int, w: int, h: int)
      modifies this
      ensures State() == old(State()).PutImage(data, format, x, y, w, h)
    {
      pages := Draw(pages, Picture(data, format, x, y, w, h));
    }

    method AddPage()
      modifies this
      ensures State() == old(State()).AddPage()
    {
      pages := pages + [[]];
    }

    method SplitTextToSize(split: Splitter, text: Option<string>, wrapWidth: int) returns (lines: seq<string>)
      ensures lines == split(text, style, fontSize, wrapWidth)
    {
      lines := split(text, style, fontSize, wrapWidth);
    }
  }
}
