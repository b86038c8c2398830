/**
 * `FileGenerator.generateNotePdf` (src/utils/pdf.ts:36-107): one note rendered as a document.
 * The first page gets the background, the logo, the bold title, the "Created on" line and
 * the body; an optional last page holds the note's image.
 */
module NoteRender {
  import opened Wrappers
  import opened Bytes
  import opened Colour
  import opened Pdf
  import opened Pagination

  datatype Image = Image(buffer: seq<byte>, mimetype: string)

  /** What the renderer reads of a note. A title of None is undefined or null. */
  datatype Note = Note(title: Option<string>, text: string, color: string, image: Option<Image>, encrypted: bool)

  /**
   * What jsPDF supplies: the page size of an A4 portrait document in px (rounded to integers),
   * its default font size, the text splitter and the serialisation of the pages to bytes.
   */
  datatype Toolkit = Toolkit(pageWidth: int, pageHeight: int, defaultFontSize: int,
                             split: Splitter, output: Pages -> seq<byte>)

  const LeftIndent := 20
  const TitleStart := 20
  const TitleWidth := 320
  const TitleSpacing := 12
  const DateFontSize := 8
  const BodyStart := 60
  const BodyMeasureSize := 14
  const BodyFontSize := 12
  const BodyWidth := 450
  const BodySpacing := 10
  const LogoInset := 48
  const LogoTop := 5
  const LogoSize := 40

  /** The background colour: the note's colour when `colored`, else `hexToRgb("#ffffff")`. */
  function PageColour(color: string, colored: bool): Rgb {
    if colored then HexToRgb(color) else HexToRgb("#ffffff")
  }

  /** The text colour: white on a colour the dark expression matches, when `colored`; else black. */
  function InkColour(color: string, colored: bool): Rgb {
    if colored && IsDark(color) then White else Black
  }

  /** The embedding format of the note's image, chosen from its mimetype. */
  function FormatOf(mimetype: string): (f: ImageFormat)
    ensures f == Png <==> mimetype == "application/png"
  {
    if mimetype == "application/png" then Png else Jpeg
  }

  function TitleFrame(kit: Toolkit, fill: Rgb): Frame {
    Frame(kit.pageWidth, kit.pageHeight, TitleSpacing, LeftIndent, fill)
  }

  function BodyFrame(kit: Toolkit, fill: Rgb): Frame {
    Frame(kit.pageWidth, kit.pageHeight, BodySpacing, LeftIndent, fill)
  }

  /** The page background, then the logo in the top right corner. */
  function Decorate(st: DocState, width: int, height: int, fill: Rgb, logo: seq<byte>): DocState {
    Background(st, width, height, fill).PutImage(logo, Png, width - LogoInset, LogoTop, LogoSize, LogoSize)
  }

  /** The first page's background and logo, with the text colour chosen. */
  function Opening(note: Note, colored: bool, kit: Toolkit, logo: seq<byte>): DocState {
    var d := Blank(kit.defaultFontSize).SetTextColour(InkColour(note.color, colored));
    Decorate(d, kit.pageWidth, kit.pageHeight, PageColour(note.color, colored), logo)
  }

  /** The document after the title and the "Created on" line, and `titleEnd`. */
  function Heading(note: Note, colored: bool, kit: Toolkit, logo: seq<byte>, now: string): (DocState, int) {
    var d := Opening(note, colored, kit, logo).SetFont(Bold);
    var fill := PageColour(note.color, colored);
    var (titled, titleEnd) := WrapState(d, kit.split, d.style, d.fontSize, note.title, TitleStart, TitleWidth, TitleFrame(kit, fill));
    (titled.SetFont(Italic).SetFontSize(DateFontSize).PutText("Created on " + now, LeftIndent, titleEnd), titleEnd)
  }

  /** The document after the body text. */
  function Body(note: Note, colored: bool, kit: Toolkit, logo: seq<byte>, now: string): DocState {
    var d := Heading(note, colored, kit, logo, now).0.SetFont(Normal).SetFontSize(BodyMeasureSize);
    WrapState(d, kit.split, Normal, BodyFontSize, Some(note.text), BodyStart, BodyWidth,
              BodyFrame(kit, PageColour(note.color, colored))).0
  }

  /** The separate image page: background, then the image at the left indent and `titleEnd`. */
  function ImagePage(st: DocState, image: Image, titleEnd: int, kit: Toolkit, fill: Rgb): DocState {
    Background(st.AddPage(), kit.pageWidth, kit.pageHeight, fill)
      .PutImage(image.buffer, FormatOf(image.mimetype), LeftIndent, titleEnd, 0, 0)
  }

  /** The whole document `generateNotePdf` builds. */
  function NoteDocument(note: Note, withImage: bool, colored: bool, kit: Toolkit, logo: seq<byte>, now: string): DocState {
    var body := Body(note, colored, kit, logo, now);
    if withImage && note.image.Some? then
      ImagePage(body, note.image.value, Heading(note, colored, kit, logo, now).1, kit, PageColour(note.color, colored))
    else body
  }

  /** The bytes `generateNotePdf` returns for each note, for fixed flags, toolkit, logo and time. */
  function Renderer(withImage: bool, colored: bool, kit: Toolkit, logo: seq<byte>, now: string): Note -> seq<byte> {
    note => kit.output(NoteDocument(note, withImage, colored, kit, logo, now).pages)
  }

  /** The start of `generateNotePdf`: the text colour, the background and the logo on a fresh document. */
  method DrawOpening(doc: Document, note: Note, colored: bool, kit: Toolkit, logo: seq<byte>) returns (noteColor: Rgb)
    requires doc.width == kit.pageWidth && doc.height == kit.pageHeight
    requires doc.State() == Blank(kit.defaultFontSize)
    modifies doc
    ensures noteColor == PageColour(note.color, colored)
    ensures doc.State() == Opening(note, colored, kit, logo)
  {
    if colored {
      noteColor := HexToRgb(note.color);
      if IsDark(note.color) {
        doc.SetTextColour(White);
      } else {
        doc.SetTextColour(Black);
      }
    } else {
      noteColor := HexToRgb("#ffffff");
      doc.SetTextColour(Black);
    }
    ghost var inked := doc.State();
    assert inked == Blank(kit.defaultFontSize).SetTextColour(InkColour(note.color, colored));
    FillBackground(doc, doc.width, doc.height, noteColor);
    assert doc.State() == Background(inked, kit.pageWidth, kit.pageHeight, PageColour(note.color, colored));
    doc.AddImage(logo, Png, doc.width - LogoInset, LogoTop, LogoSize, LogoSize);
    assert doc.State() == Decorate(inked, kit.pageWidth, kit.pageHeight, PageColour(note.color, colored), logo);
  }

  /** The end of `generateNotePdf` when the image is drawn: a new page, its background, the image. */
  method DrawImagePage(doc: Document, image: Image, titleEnd: int, kit: Toolkit, noteColor: Rgb)
    requires doc.width == kit.pageWidth && doc.height == kit.pageHeight
    modifies doc
    ensures doc.State() == ImagePage(old(doc.State()), image, titleEnd, kit, noteColor)
  {
    doc.AddPage();
    FillBackground(doc, doc.width, doc.height, noteColor);
    doc.AddImage(image.buffer, if image.mimetype == "application/png" then Png else Jpeg, LeftIndent, titleEnd, 0, 0);
  }

  /**
   * `generateNotePdf`: builds the document step by step on a fresh jsPDF document and
   * returns its bytes. `logo` is the content of assets/logo.png and `now` the local time string.
   */
  method GenerateNotePdf(note: Note, withImage: bool, colored: bool, kit: Toolkit, logo: seq<byte>, now: string)
    returns (buf: array<byte>)
    ensures fresh(buf)
    ensures buf[..] == kit.output(NoteDocument(note, withImage, colored, kit, logo, now).pages)
  {
    var doc := new Document(kit.pageWidth, kit.pageHeight, kit.defaultFontSize);
    var defaultStyle := doc.style;
    var docWidth := doc.width;
    var docHeight := doc.height;
    var leftIndent := LeftIndent;

    var noteColor := DrawOpening(doc, note, colored, kit, logo);

    doc.SetFont(Bold);
    var titleEnd := WrapText(doc, kit.split, doc.style, doc.fontSize, note.title, TitleStart, docWidth, docHeight,
                             TitleWidth, TitleSpacing, leftIndent, noteColor);

    doc.SetFont(Italic);
    doc.SetFontSize(DateFontSize);
    doc.Text("Created on " + now, leftIndent, titleEnd);
    assert (doc.State(), titleEnd) == Heading(note, colored, kit, logo, now);

    doc.SetFont(defaultStyle);
    doc.SetFontSize(BodyMeasureSize);
    var _ := WrapText(doc, kit.split, defaultStyle, BodyFontSize, Some(note.text), BodyStart, docWidth, docHeight,
                      BodyWidth, BodySpacing, leftIndent, noteColor);
    assert doc.State() == Body(note, colored, kit, logo, now);

    if withImage && note.image.Some? {
      DrawImagePage(doc, note.image.value, titleEnd, kit, noteColor);
    }
    buf := ToBuffer(kit.output(doc.pages));
  }

  /** The lines of the title, as split in the bold default-size font at width 320. */
  function TitleLines(note: Note, kit: Toolkit): seq<string> {
    kit.split(note.title, Bold, kit.defaultFontSize, TitleWidth)
  }

  /** The lines of the body, as split in the normal font at size 14 (it is then drawn at size 12). */
  function BodyLines(note: Note, kit: Toolkit): seq<string> {
    kit.split(Some(note.text), Normal, BodyMeasureSize, BodyWidth)
  }

  /** `titleEnd`: the cursor after the title block. */
  function TitleEnd(note: Note, kit: Toolkit): int {
    CursorAfter(TitleLines(note, kit), TitleStart, TitleFrame(kit, Black)).y
  }

  lemma HeadingEnd(note: Note, colored: bool, kit: Toolkit, logo: seq<byte>, now: string)
    ensures Heading(note, colored, kit, logo, now).1 == TitleEnd(note, kit)
  {
    CursorIgnoresFrame(TitleLines(note, kit), TitleStart, TitleFrame(kit, PageColour(note.color, colored)), TitleFrame(kit, Black));
  }

  lemma FreshPagePainted(st: DocState, w: int, h: int, fill: Rgb, logo: seq<byte>)
    requires st.pages == [[]]
    ensures Decorate(st, w, h, fill, logo).textColour == st.textColour
    ensures Painted(Decorate(st, w, h, fill, logo).pages, fill, st.textColour)
  {
    DrawPainted(st.pages, FilledRect(0, 0, w, h, fill), fill, st.textColour);
    var filled := Background(st, w, h, fill);
    DrawPainted(filled.pages, Picture(logo, Png, w - LogoInset, LogoTop, LogoSize, LogoSize), fill, st.textColour);
  }

  lemma OpeningPainted(note: Note, colored: bool, kit: Toolkit, logo: seq<byte>)
    ensures var d := Opening(note, colored, kit, logo);
            d.textColour == InkColour(note.color, colored)
            && Painted(d.pages, PageColour(note.color, colored), InkColour(note.color, colored))
  {
    var ink := InkColour(note.color, colored);
    var d := Blank(kit.defaultFontSize).SetTextColour(ink);
    assert Opening(note, colored, kit, logo) == Decorate(d, kit.pageWidth, kit.pageHeight, PageColour(note.color, colored), logo);
    FreshPagePainted(d, kit.pageWidth, kit.pageHeight, PageColour(note.color, colored), logo);
  }

  lemma HeadingPainted(note: Note, colored: bool, kit: Toolkit, logo: seq<byte>, now: string)
    ensures var d := Heading(note, colored, kit, logo, now).0;
            d.textColour == InkColour(note.color, colored)
            && Painted(d.pages, PageColour(note.color, colored), InkColour(note.color, colored))
  {
    var fill := PageColour(note.color, colored);
    var ink := InkColour(note.color, colored);
    var d := Opening(note, colored, kit, logo).SetFont(Bold);
    var (titled, titleEnd) := WrapState(d, kit.split, d.style, d.fontSize, note.title, TitleStart, TitleWidth, TitleFrame(kit, fill));
    assert titled.textColour == ink && Painted(titled.pages, fill, ink) by {
      OpeningPainted(note, colored, kit, logo);
      WrapColours(d, kit.split, d.style, d.fontSize, note.title, TitleStart, TitleWidth, TitleFrame(kit, fill));
    }
    var dated := titled.SetFont(Italic).SetFontSize(DateFontSize);
    DrawPainted(dated.pages, Text("Created on " + now, LeftIndent, titleEnd, Italic, DateFontSize, ink), fill, ink);
  }

  lemma BodyPainted(note: Note, colored: bool, kit: Toolkit, logo: seq<byte>, now: string)
    ensures var d := Body(note, colored, kit, logo, now);
            d.textColour == InkColour(note.color, colored)
            && Painted(d.pages, PageColour(note.color, colored), InkColour(note.color, colored))
  {
    var fill := PageColour(note.color, colored);
    var d := Heading(note, colored, kit, logo, now).0.SetFont(Normal).SetFontSize(BodyMeasureSize);
    HeadingPainted(note, colored, kit, logo, now);
    WrapColours(d, kit.split, Normal, BodyFontSize, Some(note.text), BodyStart, BodyWidth, BodyFrame(kit, fill));
  }

  lemma ImagePagePainted(st: DocState, image: Image, titleEnd: int, kit: Toolkit, fill: Rgb, ink: Rgb)
    requires Painted(st.pages, fill, ink)
    ensures Painted(ImagePage(st, image, titleEnd, kit, fill).pages, fill, ink)
  {
    AddPagePainted(st.pages, fill, ink);
    var added := st.AddPage();
    DrawPainted(added.pages, FilledRect(0, 0, kit.pageWidth, kit.pageHeight, fill), fill, ink);
    var filled := Background(added, kit.pageWidth, kit.pageHeight, fill);
    DrawPainted(filled.pages, Picture(image.buffer, FormatOf(image.mimetype), LeftIndent, titleEnd, 0, 0), fill, ink);
  }

  /** Every page of the document is in the page colour and the text colour. */
  lemma DocumentPainted(note: Note, withImage: bool, colored: bool, kit: Toolkit, logo: seq<byte>, now: string)
    ensures Painted(NoteDocument(note, withImage, colored, kit, logo, now).pages,
                    PageColour(note.color, colored), InkColour(note.color, colored))
  {
    var fill := PageColour(note.color, colored);
    var ink := InkColour(note.color, colored);
    var body := Body(note, colored, kit, logo, now);
    assert Painted(body.pages, fill, ink) by {
      BodyPainted(note, colored, kit, logo, now);
    }
    if withImage && note.image.Some? {
      var titleEnd := Heading(note, colored, kit, logo, now).1;
      assert NoteDocument(note, withImage, colored, kit, logo, now) == ImagePage(body, note.image.value, titleEnd, kit, fill);
      ImagePagePainted(body, note.image.value, titleEnd, kit, fill, ink);
    } else {
      assert NoteDocument(note, withImage, colored, kit, logo, now) == body;
    }
  }

  /** The page and text colours: the note's colour and the dark rule when `colored`, else white and black. */
  lemma Palette(color: string, colored: bool)
    ensures colored ==> PageColour(color, colored) == HexToRgb(color)
    ensures colored ==> (InkColour(color, colored) == White <==> IsDark(color))
    ensures colored && !IsDark(color) ==> InkColour(color, colored) == Black
    ensures !colored ==> PageColour(color, colored) == White && InkColour(color, colored) == Black
  {
    TestColours();
  }

  /**
   * The contrast rule, on every page: every filled rectangle has the page colour and every text
   * has the text colour; with `colored` these are `hexToRgb(color)` and white exactly when the
   * dark expression matches (black otherwise); without it, white and black whatever the colour.
   */
  lemma ContrastRule(note: Note, withImage: bool, colored: bool, kit: Toolkit, logo: seq<byte>, now: string)
    ensures Painted(NoteDocument(note, withImage, colored, kit, logo, now).pages,
                    PageColour(note.color, colored), InkColour(note.color, colored))
    ensures colored ==> PageColour(note.color, colored) == HexToRgb(note.color)
    ensures colored ==> (InkColour(note.color, colored) == White <==> IsDark(note.color))
    ensures colored && !IsDark(note.color) ==> InkColour(note.color, colored) == Black
    ensures !colored ==> PageColour(note.color, colored) == White && InkColour(note.color, colored) == Black
  {
    DocumentPainted(note, withImage, colored, kit, logo, now);
    Palette(note.color, colored);
  }

  /** A short `#rgb` colour is never dark, so a coloured "#000" note gets black text on a black page. */
  lemma ShortBlackKeepsBlackText()
    ensures PageColour("#000", true) == Black && InkColour("#000", true) == Black
  {
  }

  /** The text colour with darkness judged on the decoded colour, as the dark rule intends. */
  function IntendedInkColour(color: string, colored: bool): Rgb {
    if colored && IsDarkColour(color) then White else Black
  }

  /** The intended rule and the code's rule agree on `#rrggbb` colours and whenever not coloured. */
  lemma IntendedInkAgrees(color: string, colored: bool)
    requires !colored || (IsHexColour(color) && |color| == 7)
    ensures IntendedInkColour(color, colored) == InkColour(color, colored)
  {
    if colored {
      DarkColourAgrees(color);
    }
  }

  /** Under the intended rule a `#rgb` note gets the text colour the code gives its `#rrggbb` form. */
  lemma IntendedShortForm(color: string)
    requires IsHexColour(color) && |color| == 4
    ensures IntendedInkColour(color, true) == InkColour([color[0], color[1], color[1], color[2], color[2], color[3], color[3]], true)
  {
    ShortFormDark(color);
  }

  /** Under the intended rule a coloured `#000` note gets white text on its black page. */
  lemma IntendedShortBlack(color: string)
    requires color == "#000"
    ensures PageColour(color, true) == Black && IntendedInkColour(color, true) == White
  {
    ShortBlackIsDark(color);
  }

  /** Without `colored` the note's colour has no influence on the document. */
  lemma UncolouredIgnoresColour(note: Note, color: string, withImage: bool, kit: Toolkit, logo: seq<byte>, now: string)
    ensures NoteDocument(note, withImage, false, kit, logo, now)
         == NoteDocument(note.(color := color), withImage, false, kit, logo, now)
  {
  }

  /** A white note looks the same with or without `colored`: white pages and black text either way. */
  lemma WhiteColouredMatchesUncoloured(note: Note, withImage: bool, kit: Toolkit, logo: seq<byte>, now: string)
    requires note.color == "#ffffff"
    ensures NoteDocument(note, withImage, true, kit, logo, now) == NoteDocument(note, withImage, false, kit, logo, now)
  {
    assert PageColour(note.color, true) == PageColour(note.color, false);
    assert InkColour(note.color, true) == InkColour(note.color, false);
  }

  /** The image page keeps the pages before it and adds one holding the background and then the image. */
  lemma ImagePageShape(st: DocState, image: Image, titleEnd: int, kit: Toolkit, fill: Rgb)
    ensures ImagePage(st, image, titleEnd, kit, fill).pages
         == st.pages + [[FilledRect(0, 0, kit.pageWidth, kit.pageHeight, fill),
                         Picture(image.buffer, FormatOf(image.mimetype), LeftIndent, titleEnd, 0, 0)]]
  {
    var rect := FilledRect(0, 0, kit.pageWidth, kit.pageHeight, fill);
    var picture := Picture(image.buffer, FormatOf(image.mimetype), LeftIndent, titleEnd, 0, 0);
    var filled := Background(st.AddPage(), kit.pageWidth, kit.pageHeight, fill);
    assert filled.pages == st.pages + [[rect]] by {
      var empty: Page := [];
      DrawOnLast(st.pages, empty, rect);
      assert empty + [rect] == [rect];
    }
    assert Draw(filled.pages, picture) == st.pages + [[rect, picture]] by {
      DrawOnLast(st.pages, [rect], picture);
      assert [rect] + [picture] == [rect, picture];
    }
  }

  /**
   * The image page: present exactly when `withImage` is set and the note has an image; it is one
   * extra page after the rest, holding the background and the image, drawn at the left indent and
   * `titleEnd`, as PNG exactly when the mimetype is "application/png", else as JPEG.
   */
  lemma ImagePageRule(note: Note, withImage: bool, colored: bool, kit: Toolkit, logo: seq<byte>, now: string)
    ensures var with := NoteDocument(note, withImage, colored, kit, logo, now).pages;
            var without := NoteDocument(note, false, colored, kit, logo, now).pages;
            if withImage && note.image.Some? then
              with == without + [[FilledRect(0, 0, kit.pageWidth, kit.pageHeight, PageColour(note.color, colored)),
                                  Picture(note.image.value.buffer, FormatOf(note.image.value.mimetype),
                                          LeftIndent, TitleEnd(note, kit), 0, 0)]]
              && |with| == |without| + 1
            else with == without
  {
    if withImage && note.image.Some? {
      HeadingEnd(note, colored, kit, logo, now);
      ImagePageShape(Body(note, colored, kit, logo, now), note.image.value, Heading(note, colored, kit, logo, now).1,
                     kit, PageColour(note.color, colored));
    }
  }

  /**
   * The number of pages: one, plus one per break in the title and one per break in the body,
   * plus the image page; the title and the body count their breaks separately.
   */
  lemma PageCount(note: Note, withImage: bool, colored: bool, kit: Toolkit, logo: seq<byte>, now: string)
    ensures |NoteDocument(note, withImage, colored, kit, logo, now).pages|
         == CursorAfter(TitleLines(note, kit), TitleStart, TitleFrame(kit, Black)).page
            + CursorAfter(BodyLines(note, kit), BodyStart, BodyFrame(kit, Black)).page - 1
            + (if withImage && note.image.Some? then 1 else 0)
  {
    var fill := PageColour(note.color, colored);
    var d3 := Opening(note, colored, kit, logo).SetFont(Bold);
    WrapPageCount(d3, kit.split, d3.style, d3.fontSize, note.title, TitleStart, TitleWidth, TitleFrame(kit, fill));
    CursorIgnoresFrame(TitleLines(note, kit), TitleStart, TitleFrame(kit, fill), TitleFrame(kit, Black));
    var d4 := Heading(note, colored, kit, logo, now).0.SetFont(Normal).SetFontSize(BodyMeasureSize);
    WrapPageCount(d4, kit.split, Normal, BodyFontSize, Some(note.text), BodyStart, BodyWidth, BodyFrame(kit, fill));
    CursorIgnoresFrame(BodyLines(note, kit), BodyStart, BodyFrame(kit, fill), BodyFrame(kit, Black));
  }

  lemma HeadingExtends(note: Note, colored: bool, kit: Toolkit, logo: seq<byte>, now: string)
    ensures var (heading, titleEnd) := Heading(note, colored, kit, logo, now);
            var last := heading.pages[|heading.pages| - 1];
            Extends(Opening(note, colored, kit, logo).pages, heading.pages)
            && last != []
            && last[|last| - 1] == Text("Created on " + now, LeftIndent, titleEnd, Italic, DateFontSize, heading.textColour)
  {
    var fill := PageColour(note.color, colored);
    var opening := Opening(note, colored, kit, logo);
    var d3 := opening.SetFont(Bold);
    var (titled, titleEnd) := WrapState(d3, kit.split, d3.style, d3.fontSize, note.title, TitleStart, TitleWidth, TitleFrame(kit, fill));
    WrapExtends(d3, kit.split, d3.style, d3.fontSize, note.title, TitleStart, TitleWidth, TitleFrame(kit, fill));
    DrawExtends(titled.pages, Text("Created on " + now, LeftIndent, titleEnd, Italic, DateFontSize, titled.textColour));
    ExtendsTrans(opening.pages, titled.pages, Heading(note, colored, kit, logo, now).0.pages);
  }

  lemma ImagePageExtends(st: DocState, image: Image, titleEnd: int, kit: Toolkit, fill: Rgb)
    ensures Extends(st.pages, ImagePage(st, image, titleEnd, kit, fill).pages)
  {
    AddPageExtends(st.pages);
    var added := st.AddPage();
    BackgroundExtends(added, kit.pageWidth, kit.pageHeight, fill);
    var filled := Background(added, kit.pageWidth, kit.pageHeight, fill);
    ExtendsTrans(st.pages, added.pages, filled.pages);
    DrawExtends(filled.pages, Picture(image.buffer, FormatOf(image.mimetype), LeftIndent, titleEnd, 0, 0));
    ExtendsTrans(st.pages, filled.pages, ImagePage(st, image, titleEnd, kit, fill).pages);
  }

  /** Every later stage keeps what the heading drew. */
  lemma DocumentExtendsHeading(note: Note, withImage: bool, colored: bool, kit: Toolkit, logo: seq<byte>, now: string)
    ensures Extends(Heading(note, colored, kit, logo, now).0.pages, Body(note, colored, kit, logo, now).pages)
    ensures Extends(Body(note, colored, kit, logo, now).pages, NoteDocument(note, withImage, colored, kit, logo, now).pages)
    ensures Extends(Heading(note, colored, kit, logo, now).0.pages, NoteDocument(note, withImage, colored, kit, logo, now).pages)
  {
    var fill := PageColour(note.color, colored);
    var heading := Heading(note, colored, kit, logo, now);
    var body := Body(note, colored, kit, logo, now);
    assert Extends(heading.0.pages, body.pages) by {
      var d4 := heading.0.SetFont(Normal).SetFontSize(BodyMeasureSize);
      WrapExtends(d4, kit.split, Normal, BodyFontSize, Some(note.text), BodyStart, BodyWidth, BodyFrame(kit, fill));
    }
    var final := NoteDocument(note, withImage, colored, kit, logo, now);
    assert Extends(body.pages, final.pages) by {
      if withImage && note.image.Some? {
        ImagePageExtends(body, note.image.value, heading.1, kit, fill);
      } else {
        ExtendsTrans(body.pages, body.pages, body.pages);
      }
    }
    ExtendsTrans(heading.0.pages, body.pages, final.pages);
  }

  /** On a document with one empty page, the background and the logo are the whole first page. */
  lemma FreshPageShape(st: DocState, w: int, h: int, fill: Rgb, logo: seq<byte>)
    requires st.pages == [[]]
    ensures Decorate(st, w, h, fill, logo).pages
         == [[FilledRect(0, 0, w, h, fill), Picture(logo, Png, w - LogoInset, LogoTop, LogoSize, LogoSize)]]
  {
    var rect := FilledRect(0, 0, w, h, fill);
    var logoPicture := Picture(logo, Png, w - LogoInset, LogoTop, LogoSize, LogoSize);
    var none: seq<Page> := [];
    var empty: Page := [];
    assert Draw([[]], rect) == [[rect]] by {
      DrawOnLast(none, empty, rect);
      assert none + [empty] == [[]] && empty + [rect] == [rect];
    }
    assert Draw([[rect]], logoPicture) == [[rect, logoPicture]] by {
      DrawOnLast(none, [rect], logoPicture);
      assert none + [[rect]] == [[rect]] && [rect] + [logoPicture] == [rect, logoPicture];
    }
  }

  lemma OpeningPages(note: Note, colored: bool, kit: Toolkit, logo: seq<byte>)
    ensures Opening(note, colored, kit, logo).pages
         == [[FilledRect(0, 0, kit.pageWidth, kit.pageHeight, PageColour(note.color, colored)),
              Picture(logo, Png, kit.pageWidth - LogoInset, LogoTop, LogoSize, LogoSize)]]
  {
    var d := Blank(kit.defaultFontSize).SetTextColour(InkColour(note.color, colored));
    FreshPageShape(d, kit.pageWidth, kit.pageHeight, PageColour(note.color, colored), logo);
  }

  /** Nothing drawn after the opening removes or changes it. */
  lemma OpeningKept(note: Note, withImage: bool, colored: bool, kit: Toolkit, logo: seq<byte>, now: string)
    ensures Extends(Opening(note, colored, kit, logo).pages, NoteDocument(note, withImage, colored, kit, logo, now).pages)
  {
    var heading := Heading(note, colored, kit, logo, now).0.pages;
    assert Extends(Opening(note, colored, kit, logo).pages, heading) by {
      HeadingExtends(note, colored, kit, logo, now);
    }
    assert Extends(heading, NoteDocument(note, withImage, colored, kit, logo, now).pages) by {
      DocumentExtendsHeading(note, withImage, colored, kit, logo, now);
    }
    ExtendsTrans(Opening(note, colored, kit, logo).pages, heading, NoteDocument(note, withImage, colored, kit, logo, now).pages);
  }

  /** The first page starts with the background and then the logo in the top right corner. */
  lemma FirstPageOpening(note: Note, withImage: bool, colored: bool, kit: Toolkit, logo: seq<byte>, now: string)
    ensures var pages := NoteDocument(note, withImage, colored, kit, logo, now).pages;
            |pages[0]| >= 2
            && pages[0][0] == FilledRect(0, 0, kit.pageWidth, kit.pageHeight, PageColour(note.color, colored))
            && pages[0][1] == Picture(logo, Png, kit.pageWidth - LogoInset, LogoTop, LogoSize, LogoSize)
  {
    var opening := Opening(note, colored, kit, logo).pages;
    var final := NoteDocument(note, withImage, colored, kit, logo, now).pages;
    assert Extends(opening, final) by {
      OpeningKept(note, withImage, colored, kit, logo, now);
    }
    assert opening[0] <= final[0];
    assert opening[0] == [FilledRect(0, 0, kit.pageWidth, kit.pageHeight, PageColour(note.color, colored)),
                          Picture(logo, Png, kit.pageWidth - LogoInset, LogoTop, LogoSize, LogoSize)] by {
      OpeningPages(note, colored, kit, logo);
    }
  }

  /**
   * The "Created on" line is drawn at `titleEnd` right after the title, in italic at size 8 and in
   * the text colour, and nothing drawn later removes it.
   */
  lemma DateAfterTitle(note: Note, withImage: bool, colored: bool, kit: Toolkit, logo: seq<byte>, now: string)
    ensures var heading := Heading(note, colored, kit, logo, now).0;
            var last := heading.pages[|heading.pages| - 1];
            last != [] && last[|last| - 1] == Text("Created on " + now, LeftIndent, TitleEnd(note, kit), Italic, DateFontSize,
                                                   InkColour(note.color, colored))
            && Extends(heading.pages, NoteDocument(note, withImage, colored, kit, logo, now).pages)
  {
    HeadingEnd(note, colored, kit, logo, now);
    HeadingExtends(note, colored, kit, logo, now);
    HeadingPainted(note, colored, kit, logo, now);
    DocumentExtendsHeading(note, withImage, colored, kit, logo, now);
  }

  /** On the page the heading ended on, the body's first line comes right after what the heading drew. */
  lemma BodyAfterHeading(heading: DocState, kit: Toolkit, text: string, fill: Rgb)
    requires kit.split(Some(text), Normal, BodyMeasureSize, BodyWidth) != []
    requires BodyStart <= kit.pageHeight - BodySpacing
    ensures var body := WrapState(heading.SetFont(Normal).SetFontSize(BodyMeasureSize), kit.split, Normal, BodyFontSize,
                                  Some(text), BodyStart, BodyWidth, BodyFrame(kit, fill)).0;
            var k := |heading.pages| - 1;
            k < |body.pages| && |heading.pages[k]| < |body.pages[k]|
            && body.pages[k][|heading.pages[k]|]
               == Text(kit.split(Some(text), Normal, BodyMeasureSize, BodyWidth)[0], LeftIndent, BodyStart, Normal, BodyFontSize,
                       heading.textColour)
  {
    FirstLineAtStart(heading.SetFont(Normal).SetFontSize(BodyMeasureSize), kit.split, Normal, BodyFontSize, Some(text),
                     BodyStart, BodyWidth, BodyFrame(kit, fill));
  }

  /**
   * The body starts at y = 60 on the page where the heading ended, right after the "Created on"
   * line, in the normal font at size 12, when 60 is above the page's last line position.
   */
  lemma BodyStartsAt60(note: Note, withImage: bool, colored: bool, kit: Toolkit, logo: seq<byte>, now: string)
    requires BodyLines(note, kit) != []
    requires BodyStart <= kit.pageHeight - BodySpacing
    ensures var heading := Heading(note, colored, kit, logo, now).0;
            var pages := NoteDocument(note, withImage, colored, kit, logo, now).pages;
            var k := |heading.pages| - 1;
            k < |pages| && |heading.pages[k]| < |pages[k]|
            && pages[k][|heading.pages[k]|]
               == Text(BodyLines(note, kit)[0], LeftIndent, BodyStart, Normal, BodyFontSize, InkColour(note.color, colored))
  {
    var fill := PageColour(note.color, colored);
    var heading := Heading(note, colored, kit, logo, now).0;
    var k := |heading.pages| - 1;
    var body := Body(note, colored, kit, logo, now);
    var op := Text(BodyLines(note, kit)[0], LeftIndent, BodyStart, Normal, BodyFontSize, heading.textColour);
    assert k < |body.pages| && |heading.pages[k]| < |body.pages[k]| && body.pages[k][|heading.pages[k]|] == op by {
      assert body == WrapState(heading.SetFont(Normal).SetFontSize(BodyMeasureSize), kit.split, Normal, BodyFontSize,
                               Some(note.text), BodyStart, BodyWidth, BodyFrame(kit, fill)).0;
      BodyAfterHeading(heading, kit, note.text, fill);
    }
    assert heading.textColour == InkColour(note.color, colored) by {
      HeadingPainted(note, colored, kit, logo, now);
    }
    var pages := NoteDocument(note, withImage, colored, kit, logo, now).pages;
    assert body.pages[k] <= pages[k] by {
      DocumentExtendsHeading(note, withImage, colored, kit, logo, now);
    }
  }
}
