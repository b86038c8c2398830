/**
 * The older exporter, `FileDownloader` (src/backup.ts): the same drawing helpers, a renderer
 * that always applies the note's colour and draws no image, and a backup of every note,
 * encrypted or not, named after its title alone.
 */
module Legacy {
  import opened Wrappers
  import opened Bytes
  import opened Colour
  import opened Pdf
  import opened Pagination
  import opened NoteRender
  import opened Archive

  /** Where the old renderer starts the body, where a note image would have ended. */
  const ImageEnd := 60

  /** The first page: background in the note's colour, then the text colour, then the logo. */
  function LegacyOpening(note: Note, kit: Toolkit, logo: seq<byte>): DocState {
    Background(Blank(kit.defaultFontSize), kit.pageWidth, kit.pageHeight, HexToRgb(note.color))
      .SetTextColour(if IsDark(note.color) then White else Black)
      .PutImage(logo, Png, kit.pageWidth - LogoInset, LogoTop, LogoSize, LogoSize)
  }

  /** The document after the title and the "Created on" line, and `titleEnd`. */
  function LegacyHeading(note: Note, kit: Toolkit, logo: seq<byte>, now: string): (DocState, int) {
    var d := LegacyOpening(note, kit, logo).SetFont(Bold);
    var (titled, titleEnd) := WrapState(d, kit.split, d.style, d.fontSize, note.title, TitleStart, TitleWidth,
                                        TitleFrame(kit, HexToRgb(note.color)));
    (titled.SetFont(Italic).SetFontSize(DateFontSize).PutText("Created on " + now, LeftIndent, titleEnd), titleEnd)
  }

  /** The whole document the old `generateNotePdf` builds. */
  function LegacyNoteDocument(note: Note, kit: Toolkit, logo: seq<byte>, now: string): DocState {
    var d := LegacyHeading(note, kit, logo, now).0.SetFont(Normal).SetFontSize(BodyMeasureSize);
    WrapState(d, kit.split, Normal, BodyFontSize, Some(note.text), ImageEnd, BodyWidth,
              BodyFrame(kit, HexToRgb(note.color))).0
  }

  function LegacyRenderer(kit: Toolkit, logo: seq<byte>, now: string): Note -> seq<byte> {
    note => kit.output(LegacyNoteDocument(note, kit, logo, now).pages)
  }

  /** The old `generateNotePdf`, step by step on a fresh jsPDF document. */
  method LegacyGenerateNotePdf(note: Note, kit: Toolkit, logo: seq<byte>, now: string) returns (buf: array<byte>)
    ensures fresh(buf)
    ensures buf[..] == kit.output(LegacyNoteDocument(note, kit, logo, now).pages)
  {
    var doc := new Document(kit.pageWidth, kit.pageHeight, kit.defaultFontSize);
    var defaultStyle := doc.style;
    var docWidth := doc.width;
    var docHeight := doc.height;
    var leftIndent := LeftIndent;

    var noteColor := HexToRgb(note.color);
    FillBackground(doc, docWidth, docHeight, noteColor);
    if IsDark(note.color) {
      doc.SetTextColour(White);
    } else {
      doc.SetTextColour(Black);
    }

    doc.AddImage(logo, Png, docWidth - LogoInset, LogoTop, LogoSize, LogoSize);
    assert doc.State() == LegacyOpening(note, kit, logo);

    doc.SetFont(Bold);
    var titleEnd := WrapText(doc, kit.split, doc.style, doc.fontSize, note.title, TitleStart, docWidth, docHeight,
                             TitleWidth, TitleSpacing, leftIndent, noteColor);

    doc.SetFont(Italic);
    doc.SetFontSize(DateFontSize);
    doc.Text("Created on " + now, leftIndent, titleEnd);
    assert (doc.State(), titleEnd) == LegacyHeading(note, kit, logo, now);

    var imageEnd := ImageEnd;
    doc.SetFont(defaultStyle);
    doc.SetFontSize(BodyMeasureSize);
    var _ := WrapText(doc, kit.split, defaultStyle, BodyFontSize, Some(note.text), imageEnd, docWidth, docHeight,
                      BodyWidth, BodySpacing, leftIndent, noteColor);
    buf := ToBuffer(kit.output(doc.pages));
  }

  lemma LegacyOpeningIsColoured(note: Note, kit: Toolkit, logo: seq<byte>)
    ensures LegacyOpening(note, kit, logo) == Opening(note, true, kit, logo)
  {
  }

  /**
   * The old renderer draws what the new one draws for a coloured note without its image: setting
   * the text colour after the background instead of before it changes nothing on the page.
   */
  lemma LegacyIsColouredWithoutImage(note: Note, kit: Toolkit, logo: seq<byte>, now: string)
    ensures LegacyNoteDocument(note, kit, logo, now) == NoteDocument(note, false, true, kit, logo, now)
  {
    assert LegacyHeading(note, kit, logo, now) == Heading(note, true, kit, logo, now) by {
      LegacyOpeningIsColoured(note, kit, logo);
    }
  }

  lemma LegacyRendererAgrees(kit: Toolkit, logo: seq<byte>, now: string)
    ensures forall note :: LegacyRenderer(kit, logo, now)(note) == Renderer(false, true, kit, logo, now)(note)
  {
    forall note {
      LegacyIsColouredWithoutImage(note, kit, logo, now);
    }
  }

  /**
   * The `zip.file` calls of the old `generateBackupZip`: every note, encrypted or not, under its
   * title in lower case with dashes for spaces. On a note without a title `toLocaleLowerCase`
   * throws; the error is caught and logged, and that note is not stored.
   */
  function LegacyFiles(notes: seq<Note>, render: Note -> seq<byte>): (r: seq<Entry>)
    ensures |r| <= |notes|
  {
    if notes == [] then []
    else
      var prev := LegacyFiles(notes[..|notes| - 1], render);
      var note := notes[|notes| - 1];
      if note.title.None? then prev else prev + [Entry(Slug(note.title.value) + ".pdf", render(note))]
  }

  lemma LegacyFilesStep(notes: seq<Note>, i: nat, render: Note -> seq<byte>)
    requires i < |notes|
    ensures LegacyFiles(notes[..i + 1], render)
         == if notes[i].title.None? then LegacyFiles(notes[..i], render)
            else LegacyFiles(notes[..i], render) + [Entry(Slug(notes[i].title.value) + ".pdf", render(notes[i]))]
  {
    assert notes[..i + 1][..i] == notes[..i];
  }

  /** The old `generateBackupZip`: renders every note and stores the ones with a title. */
  method LegacyBackupZip(notes: seq<Note>, kit: Toolkit, logo: seq<byte>, now: string) returns (entries: seq<Entry>)
    ensures entries == ArchiveOf(LegacyFiles(notes, LegacyRenderer(kit, logo, now)))
  {
    var zip := new Zip();
    ghost var render := LegacyRenderer(kit, logo, now);
    for i := 0 to |notes|
      invariant zip.entries == ArchiveOf(LegacyFiles(notes[..i], render))
    {
      var note := notes[i];
      var doc := LegacyGenerateNotePdf(note, kit, logo, now);
      LegacyFilesStep(notes, i, render);
      if note.title.Some? {
        var file := Entry(Slug(note.title.value) + ".pdf", doc[..]);
        zip.File(file.name, file.data);
        ArchiveStep(LegacyFiles(notes[..i], render), file);
      }
    }
    assert notes[..|notes|] == notes;
    entries := zip.entries;
  }

  /** Every note with a title is stored, encrypted or not, under its title's slug. */
  lemma {:induction false} LegacyStoresEveryTitledNote(notes: seq<Note>, render: Note -> seq<byte>)
    requires forall i :: 0 <= i < |notes| ==> notes[i].title.Some?
    ensures |LegacyFiles(notes, render)| == |notes|
    ensures forall i :: 0 <= i < |notes| ==>
              LegacyFiles(notes, render)[i] == Entry(Slug(notes[i].title.value) + ".pdf", render(notes[i]))
  {
    if notes != [] {
      var prev := notes[..|notes| - 1];
      LegacyStoresEveryTitledNote(prev, render);
    }
  }

  /** Two notes with the same title are stored under the same name: the later one replaces the earlier. */
  lemma LegacySameTitleOverwrites(a: Note, b: Note, render: Note -> seq<byte>)
    requires a.title.Some? && a.title == b.title
    ensures ArchiveOf(LegacyFiles([a, b], render)) == [Entry(Slug(a.title.value) + ".pdf", render(b))]
  {
    assert [a, b][..1] == [a];
    assert [a][..0] == [];
    var name := Slug(a.title.value) + ".pdf";
    assert LegacyFiles([a, b], render) == [Entry(name, render(a)), Entry(name, render(b))];
    SameNameTwice(Entry(name, render(a)), Entry(name, render(b)));
  }

  /** Each title occurs at most once among `notes`. */
  predicate DistinctTitles(notes: seq<Note>) {
    forall i, j :: 0 <= i < j < |notes| ==> notes[i].title != notes[j].title
  }

  lemma {:induction false} CountAbsent(notes: seq<Note>, title: Option<string>)
    requires forall i :: 0 <= i < |notes| ==> notes[i].title != title
    ensures Count(notes, title) == 0
  {
    if notes != [] {
      CountAbsent(notes[..|notes| - 1], title);
    }
  }

  lemma {:induction false} IncludedAll(notes: seq<Note>)
    requires forall i :: 0 <= i < |notes| ==> !notes[i].encrypted
    ensures Included(notes) == notes
  {
    if notes != [] {
      IncludedAll(notes[..|notes| - 1]);
    }
  }

  /**
   * With distinct, non-empty titles and no encrypted note, the old backup stores the same calls
   * as the new one: every suffix is empty and the slug is the name.
   */
  lemma {:induction false} LegacyFilesAgree(notes: seq<Note>, render: Note -> seq<byte>)
    requires forall i :: 0 <= i < |notes| ==> notes[i].title.Some? && notes[i].title.value != ""
    requires DistinctTitles(notes)
    ensures LegacyFiles(notes, render) == Files(notes, render)
  {
    if notes != [] {
      var prev := notes[..|notes| - 1];
      var note := notes[|notes| - 1];
      LegacyFilesAgree(prev, render);
      CountAbsent(prev, note.title);
      assert PdfName(note.title, 0) == Slug(note.title.value) + ".pdf";
    }
  }

  lemma {:induction false} FilesSameRender(notes: seq<Note>, r1: Note -> seq<byte>, r2: Note -> seq<byte>)
    requires forall i :: 0 <= i < |notes| ==> r1(notes[i]) == r2(notes[i])
    ensures Files(notes, r1) == Files(notes, r2)
  {
    if notes != [] {
      FilesSameRender(notes[..|notes| - 1], r1, r2);
    }
  }

  /** Two renderers that agree on every note make the two backups store the same calls. */
  lemma LegacyFilesMatch(notes: seq<Note>, legacy: Note -> seq<byte>, current: Note -> seq<byte>)
    requires forall i :: 0 <= i < |notes| ==> !notes[i].encrypted
    requires forall i :: 0 <= i < |notes| ==> notes[i].title.Some? && notes[i].title.value != ""
    requires DistinctTitles(notes)
    requires forall note :: legacy(note) == current(note)
    ensures LegacyFiles(notes, legacy) == Files(Included(notes), current)
  {
    IncludedAll(notes);
    LegacyFilesAgree(notes, legacy);
    FilesSameRender(notes, legacy, current);
  }

  /**
   * The old backup equals the new one without images and with colours, for notes that are not
   * encrypted and have distinct, non-empty titles.
   */
  lemma LegacyMatchesNew(notes: seq<Note>, kit: Toolkit, logo: seq<byte>, now: string)
    requires forall i :: 0 <= i < |notes| ==> !notes[i].encrypted
    requires forall i :: 0 <= i < |notes| ==> notes[i].title.Some? && notes[i].title.value != ""
    requires DistinctTitles(notes)
    ensures LegacyFiles(notes, LegacyRenderer(kit, logo, now)) == Files(Included(notes), Renderer(false, true, kit, logo, now))
    ensures ArchiveOf(LegacyFiles(notes, LegacyRenderer(kit, logo, now)))
         == ArchiveOf(Files(Included(notes), Renderer(false, true, kit, logo, now)))
  {
    LegacyRendererAgrees(kit, logo, now);
    LegacyFilesMatch(notes, LegacyRenderer(kit, logo, now), Renderer(false, true, kit, logo, now));
  }
}
