# Memota note export, modelled in Dafny

Memota's API can export a user's notes in two ways. It can render one note as a
PDF document (`FileGenerator.generateNotePdf`). It can also build a zip archive
that holds one PDF per note (`FileGenerator.generateBackupZip`). Both live in
`src/utils/pdf.ts`. The older `FileDownloader` in `src/backup.ts` has a renderer
and a backup builder of its own. This project models both versions and proves
what they draw and what they store.

Modules, in dependency order:

- `Wrappers`: `Option`.
- `Bytes`: bytes and `toBuffer`, the byte-by-byte copy into a fresh buffer, as a method over an array.
- `Decimal`: `Number#toString` on naturals. It prints page numbers and name counters. Printing is proved injective.
- `Colour`: `hexToRgb` and the `darkColorMatcher` regular expression.
  - JavaScript's `parseInt("0x" + a + b)` is modelled exactly: `NaN` when `a` is not a hex digit, and the value of `a` alone when only `b` is not.
- `Pdf`: the part of jsPDF the code drives.
  - A document is a list of pages. Each page is the log of what was drawn on it, in order: filled rectangles, texts and pictures. Each text carries its font and colour.
  - `DocState` is that state as a value. The class `Document` holds it as fields, and each of its methods is specified as an update of `State()`.
- `Pagination`: `fillBackground` and `wrapText`.
  - One call is described as a list of steps: a line drawn at a cursor position, or a page break. `Paint` says what the steps draw.
  - `WrapText` runs the source's loop on a `Document` and is proved to draw exactly `Paint` of the steps.
  - The lemmas say every line is drawn once and in order, and page breaks are numbered 2, 3, … with "1" stamped only on the first.
  - They also say when a call stays on one page, that new pages get the background colour, and that nothing drawn earlier is changed.
- `NoteRender`: `generateNotePdf`.
  - `NoteDocument` is the whole document as a function of the note, the two flags, the toolkit (page size, text splitter, serialisation) and the logo and time string.
  - The method `GenerateNotePdf` builds the same document step by step.
  - The lemmas cover:
    - the contrast rule on every page;
    - the image page;
    - the page count;
    - the order of the first page (background, logo, title, date, body at y = 60).
- `Archive`: `generateBackupZip`.
  - JSZip's `file(name, data)` keeps one file per name, in first-insertion order, and replaces the data when the name is already there. It is modelled by `Put`, and both `ArchiveOf` and the class `Zip` use it.
  - `Files` lists the `file` calls the method makes: every note that is not encrypted, renamed with the counter kept per title.
  - `GenerateBackupZip` runs the loop and is proved to produce `ArchiveOf(Files(...))`.
- `Legacy`: the `src/backup.ts` versions.
  - The old renderer is proved equal to the new one with `colored` set and no image.
  - The old backup stores every note, encrypted or not, under its slug alone. A note without a title is skipped, because `toLocaleLowerCase` throws and the error is caught.

`hexToRgb`, `toBuffer`, `fillBackground` and `wrapText` in `src/backup.ts` (lines
7-32 and 93-142) are copies of the ones in `src/utils/pdf.ts`. The same members
model them. Only one thing differs: the old `wrapText` stamps "1" before resetting
`y`, which changes nothing.

Two behaviours of the code differ from what its own names and structure suggest. The
main model follows the code as written; the section "Findings" pairs each with a corrected
definition and what is proved about it.

- The `darkColorMatcher` of `src/utils/pdf.ts:8` is meant to recognise dark note colours,
  but it misses the short form. The expression `^#([0-7][0-9a-fA-F]){3}` needs a `#` and
  six more characters, so a coloured `#000` note gets black text on a black page
  (`NoteRender.ShortBlackKeepsBlackText`, `Colour.ShortColourNeverDark`). The comment at
  `tests/utils/pdf.test.ts:79` points the same way.
- The counter of `src/utils/pdf.ts:175-181` exists to tell equal names apart, but it is keyed
  by the raw title, not by the name made from it. An undefined title and an empty title both
  become `untitled.pdf` without a suffix, and JSZip keeps only the second
  (`Archive.UntitledCollision`). Titles that differ only in case, or in spaces versus dashes,
  collide the same way.

## Model

| member | source | states |
|---|---|---|
| Bytes.ToBuffer | src/utils/pdf.ts:26-33 | the returned buffer is fresh, as long as the input, and holds the input's bytes in order |
| Decimal.NatToString | src/utils/pdf.ts:152-156 | a page number prints as a non-empty string of decimal digits without a leading zero |
| Decimal.ParsePrinted | src/utils/pdf.ts:177 | reading the printed digits back gives the number: printing has a left inverse |
| Decimal.PrintedInjective | src/utils/pdf.ts:177 | different counters print differently |
| Colour.ParseHexPair | src/utils/pdf.ts:14-20 | `parseInt("0x"+hi+lo)` is a number exactly when `hi` is a hex digit; it is 16·hi+lo for two digits, hi alone when `lo` is not a digit, and below 256 |
| Colour.HexToRgb | src/utils/pdf.ts:11-23 | a string of a length other than 4 or 7 decodes to black (0, 0, 0) |
| Colour.WellFormedChannels | src/utils/pdf.ts:11-23 | on a well-formed `#rgb` or `#rrggbb` colour every channel is a number in [0, 255] |
| Colour.ShortFormDoubles | src/utils/pdf.ts:13-16 | `#rgb` decodes like `#rrggbb` with each digit doubled |
| Colour.DecodeEncoded | src/utils/pdf.ts:17-22 | decoding `#rrggbb` written from three channel values gives those values back |
| Colour.TestColours | tests/utils/pdf.test.ts:43-57 | `#ffffff` is (255,255,255), `#000` is (0,0,0), `#45bd33` is (69,189,51) |
| Colour.ShortColourNeverDark | src/utils/pdf.ts:8 | a string shorter than 7 characters never matches the dark expression |
| Colour.DarkIgnoresTail | src/utils/pdf.ts:8 | the expression has no end anchor: anything appended to a match still matches |
| Colour.LowDigitBelow128 | src/utils/pdf.ts:8 | a digit pair decodes below 128 exactly when its first digit is 0-7 |
| Colour.DarkIffChannelsLow | src/utils/pdf.ts:8 | on `#rrggbb` the expression matches exactly when all three decoded channels are below 128 |
| Colour.DarkColourAgrees | src/utils/pdf.ts:8-23 | on `#rrggbb` the dark test on decoded channels agrees with the expression |
| Colour.ShortFormDark | src/utils/pdf.ts:8-23 | on `#rgb` the dark test on decoded channels gives the expression's answer for the doubled `#rrggbb` |
| Colour.ShortBlackIsDark | src/utils/pdf.ts:8-23 | `#000` is dark on decoded channels, though the expression does not match it |
| Pdf.Draw | src/utils/pdf.ts:158 | drawing appends the operation to the last page and leaves every other page and the page count unchanged |
| Pdf.DrawPainted | src/utils/pdf.ts:120-122 | drawing an operation in the page and text colours keeps every page in those colours |
| Pdf.AddPagePainted | src/utils/pdf.ts:153 | adding an empty page keeps every page in the page and text colours |
| Pdf.DrawExtends | src/utils/pdf.ts:158 | drawing keeps every page as a prefix of its new content |
| Pdf.AddPageExtends | src/utils/pdf.ts:153 | adding a page keeps every existing page |
| Pdf.ExtendsTrans | src/utils/pdf.ts:148-160 | keeping earlier content is transitive over successive drawing calls |
| Pdf.Document.constructor | src/utils/pdf.ts:37 | a new document has a single empty page, black text and fill and the default font |
| Pdf.Document.Text | src/utils/pdf.ts:158 | `text` appends a text in the current font, size and colour to the last page |
| Pdf.Document.Rect | src/utils/pdf.ts:122 | `rect(…, "F")` appends a rectangle in the current fill colour |
| Pdf.Document.SetTextColour | src/utils/pdf.ts:46-51 | `setTextColor` changes the colour of later texts and nothing else |
| Pdf.Document.SetFillColour | src/utils/pdf.ts:120 | `setFillColor` changes the colour of later rectangles and nothing else |
| Pdf.Document.SetFont | src/utils/pdf.ts:144 | `setFont` changes the style of later texts and nothing else |
| Pdf.Document.SetFontSize | src/utils/pdf.ts:145 | `setFontSize` changes the size of later texts and nothing else |
| Pdf.Document.AddImage | src/utils/pdf.ts:57 | `addImage` appends a picture with the given data, format and box to the last page |
| Pdf.Document.AddPage | src/utils/pdf.ts:153 | `addPage` appends an empty page, which becomes current |
| Pagination.FillBackground | src/utils/pdf.ts:110-123 | sets the fill colour, then fills the whole page with it |
| Pagination.BreakPage | src/utils/pdf.ts:150-157 | stamps "1" only when the counter is 1, adds a page, repaints it, stamps the new number and returns counter + 1 |
| Pagination.DrawLine | src/utils/pdf.ts:149-159 | one loop iteration: a break exactly when `y > docHeight - lineSpacing`, then the line at the left indent; the cursor advances as `Advance` says |
| Pagination.WrapText | src/utils/pdf.ts:125-162 | the document after the call is `Paint` of the steps for the split lines, in the given font, and the result is the final cursor |
| Pagination.LoopStep | src/utils/pdf.ts:148-160 | one more line extends the painted steps by that line's steps |
| Pagination.EveryLineOnce | src/utils/pdf.ts:148-160 | the lines drawn are exactly the split lines, each once, in order |
| Pagination.BreaksNumbered | src/utils/pdf.ts:147-157 | the k-th break (from 0) creates page k + 2, only the first stamps "1", and there are `pageNumber - 1` breaks |
| Pagination.NumberingAt | src/utils/pdf.ts:152-156 | the k-th numbered break is `Break(k == 0, k + 2)` |
| Pagination.PagesAdded | src/utils/pdf.ts:153 | each break adds exactly one page and nothing else adds one |
| Pagination.WrapPageCount | src/utils/pdf.ts:143-161 | a call adds `pageNumber - 1` pages |
| Pagination.NoOverflowIff | src/utils/pdf.ts:146-161 | with spacing ≥ 0 a call stays on its page iff there are no lines or `textStart + n·lineSpacing <= docHeight`; then it returns `textStart + n·lineSpacing` |
| Pagination.BreakThenTop | src/utils/pdf.ts:150-158 | every break is followed by a line at the top margin 20 |
| Pagination.LinesFitPage | src/utils/pdf.ts:150-158 | when the top margin fits, no line is drawn below `docHeight - lineSpacing` |
| Pagination.CursorBelowLastLine | src/utils/pdf.ts:158-161 | the last step draws the last line, and the result is one spacing below it |
| Pagination.FirstStep | src/utils/pdf.ts:146-158 | the first step is a break stamping "1" and making page 2 iff the start is already past the end of the page, else the first line at `textStart` |
| Pagination.CursorIgnoresFrame | src/utils/pdf.ts:146-161 | the cursor depends on the page height and the spacing only |
| Pagination.LabelPainted | src/utils/pdf.ts:152 | a page-number stamp is drawn in the current text colour |
| Pagination.NewPagePainted | src/utils/pdf.ts:153-154 | a new page is filled in the page colour |
| Pagination.BreakKeepsColours | src/utils/pdf.ts:150-157 | a break keeps the text colour and paints everything in the page and text colours |
| Pagination.PaintKeepsColours | src/utils/pdf.ts:148-160 | a call keeps the text colour, and every new page and text is in the page and text colours |
| Pagination.WrapColours | src/utils/pdf.ts:143-161 | the same for the whole call, after the font change |
| Pagination.BreakExtends | src/utils/pdf.ts:150-157 | a break keeps everything drawn before |
| Pagination.PaintExtends | src/utils/pdf.ts:148-160 | a call only adds to the document |
| Pagination.WrapExtends | src/utils/pdf.ts:143-161 | the whole call only adds to the document |
| Pagination.FirstLineAtStart | src/utils/pdf.ts:143-158 | when the start fits, the first line is drawn on the current page right after its content, at the left indent and `textStart`, in the call's font |
| NoteRender.FormatOf | src/utils/pdf.ts:96 | the image is embedded as PNG exactly when the mimetype is "application/png" |
| NoteRender.DrawOpening | src/utils/pdf.ts:43-57 | picks the page colour and text colour, fills the first page and draws the logo at (width - 48, 5), 40×40 |
| NoteRender.DrawImagePage | src/utils/pdf.ts:92-103 | adds a page, fills it and draws the image at the left indent and `titleEnd` |
| NoteRender.GenerateNotePdf | src/utils/pdf.ts:36-107 | returns a fresh buffer holding the serialisation of `NoteDocument` for the note and flags |
| NoteRender.HeadingEnd | src/utils/pdf.ts:61-73 | `titleEnd` is the cursor after the title lines, whatever the page colour |
| NoteRender.OpeningPainted | src/utils/pdf.ts:43-57 | the opening is in the chosen page and text colours |
| NoteRender.HeadingPainted | src/utils/pdf.ts:59-78 | so are the title and the date line |
| NoteRender.BodyPainted | src/utils/pdf.ts:80-83 | and the body |
| NoteRender.ImagePagePainted | src/utils/pdf.ts:92-103 | and the image page |
| NoteRender.Palette | src/utils/pdf.ts:44-52 | when coloured the page colour is `hexToRgb(color)` and the text is white iff the dark expression matches, else black; when not coloured, white page and black text |
| NoteRender.DocumentPainted | src/utils/pdf.ts:44-104 | every rectangle in the finished document has the page colour and every text the text colour |
| NoteRender.ContrastRule | src/utils/pdf.ts:44-53 | every rectangle on every page has the page colour and every text the text colour; when coloured these are `hexToRgb(color)` and white iff the dark expression matches, else black; when not coloured white and black |
| NoteRender.ShortBlackKeepsBlackText | src/utils/pdf.ts:46-48 | a coloured `#000` note gets a black page and black text |
| NoteRender.IntendedInkAgrees | src/utils/pdf.ts:44-52 | the intended text colour equals the code's on every `#rrggbb` colour and whenever the note is not coloured |
| NoteRender.IntendedShortForm | src/utils/pdf.ts:44-52 | under the intended rule a `#rgb` note gets the text colour the code gives its doubled `#rrggbb` form |
| NoteRender.IntendedShortBlack | src/utils/pdf.ts:44-52 | under the intended rule a coloured `#000` note gets white text on its black page |
| NoteRender.UncolouredIgnoresColour | src/utils/pdf.ts:49-52 | without `colored` the note's colour does not change the document |
| NoteRender.WhiteColouredMatchesUncoloured | tests/utils/pdf.test.ts:78-86 | a `#ffffff` note gives the same document with and without `colored` |
| NoteRender.ImagePageShape | src/utils/pdf.ts:92-103 | the image page keeps the pages before it and adds one holding the background, then the image |
| NoteRender.ImagePageRule | src/utils/pdf.ts:85-104 | the image page exists iff `withImage` and the note has an image; it is one extra last page with the background and the image at (20, titleEnd), PNG iff the mimetype is "application/png" |
| NoteRender.PageCount | src/utils/pdf.ts:61-104 | pages = title pages + body pages - 1, plus 1 for the image page; the title and body count their breaks separately |
| NoteRender.HeadingExtends | src/utils/pdf.ts:59-78 | the heading keeps the opening, and its last operation is the date line at `titleEnd` |
| NoteRender.ImagePageExtends | src/utils/pdf.ts:92-103 | the image page keeps everything drawn before |
| NoteRender.DocumentExtendsHeading | src/utils/pdf.ts:80-104 | the body and the image page keep everything the heading drew |
| NoteRender.FreshPageShape | src/utils/pdf.ts:53-57 | on a fresh page, the background and the logo are the whole page, in that order |
| NoteRender.OpeningPages | src/utils/pdf.ts:43-57 | after the opening, the document is one page holding the background, then the logo |
| NoteRender.FreshPagePainted | src/utils/pdf.ts:53-57 | the background and logo of a fresh page keep the text colour and use only the page colour |
| NoteRender.OpeningKept | src/utils/pdf.ts:53-104 | everything the opening drew is still in the finished document |
| NoteRender.FirstPageOpening | src/utils/pdf.ts:53-57 | the final first page starts with the background, then the logo |
| NoteRender.DateAfterTitle | src/utils/pdf.ts:75-78 | "Created on …" is drawn right after the title at `titleEnd`, italic, size 8, in the text colour, and stays in the final document |
| NoteRender.BodyAfterHeading | src/utils/pdf.ts:80-83 | the body's first line follows the heading's last operation on the same page |
| NoteRender.BodyStartsAt60 | src/utils/pdf.ts:80-83 | when 60 fits on the page, the body's first line is drawn at (20, 60) in normal size 12, right after the date line |
| Archive.Names | src/utils/pdf.ts:183 | the names of the archive's files, one per file, in order |
| Archive.PutLookup | src/utils/pdf.ts:183 | after `file(name, data)` the name holds `data` and every other name is unchanged |
| Archive.PutNames | src/utils/pdf.ts:183 | `file` adds the name at the end when it is new, else keeps the names as they were |
| Archive.PutAppends | src/utils/pdf.ts:183 | a new name is appended as a new file |
| Archive.ArchiveLookup | src/utils/pdf.ts:167-187 | under each name the archive holds what the last call with that name wrote |
| Archive.ArchiveNames | src/utils/pdf.ts:167-187 | the archive holds no name twice, and exactly the names written |
| Archive.ArchiveKeepsDistinct | src/utils/pdf.ts:167-187 | when no name is written twice, the archive is the list of calls itself |
| Archive.Zip.constructor | src/utils/pdf.ts:165 | a new archive is empty |
| Archive.Zip.File | src/utils/pdf.ts:183 | `zip.file` updates the archive as `Put` says |
| Archive.ToLower | src/utils/pdf.ts:173 | same length; each ASCII upper-case letter is lowered and every other character kept |
| Archive.ReplaceSpaces | src/utils/pdf.ts:173 | same length; every space becomes a dash and every other character is kept |
| Archive.SlugShape | src/utils/pdf.ts:173 | a slug has the title's length, no space and no ASCII upper case, and is its own slug |
| Archive.BaseName | src/utils/pdf.ts:173 | the slug of a present, non-empty title, else "untitled" |
| Archive.SuffixInjective | src/utils/pdf.ts:175-178 | different counters give different suffixes ("" for 0, " (n)" otherwise) |
| Archive.PdfNameInjective | src/utils/pdf.ts:173-183 | two names for the same title are equal iff their counters are |
| Archive.FirstNames | src/utils/pdf.ts:175-183 | counter 0 gives `base.pdf`, counter 1 gives `base (1).pdf` |
| Archive.Included | src/utils/pdf.ts:167-169 | no stored note is encrypted, and there are at most as many as notes |
| Archive.IncludedSingle | src/utils/pdf.ts:167-169 | one note is stored iff it is not encrypted |
| Archive.IncludedAppend | src/utils/pdf.ts:166-169 | the filter distributes over concatenation, so the stored notes keep their order |
| Archive.IncludedCounts | src/utils/pdf.ts:167-169 | every unencrypted note is stored as often as it occurs, and no encrypted note is |
| Archive.Files | src/utils/pdf.ts:167-187 | one `file` call per stored note |
| Archive.FileAt | src/utils/pdf.ts:171-183 | the j-th call stores the j-th note under its title with the count of earlier notes of that title |
| Archive.CountGrows | src/utils/pdf.ts:176-180 | a later note with the same title sees a larger count |
| Archive.SameTitleDistinctNames | src/utils/pdf.ts:172-183 | two stored notes with equal titles get different names |
| Archive.CountsStep | src/utils/pdf.ts:176-181 | the `noteTitles` update keeps it the count of the titles seen, and the suffix uses the count before the update |
| Archive.StoreNote | src/utils/pdf.ts:171-183 | one iteration for an unencrypted note: the archive gets `Put` of the note's name and rendering, and the counts include the note |
| Archive.GenerateBackupZip | src/utils/pdf.ts:164-192 | the archive is `ArchiveOf(Files(Included(notes), render))` with the note renderer for the given flags |
| Archive.BackupKeepsEveryNote | src/utils/pdf.ts:164-192 | with all names different, every stored note is in the archive, in order |
| Archive.TwoFiles | src/utils/pdf.ts:167-183 | two unencrypted notes give names with counters 0, and 1 iff the titles are equal |
| Archive.TwoNames | src/utils/pdf.ts:183 | two calls with different names give two files |
| Archive.SameNameTwice | src/utils/pdf.ts:183 | two calls with the same name leave one file, holding the second data |
| Archive.RepeatedTitle | src/utils/pdf.ts:172-183 | two notes with the same title are stored as `base.pdf` and `base (1).pdf` |
| Archive.UntitledRepeated | src/utils/pdf.ts:173-181 | two notes without a title, or two with the empty title, are stored as `untitled.pdf` and `untitled (1).pdf` |
| Archive.MyTasksSlug | src/utils/pdf.ts:173 | the slug of "My Tasks" is "my-tasks" |
| Archive.MyTasksNames | src/utils/pdf.ts:173-183 | a note titled "My Tasks" is named "my-tasks.pdf" with counter 0 and "my-tasks (1).pdf" with counter 1 |
| Archive.RepeatedTitleExample | src/utils/pdf.ts:172-183 | two unencrypted "My Tasks" notes give an archive holding exactly "my-tasks.pdf" with the first rendering, then "my-tasks (1).pdf" with the second |
| Archive.UntitledCollision | src/utils/pdf.ts:173-180 | an undefined title and an empty title both become "untitled.pdf" with counter 0, and the archive keeps only the second |
| Archive.FilesByStem | src/utils/pdf.ts:166-183 | the calls with the counter kept per stem: one call per stored note |
| Archive.FileByStemAt | src/utils/pdf.ts:173-183 | the `j`th such call names the `j`th note by its stem and the number of earlier notes with that stem |
| Archive.StemCountGrows | src/utils/pdf.ts:175-181 | a later note with the same stem sees a larger per-stem count |
| Archive.StemNoSpace | src/utils/pdf.ts:173 | a stem never holds a space |
| Archive.StemSpace | src/utils/pdf.ts:177-183 | in a file name the first space ends the stem, and there is none without a counter |
| Archive.StemNameInjective | src/utils/pdf.ts:173-183 | two file names are equal iff their stems and counters are |
| Archive.FilesByStemDistinct | src/utils/pdf.ts:166-183 | with the counter kept per stem, all the calls write different names |
| Archive.BackupByStemKeepsEveryNote | src/utils/pdf.ts:164-192 | with the counter kept per stem, the archive holds every stored note, in order, for every list of notes |
| Archive.StemCountAgrees | src/utils/pdf.ts:175-181 | when a title is the only one with its stem, the per-stem count equals the per-title count |
| Archive.FilesByStemAgrees | src/utils/pdf.ts:166-183 | when no two different titles share a stem, both counters give the same calls |
| Legacy.LegacyGenerateNotePdf | src/backup.ts:35-91 | the old renderer returns a fresh buffer holding the serialisation of `LegacyNoteDocument` |
| Legacy.LegacyOpeningIsColoured | src/backup.ts:43-49 | filling before setting the text colour gives the new coloured opening |
| Legacy.LegacyIsColouredWithoutImage | src/backup.ts:43-88 | the old document equals the new one with `colored` and without image: body at 60 in both |
| Legacy.LegacyRendererAgrees | src/backup.ts:35-91 | the old renderer gives the same bytes as the new one with `colored` and without images |
| Legacy.LegacyFiles | src/backup.ts:147-154 | at most one `file` call per note |
| Legacy.LegacyFilesStep | src/backup.ts:147-154 | each note adds a call with its slug, unless it has no title |
| Legacy.LegacyBackupZip | src/backup.ts:144-159 | the archive is `ArchiveOf(LegacyFiles(notes, render))` |
| Legacy.LegacyStoresEveryTitledNote | src/backup.ts:147-154 | with every title present, every note, encrypted or not, gets one call under `slug.pdf`, in order |
| Legacy.LegacySameTitleOverwrites | src/backup.ts:150 | two notes with the same title leave one file, holding the second note |
| Legacy.LegacyFilesAgree | src/backup.ts:147-154 | with distinct non-empty titles the old calls equal the new ones |
| Legacy.LegacyFilesMatch | src/backup.ts:144-159 | with renderers that agree, unencrypted notes and distinct non-empty titles, the old calls equal the new ones |
| Legacy.LegacyMatchesNew | src/backup.ts:144-159 | under those conditions the old backup equals the new one with `colored` and without images |

## Findings

| source | as written | input that shows it | evidently intended | confidence | as-written member | corrected member |
|---|---|---|---|---|---|---|
| src/utils/pdf.ts:8 | the dark expression needs six hex digits, so short colours never match | a coloured note with colour `#000` gets black text on a black page | darkness judged on the decoded channels, so that `#000` gets white text | high, from the source text; not executed | NoteRender.ShortBlackKeepsBlackText | NoteRender.IntendedShortBlack |
| src/utils/pdf.ts:175-181 | the name counter is keyed by the raw title | an undefined title and the title "" are both stored as `untitled.pdf`, and the second replaces the first | the counter keyed by the file stem, so that every stored note stays in the archive | high, from the source text; not executed | Archive.UntitledCollision | Archive.BackupByStemKeepsEveryNote |

## Left out

- jsPDF internals are left out: fonts, the width measurement behind `splitTextToSize`, and the serialisation behind `output("arraybuffer")`. The splitter and the serialisation are parameters (`Toolkit.split`, `Toolkit.output`). Only the order of drawing operations and their arguments is modelled.
- The `"FAST"` compression argument of the image `addImage` and the `undefined` alias argument are left out; they do not change what is drawn.
- The page size of an A4 document in px is not an integer in jsPDF. The model takes integer page sizes as parameters.
- JSZip compression and `generateAsync` are left out: the archive is the list of its files and their contents. Folders that JSZip would create for names containing "/" are not modelled.
- Reading `assets/logo.png` and the `new Date().toLocaleString()` timestamp are parameters (`logo`, `now`). One timestamp is used per document.
- Archive.GenerateBackupZip and Legacy.LegacyBackupZip: one timestamp is shared by every document of a backup. The source reads the clock inside each `generateNotePdf` call (src/utils/pdf.ts:78, src/backup.ts:70), so notes rendered across a clock tick carry different dates.
- Rendering is assumed not to fail. In the source, `generateNotePdf` runs outside the `try` (src/utils/pdf.ts:171, src/backup.ts:148), so a throw there ends the whole backup with no archive. Examples are reading the logo (src/utils/pdf.ts:57) and jsPDF rejecting the image data (src/utils/pdf.ts:85-104).
- Colour.HexToRgb: tests the length in Unicode scalar values, while `h.length` counts UTF-16 code units. A string holding a character outside the Basic Multilingual Plane decodes differently: NaN channels in the source, black in the model. The `@IsHexColor()` validator on the note colour (src/entity/note.ts:41) keeps such strings out of stored notes.
- Archive.ToLower: lowers the ASCII letters only. Full Unicode case mapping of `toLocaleLowerCase` is not modelled.
- The `try`/`catch` in the new `generateBackupZip` can only fire in code that is not part of this model, so the model has no error path there. In the old version the catch is modelled: a note without a title is skipped.
- An `undefined` title and a `null` title are distinct keys of the JavaScript `Map`; the model has a single `None` for both.
- `wrapText` with an undefined title passes `undefined` to `splitTextToSize`. What jsPDF does with it is part of the abstract splitter.
- The `console.log` of a caught error is left out.
- Users, controllers, routes and the HTTP layer are not part of this model. The notes of a user are a sequence parameter.
