/**
 * `FileGenerator.generateBackupZip` (src/utils/pdf.ts:164-192): every note that is not
 * encrypted is rendered and stored in a zip archive under a name derived from its title,
 * with a counter per title that tells repeated titles apart.
 */
module Archive {
  import opened Wrappers
  import opened Bytes
  import opened Decimal
  import opened NoteRender

  /** A file of the archive. */
  datatype Entry = Entry(name: string, data: seq<byte>)

  function Names(entries: seq<Entry>): (r: seq<string>)
    ensures |r| == |entries|
    ensures forall i {:trigger r[i]} :: 0 <= i < |entries| ==> r[i] == entries[i].name
  {
    if entries == [] then [] else [entries[0].name] + Names(entries[1..])
  }

  predicate Distinct(names: seq<string>) {
    forall i, j :: 0 <= i < j < |names| ==> names[i] != names[j]
  }

  /** The data stored under `name`, if any. */
  function Lookup(entries: seq<Entry>, name: string): Option<seq<byte>> {
    if entries == [] then None
    else if entries[0].name == name then Some(entries[0].data)
    else Lookup(entries[1..], name)
  }

  /**
   * JSZip's `file(name, data)`: the archive keeps one file per name, in the order the names were
   * first added; writing a name that is already there replaces that file's data in place.
   */
  function Put(entries: seq<Entry>, name: string, data: seq<byte>): seq<Entry> {
    if entries == [] then [Entry(name, data)]
    else if entries[0].name == name then [Entry(name, data)] + entries[1..]
    else [entries[0]] + Put(entries[1..], name, data)
  }

  lemma {:induction false} PutLookup(entries: seq<Entry>, name: string, data: seq<byte>, other: string)
    ensures Lookup(Put(entries, name, data), other) == if other == name then Some(data) else Lookup(entries, other)
  {
    if entries != [] && entries[0].name != name {
      PutLookup(entries[1..], name, data, other);
    }
  }

  lemma NamesCons(e: Entry, rest: seq<Entry>)
    ensures Names([e] + rest) == [e.name] + Names(rest)
  {
    assert ([e] + rest)[1..] == rest;
  }

  lemma {:induction false} PutNames(entries: seq<Entry>, name: string, data: seq<byte>)
    ensures Names(Put(entries, name, data)) == if name in Names(entries) then Names(entries) else Names(entries) + [name]
  {
    if entries == [] {
      assert Names([Entry(name, data)]) == [name];
    } else {
      var rest := entries[1..];
      assert entries == [entries[0]] + rest;
      NamesCons(entries[0], rest);
      if entries[0].name == name {
        NamesCons(Entry(name, data), rest);
      } else {
        PutNames(rest, name, data);
        NamesCons(entries[0], Put(rest, name, data));
        assert name in Names(entries) <==> name in Names(rest);
      }
    }
  }

  /** The archive after `file` was called for each of `files` in turn, starting from an empty one. */
  function ArchiveOf(files: seq<Entry>): seq<Entry> {
    if files == [] then []
    else
      var last := files[|files| - 1];
      Put(ArchiveOf(files[..|files| - 1]), last.name, last.data)
  }

  /** The data of the last of `files` named `name`. */
  function LastWritten(files: seq<Entry>, name: string): Option<seq<byte>> {
    if files == [] then None
    else if files[|files| - 1].name == name then Some(files[|files| - 1].data)
    else LastWritten(files[..|files| - 1], name)
  }

  /** Under each name the archive holds what the last call with that name wrote. */
  lemma {:induction false} ArchiveLookup(files: seq<Entry>, name: string)
    ensures Lookup(ArchiveOf(files), name) == LastWritten(files, name)
  {
    if files != [] {
      var last := files[|files| - 1];
      ArchiveLookup(files[..|files| - 1], name);
      PutLookup(ArchiveOf(files[..|files| - 1]), last.name, last.data, name);
    }
  }

  lemma NamesAppend(entries: seq<Entry>, e: Entry)
    ensures Names(entries + [e]) == Names(entries) + [e.name]
  {
    assert forall i :: 0 <= i < |entries| ==> (entries + [e])[i] == entries[i];
  }

  lemma DistinctAppend(names: seq<string>, name: string)
    requires Distinct(names) && name !in names
    ensures Distinct(names + [name])
  {
    var r := names + [name];
    forall i, j | 0 <= i < j < |r| ensures r[i] != r[j] {
      if j < |names| {
        assert r[i] == names[i] && r[j] == names[j];
      } else {
        assert r[i] == names[i];
      }
    }
  }

  /** The archive holds each name written exactly once. */
  lemma {:induction false} ArchiveNames(files: seq<Entry>)
    ensures Distinct(Names(ArchiveOf(files)))
    ensures forall name :: name in Names(ArchiveOf(files)) <==> name in Names(files)
  {
    if files != [] {
      var prev := files[..|files| - 1];
      var last := files[|files| - 1];
      var older := ArchiveOf(prev);
      ArchiveNames(prev);
      PutNames(older, last.name, last.data);
      assert files == prev + [last];
      NamesAppend(prev, last);
      if last.name !in Names(older) {
        DistinctAppend(Names(older), last.name);
      }
    }
  }

  /** When no name is written twice, nothing is replaced: the archive holds every file, in order. */
  lemma {:induction false} ArchiveKeepsDistinct(files: seq<Entry>)
    requires Distinct(Names(files))
    ensures ArchiveOf(files) == files
  {
    if files != [] {
      var prev := files[..|files| - 1];
      var last := files[|files| - 1];
      assert files == prev + [last];
      NamesAppend(prev, last);
      var names := Names(files);
      assert Distinct(Names(prev)) by {
        forall i, j | 0 <= i < j < |prev| ensures Names(prev)[i] != Names(prev)[j] {
          assert Names(prev)[i] == names[i] && Names(prev)[j] == names[j];
        }
      }
      assert last.name !in Names(prev) by {
        forall i | 0 <= i < |prev| ensures Names(prev)[i] != last.name {
          assert Names(prev)[i] == names[i] && last.name == names[|prev|];
        }
      }
      ArchiveKeepsDistinct(prev);
      PutAppends(prev, last.name, last.data);
    }
  }

  lemma {:induction false} PutAppends(entries: seq<Entry>, name: string, data: seq<byte>)
    requires name !in Names(entries)
    ensures Put(entries, name, data) == entries + [Entry(name, data)]
  {
    if entries != [] {
      assert Names(entries) == [entries[0].name] + Names(entries[1..]);
      PutAppends(entries[1..], name, data);
      assert entries == [entries[0]] + entries[1..];
    }
  }

  /** The JSZip object of `generateBackupZip`: its files in the order they were added. */
  class Zip {
    var entries: seq<Entry>

    constructor ()
      ensures entries == []
    {
      entries := [];
    }

    method File(name: string, data: seq<byte>)
      modifies this
      ensures entries == Put(old(entries), name, data)
    {
      entries := Put(entries, name, data);
    }
  }

  /** `toLocaleLowerCase` on one character, for the ASCII letters. */
  function LowerChar(c: char): char {
    if 'A' <= c <= 'Z' then (c as int + 32) as char else c
  }

  function ToLower(s: string): (r: string)
    ensures |r| == |s|
    ensures forall i {:trigger r[i]} :: 0 <= i < |s| ==> r[i] == LowerChar(s[i])
  {
    if s == [] then [] else [LowerChar(s[0])] + ToLower(s[1..])
  }

  /** `replace(/ /g, "-")`: every space becomes a dash. */
  function ReplaceSpaces(s: string): (r: string)
    ensures |r| == |s|
    ensures forall i {:trigger r[i]} :: 0 <= i < |s| ==> r[i] == if s[i] == ' ' then '-' else s[i]
  {
    if s == [] then [] else [if s[0] == ' ' then '-' else s[0]] + ReplaceSpaces(s[1..])
  }

  /** The file name stem made from a title: lower case, dashes for spaces. */
  function Slug(title: string): string {
    ReplaceSpaces(ToLower(title))
  }

  /** A slug has the title's length, no space and no upper-case ASCII letter, and is its own slug. */
  lemma SlugShape(title: string)
    ensures |Slug(title)| == |title|
    ensures forall i :: 0 <= i < |title| ==> Slug(title)[i] != ' ' && !('A' <= Slug(title)[i] <= 'Z')
    ensures Slug(Slug(title)) == Slug(title)
  {
    var s := Slug(title);
    assert forall i :: 0 <= i < |s| ==> Slug(s)[i] == s[i];
  }

  /** `pdfName`: the slug of a title that is there and not empty, else "untitled". */
  function BaseName(title: Option<string>): (r: string)
    ensures title.Some? && title.value != "" ==> r == Slug(title.value)
    ensures title.None? || title.value == "" ==> r == "untitled"
  {
    if title.Some? && title.value != "" then Slug(title.value) else "untitled"
  }

  /** The suffix for the `k`th earlier note of the same title: none the first time, " (k)" after. */
  function Suffix(k: nat): string {
    if k == 0 then "" else " (" + NatToString(k) + ")"
  }

  lemma SuffixInjective(a: nat, b: nat)
    requires Suffix(a) == Suffix(b)
    ensures a == b
  {
    if a != 0 && b != 0 {
      var sa := Suffix(a);
      assert sa[2..|sa| - 1] == NatToString(a);
      assert Suffix(b)[2..|Suffix(b)| - 1] == NatToString(b);
      PrintedInjective(a, b);
    }
  }

  /** The file name for the stem `stem` and the counter `k`. */
  function StemName(stem: string, k: nat): string {
    stem + Suffix(k) + ".pdf"
  }

  function PdfName(title: Option<string>, k: nat): string {
    StemName(BaseName(title), k)
  }

  /** Two notes with the same title get the same name only with the same counter. */
  lemma PdfNameInjective(title: Option<string>, a: nat, b: nat)
    ensures PdfName(title, a) == PdfName(title, b) <==> a == b
  {
    if PdfName(title, a) == PdfName(title, b) {
      PdfNameCancel(title, a, b);
    }
  }

  lemma PdfNameCancel(title: Option<string>, a: nat, b: nat)
    requires PdfName(title, a) == PdfName(title, b)
    ensures a == b
  {
    var base := BaseName(title);
    var na := PdfName(title, a);
    var nb := PdfName(title, b);
    assert na[|base|..|na| - 4] == Suffix(a);
    assert nb[|base|..|nb| - 4] == Suffix(b);
    SuffixInjective(a, b);
  }

  /** The notes `generateBackupZip` stores: the ones that are not encrypted, in order. */
  function Included(notes: seq<Note>): (r: seq<Note>)
    ensures |r| <= |notes|
    ensures forall i :: 0 <= i < |r| ==> !r[i].encrypted
  {
    if notes == [] then []
    else if notes[|notes| - 1].encrypted then Included(notes[..|notes| - 1])
    else Included(notes[..|notes| - 1]) + [notes[|notes| - 1]]
  }

  /** Every note that is not encrypted is stored as often as it occurs, and no encrypted note is. */
  lemma {:induction false} IncludedCounts(notes: seq<Note>)
    ensures forall n :: multiset(Included(notes))[n] == if n.encrypted then 0 else multiset(notes)[n]
  {
    if notes != [] {
      var prev := notes[..|notes| - 1];
      IncludedCounts(prev);
      assert notes == prev + [notes[|notes| - 1]];
    }
  }

  /** A single note is stored unless it is encrypted. */
  lemma IncludedSingle(n: Note)
    ensures Included([n]) == if n.encrypted then [] else [n]
  {
    assert [n][..0] == [];
  }

  /** The filter keeps the order of the notes: it distributes over concatenation. */
  lemma {:induction false} IncludedAppend(a: seq<Note>, b: seq<Note>)
    ensures Included(a + b) == Included(a) + Included(b)
  {
    if b == [] {
      assert a + b == a;
    } else {
      var prev := b[..|b| - 1];
      var last := b[|b| - 1];
      var ab := a + b;
      assert ab[..|ab| - 1] == a + prev && ab[|ab| - 1] == last;
      IncludedAppend(a, prev);
      if !last.encrypted {
        assert Included(ab) == (Included(a) + Included(prev)) + [last];
        assert Included(b) == Included(prev) + [last];
      }
    }
  }

  /** The number of notes in `notes` with the title `title`. */
  function Count(notes: seq<Note>, title: Option<string>): nat {
    if notes == [] then 0
    else Count(notes[..|notes| - 1], title) + (if notes[|notes| - 1].title == title then 1 else 0)
  }

  /** The `zip.file` calls for the stored notes, in order, with the bytes `render` gives each note. */
  function Files(notes: seq<Note>, render: Note -> seq<byte>): (r: seq<Entry>)
    ensures |r| == |notes|
  {
    if notes == [] then []
    else
      var prev := notes[..|notes| - 1];
      var note := notes[|notes| - 1];
      Files(prev, render) + [Entry(PdfName(note.title, Count(prev, note.title)), render(note))]
  }

  /** The `j`th call stores the `j`th note under its title's name, counted among the notes before it. */
  lemma {:induction false} FileAt(notes: seq<Note>, render: Note -> seq<byte>, j: nat)
    requires j < |notes|
    ensures Files(notes, render)[j] == Entry(PdfName(notes[j].title, Count(notes[..j], notes[j].title)), render(notes[j]))
  {
    var prev := notes[..|notes| - 1];
    if j < |prev| {
      FileAt(prev, render, j);
      assert prev[..j] == notes[..j];
    } else {
      assert prev == notes[..j];
    }
  }

  lemma {:induction false} CountGrows(notes: seq<Note>, i: nat, j: nat)
    requires i < j <= |notes|
    ensures Count(notes[..i], notes[i].title) < Count(notes[..j], notes[i].title)
  {
    var t := notes[i].title;
    assert notes[..j][..j - 1] == notes[..j - 1];
    if j == i + 1 {
    } else {
      CountGrows(notes, i, j - 1);
    }
  }

  /** Notes with the same title get different names: the counter tells them apart. */
  lemma SameTitleDistinctNames(notes: seq<Note>, render: Note -> seq<byte>, i: nat, j: nat)
    requires i < j < |notes| && notes[i].title == notes[j].title
    ensures Files(notes, render)[i].name != Files(notes, render)[j].name
  {
    FileAt(notes, render, i);
    FileAt(notes, render, j);
    CountGrows(notes, i, j);
    PdfNameInjective(notes[i].title, Count(notes[..i], notes[i].title), Count(notes[..j], notes[i].title));
  }

  /** `counts` holds, for each title among `notes`, how many of them have it, and no other title. */
  ghost predicate Counts(counts: map<Option<string>, nat>, notes: seq<Note>) {
    (forall t :: t in counts <==> Count(notes, t) > 0)
    && forall t :: t in counts ==> counts[t] == Count(notes, t)
  }

  lemma CountStep(notes: seq<Note>, note: Note, t: Option<string>)
    ensures Count(notes + [note], t) == Count(notes, t) + if note.title == t then 1 else 0
  {
    assert (notes + [note])[..|notes|] == notes;
  }

  /** The update of `noteTitles` keeps it the count of the titles seen so far. */
  lemma CountsStep(counts: map<Option<string>, nat>, notes: seq<Note>, note: Note)
    requires Counts(counts, notes)
    ensures note.title in counts ==>
              counts[note.title] == Count(notes, note.title)
              && Counts(counts[note.title := counts[note.title] + 1], notes + [note])
    ensures note.title !in counts ==> Count(notes, note.title) == 0 && Counts(counts[note.title := 1], notes + [note])
  {
    forall t {
      CountStep(notes, note, t);
    }
  }

  lemma IncludedStep(notes: seq<Note>, i: nat)
    requires i < |notes|
    ensures Included(notes[..i + 1]) == if notes[i].encrypted then Included(notes[..i]) else Included(notes[..i]) + [notes[i]]
  {
    assert notes[..i + 1][..i] == notes[..i];
  }

  lemma FilesStep(notes: seq<Note>, note: Note, render: Note -> seq<byte>)
    ensures Files(notes + [note], render) == Files(notes, render) + [Entry(PdfName(note.title, Count(notes, note.title)), render(note))]
  {
    assert (notes + [note])[..|notes|] == notes;
  }

  lemma ArchiveStep(files: seq<Entry>, file: Entry)
    ensures ArchiveOf(files + [file]) == Put(ArchiveOf(files), file.name, file.data)
  {
    assert (files + [file])[..|files|] == files;
  }

  /**
   * The loop body of `generateBackupZip` for a note that is not encrypted: render it, name it
   * after its title and the number of earlier notes with that title, count it, and store it.
   */
  method StoreNote(zip: Zip, noteTitles: map<Option<string>, nat>, ghost seen: seq<Note>, note: Note,
                   withImages: bool, colored: bool, kit: Toolkit, logo: seq<byte>, now: string)
    returns (counts: map<Option<string>, nat>)
    requires Counts(noteTitles, seen)
    modifies zip
    ensures Counts(counts, seen + [note])
    ensures zip.entries == Put(old(zip.entries), PdfName(note.title, Count(seen, note.title)),
                               Renderer(withImages, colored, kit, logo, now)(note))
  {
    var doc := GenerateNotePdf(note, withImages, colored, kit, logo, now);
    var pdfName := if note.title.Some? && note.title.value != "" then Slug(note.title.value) else "untitled";
    CountsStep(noteTitles, seen, note);
    var suffix := "";
    counts := noteTitles;
    if note.title in counts {
      suffix := " (" + NatToString(counts[note.title]) + ")";
      counts := counts[note.title := counts[note.title] + 1];
    } else {
      counts := counts[note.title := 1];
    }
    assert pdfName == BaseName(note.title) && suffix == Suffix(Count(seen, note.title));
    zip.File(pdfName + suffix + ".pdf", doc[..]);
  }

  /**
   * `generateBackupZip`: renders and stores each note that is not encrypted, counting the notes
   * seen so far per title. The result is the archive's files; their compression is left out.
   */
  method GenerateBackupZip(notes: seq<Note>, withImages: bool, colored: bool, kit: Toolkit, logo: seq<byte>, now: string)
    returns (entries: seq<Entry>)
    ensures entries == ArchiveOf(Files(Included(notes), Renderer(withImages, colored, kit, logo, now)))
  {
    var zip := new Zip();
    var noteTitles: map<Option<string>, nat> := map[];
    ghost var render := Renderer(withImages, colored, kit, logo, now);
    for i := 0 to |notes|
      invariant zip.entries == ArchiveOf(Files(Included(notes[..i]), render))
      invariant Counts(noteTitles, Included(notes[..i]))
    {
      var note := notes[i];
      IncludedStep(notes, i);
      if !note.encrypted {
        ghost var before := Included(notes[..i]);
        noteTitles := StoreNote(zip, noteTitles, before, note, withImages, colored, kit, logo, now);
        assert zip.entries == ArchiveOf(Files(before + [note], render)) by {
          var file := Entry(PdfName(note.title, Count(before, note.title)), render(note));
          FilesStep(before, note, render);
          ArchiveStep(Files(before, render), file);
        }
      }
    }
    assert notes[..|notes|] == notes;
    entries := zip.entries;
  }

  /** With the archive's names all different, every stored note is in the archive, in order. */
  lemma BackupKeepsEveryNote(notes: seq<Note>, render: Note -> seq<byte>)
    requires Distinct(Names(Files(Included(notes), render)))
    ensures ArchiveOf(Files(Included(notes), render)) == Files(Included(notes), render)
  {
    ArchiveKeepsDistinct(Files(Included(notes), render));
  }

  /** The slug of the title used by the repository's tests. */
  lemma MyTasksSlug(title: string)
    requires title == "My Tasks"
    ensures Slug(title) == "my-tasks"
  {
    var s := Slug(title);
    assert |s| == 8;
    forall i | 0 <= i < 8 ensures s[i] == "my-tasks"[i] {
      assert ToLower(title)[i] == LowerChar(title[i]);
    }
  }

  lemma TwoFiles(a: Note, b: Note, render: Note -> seq<byte>)
    requires !a.encrypted && !b.encrypted
    ensures Files(Included([a, b]), render)
         == [Entry(PdfName(a.title, 0), render(a)),
             Entry(PdfName(b.title, if a.title == b.title then 1 else 0), render(b))]
  {
    assert [a, b][..1] == [a];
    assert [a][..0] == [];
    assert Included([a, b]) == [a, b];
    assert Count([a], b.title) == if a.title == b.title then 1 else 0;
  }

  lemma TwoNames(first: Entry, second: Entry)
    requires first.name != second.name
    ensures ArchiveOf([first, second]) == [first, second]
  {
    assert [first, second][..1] == [first];
    assert [first][..0] == [];
    assert ArchiveOf([first]) == [first];
    assert [first][1..] == [];
    assert Put([first], second.name, second.data) == [first] + [second];
  }

  lemma SameNameTwice(first: Entry, second: Entry)
    requires first.name == second.name
    ensures ArchiveOf([first, second]) == [second]
  {
    assert [first, second][..1] == [first];
    assert [first][..0] == [];
    assert ArchiveOf([first]) == [first];
    assert [first][1..] == [];
  }

  /** The names for counters 0 and 1. */
  lemma FirstNames(title: Option<string>)
    ensures PdfName(title, 0) == BaseName(title) + ".pdf"
    ensures PdfName(title, 1) == BaseName(title) + " (1).pdf"
  {
    var base := BaseName(title);
    assert Suffix(1) == " (1)" by {
      assert NatToString(1) == "1";
    }
    assert base + "" == base;
    assert (base + " (1)") + ".pdf" == base + " (1).pdf";
  }

  /** Two notes with the same title: the first keeps the plain name, the second gets " (1)". */
  lemma RepeatedTitle(a: Note, b: Note, render: Note -> seq<byte>)
    requires a.title == b.title && !a.encrypted && !b.encrypted
    ensures ArchiveOf(Files(Included([a, b]), render))
         == [Entry(BaseName(a.title) + ".pdf", render(a)), Entry(BaseName(a.title) + " (1).pdf", render(b))]
  {
    var first := Entry(PdfName(a.title, 0), render(a));
    var second := Entry(PdfName(a.title, 1), render(b));
    TwoFiles(a, b, render);
    assert first.name != second.name by {
      PdfNameInjective(a.title, 0, 1);
    }
    TwoNames(first, second);
    FirstNames(a.title);
  }

  /** Two notes that both have no title, or both the empty title, share one counter. */
  lemma UntitledRepeated(a: Note, b: Note, render: Note -> seq<byte>)
    requires a.title == b.title && (a.title == None || a.title == Some("")) && !a.encrypted && !b.encrypted
    ensures ArchiveOf(Files(Included([a, b]), render))
         == [Entry("untitled.pdf", render(a)), Entry("untitled (1).pdf", render(b))]
  {
    RepeatedTitle(a, b, render);
    assert BaseName(a.title) == "untitled";
    assert "untitled" + ".pdf" == "untitled.pdf" && "untitled" + " (1).pdf" == "untitled (1).pdf";
  }

  /** Two notes titled "My Tasks" are stored as "my-tasks.pdf" and "my-tasks (1).pdf". */
  lemma RepeatedTitleExample(a: Note, b: Note, render: Note -> seq<byte>)
    requires a.title == b.title == Some("My Tasks") && !a.encrypted && !b.encrypted
    ensures ArchiveOf(Files(Included([a, b]), render))
         == [Entry("my-tasks.pdf", render(a)), Entry("my-tasks (1).pdf", render(b))]
  {
    RepeatedTitle(a, b, render);
    MyTasksNames(a.title.value);
  }

  /** The two file names that a note titled "My Tasks" can be stored under. */
  lemma MyTasksNames(title: string)
    requires title == "My Tasks"
    ensures BaseName(Some(title)) + ".pdf" == "my-tasks.pdf"
    ensures BaseName(Some(title)) + " (1).pdf" == "my-tasks (1).pdf"
  {
    MyTasksSlug(title);
    var slug := "my-tasks";
    assert slug + ".pdf" == "my-tasks.pdf";
    assert slug + " (1).pdf" == "my-tasks (1).pdf";
  }

  /**
   * The counter goes by the title itself, not by the name made from it: a note without a title
   * and a note with the empty title are both stored as "untitled.pdf", and the second replaces
   * the first in the archive.
   */
  lemma UntitledCollision(a: Note, b: Note, render: Note -> seq<byte>)
    requires a.title == None && b.title == Some("") && !a.encrypted && !b.encrypted
    ensures ArchiveOf(Files(Included([a, b]), render)) == [Entry("untitled.pdf", render(b))]
  {
    TwoFiles(a, b, render);
    assert PdfName(a.title, 0) == "untitled.pdf";
    assert PdfName(b.title, 0) == "untitled.pdf";
    SameNameTwice(Entry("untitled.pdf", render(a)), Entry("untitled.pdf", render(b)));
  }

  /*
   * The counter as its purpose intends: kept per file stem rather than per title, so that
   * titles with the same stem (no title and the empty title, or titles differing only in case or
   * in spaces versus dashes) are still told apart.
   */

  /** The number of notes in `notes` whose title gives the stem `stem`. */
  function StemCount(notes: seq<Note>, stem: string): nat {
    if notes == [] then 0
    else StemCount(notes[..|notes| - 1], stem) + (if BaseName(notes[|notes| - 1].title) == stem then 1 else 0)
  }

  /** The `zip.file` calls with the counter kept per stem. */
  function FilesByStem(notes: seq<Note>, render: Note -> seq<byte>): (r: seq<Entry>)
    ensures |r| == |notes|
  {
    if notes == [] then []
    else
      var prev := notes[..|notes| - 1];
      var stem := BaseName(notes[|notes| - 1].title);
      FilesByStem(prev, render) + [Entry(StemName(stem, StemCount(prev, stem)), render(notes[|notes| - 1]))]
  }

  lemma {:induction false} FileByStemAt(notes: seq<Note>, render: Note -> seq<byte>, j: nat)
    requires j < |notes|
    ensures FilesByStem(notes, render)[j]
         == Entry(StemName(BaseName(notes[j].title), StemCount(notes[..j], BaseName(notes[j].title))), render(notes[j]))
  {
    var prev := notes[..|notes| - 1];
    if j < |prev| {
      FileByStemKept(notes, render, j);
      FileByStemAt(prev, render, j);
      assert prev[..j] == notes[..j] && prev[j] == notes[j];
    } else {
      FileByStemLast(notes, render);
      assert prev == notes[..j];
    }
  }

  lemma FileByStemKept(notes: seq<Note>, render: Note -> seq<byte>, j: nat)
    requires j < |notes| - 1
    ensures FilesByStem(notes, render)[j] == FilesByStem(notes[..|notes| - 1], render)[j]
  {
  }

  lemma FileByStemLast(notes: seq<Note>, render: Note -> seq<byte>)
    requires notes != []
    ensures var prev := notes[..|notes| - 1];
            var stem := BaseName(notes[|notes| - 1].title);
            FilesByStem(notes, render)[|notes| - 1] == Entry(StemName(stem, StemCount(prev, stem)), render(notes[|notes| - 1]))
  {
  }

  lemma {:induction false} StemCountGrows(notes: seq<Note>, i: nat, j: nat)
    requires i < j <= |notes|
    ensures StemCount(notes[..i], BaseName(notes[i].title)) < StemCount(notes[..j], BaseName(notes[i].title))
  {
    var stem := BaseName(notes[i].title);
    var pre := notes[..j - 1];
    assert notes[..j][..j - 1] == pre && notes[..j][j - 1] == notes[j - 1];
    assert StemCount(notes[..j], stem) >= StemCount(pre, stem);
    if j == i + 1 {
      assert StemCount(notes[..j], stem) == StemCount(pre, stem) + 1;
    } else {
      StemCountGrows(notes, i, j - 1);
    }
  }

  predicate NoSpace(s: string) {
    forall i :: 0 <= i < |s| ==> s[i] != ' '
  }

  /** A stem never holds a space. */
  lemma StemNoSpace(title: Option<string>)
    ensures NoSpace(BaseName(title))
  {
    if title.Some? && title.value != "" {
      SlugShape(title.value);
    } else {
      assert BaseName(title) == "untitled";
    }
  }

  /** The position of the first space, or the length when there is none. */
  function SpaceIndex(s: string): (i: nat)
    ensures i <= |s|
  {
    if s == [] then 0 else if s[0] == ' ' then 0 else 1 + SpaceIndex(s[1..])
  }

  lemma {:induction false} SpaceIndexAt(b: string, rest: string)
    requires NoSpace(b)
    ensures SpaceIndex(b + rest) == |b| + SpaceIndex(rest)
  {
    if b == [] {
      assert b + rest == rest;
    } else {
      assert (b + rest)[1..] == b[1..] + rest;
      SpaceIndexAt(b[1..], rest);
    }
  }

  /** In a file name the first space ends the stem; without a counter there is no space. */
  lemma StemSpace(stem: string, k: nat)
    requires NoSpace(stem)
    ensures SpaceIndex(StemName(stem, k)) == if k == 0 then |stem| + 4 else |stem|
  {
    if k == 0 {
      var name := stem + ".pdf";
      assert StemName(stem, k) == name;
      assert NoSpace(name);
      SpaceIndexAt(name, []);
      assert name + [] == name;
    } else {
      var tail := Suffix(k) + ".pdf";
      assert StemName(stem, k) == stem + tail;
      SpaceIndexAt(stem, tail);
      assert tail[0] == ' ';
    }
  }

  /** File names made from stems tell both the stem and the counter apart. */
  lemma StemNameInjective(s1: string, k1: nat, s2: string, k2: nat)
    requires NoSpace(s1) && NoSpace(s2)
    ensures StemName(s1, k1) == StemName(s2, k2) <==> s1 == s2 && k1 == k2
  {
    var n := StemName(s1, k1);
    if n == StemName(s2, k2) {
      StemSpace(s1, k1);
      StemSpace(s2, k2);
      assert |s1| == |s2|;
      assert s1 == n[..|s1|] && s2 == n[..|s2|];
      assert Suffix(k1) == n[|s1|..|n| - 4] == Suffix(k2);
      SuffixInjective(k1, k2);
    }
  }

  /** With the counter kept per stem, every call writes a name of its own. */
  lemma FilesByStemDistinct(notes: seq<Note>, render: Note -> seq<byte>)
    ensures Distinct(Names(FilesByStem(notes, render)))
  {
    var files := FilesByStem(notes, render);
    forall i, j | 0 <= i < j < |files| ensures Names(files)[i] != Names(files)[j] {
      var si := BaseName(notes[i].title);
      var sj := BaseName(notes[j].title);
      FileByStemAt(notes, render, i);
      FileByStemAt(notes, render, j);
      StemNoSpace(notes[i].title);
      StemNoSpace(notes[j].title);
      if si == sj {
        StemCountGrows(notes, i, j);
      }
      StemNameInjective(si, StemCount(notes[..i], si), sj, StemCount(notes[..j], sj));
    }
  }

  /** With the counter kept per stem, the archive keeps every stored note, in order. */
  lemma BackupByStemKeepsEveryNote(notes: seq<Note>, render: Note -> seq<byte>)
    ensures ArchiveOf(FilesByStem(Included(notes), render)) == FilesByStem(Included(notes), render)
  {
    FilesByStemDistinct(Included(notes), render);
    ArchiveKeepsDistinct(FilesByStem(Included(notes), render));
  }

  /** Where titles with the same stem are the same title, counting per stem is counting per title. */
  lemma {:induction false} StemCountAgrees(notes: seq<Note>, t: Option<string>)
    requires forall i :: 0 <= i < |notes| && BaseName(notes[i].title) == BaseName(t) ==> notes[i].title == t
    ensures StemCount(notes, BaseName(t)) == Count(notes, t)
  {
    if notes != [] {
      var prev := notes[..|notes| - 1];
      assert forall i :: 0 <= i < |prev| ==> prev[i] == notes[i];
      StemCountAgrees(prev, t);
    }
  }

  /** When no two different titles share a stem, both counters give the same calls. */
  lemma {:induction false} FilesByStemAgrees(notes: seq<Note>, render: Note -> seq<byte>)
    requires forall i, j :: 0 <= i < |notes| && 0 <= j < |notes| && BaseName(notes[i].title) == BaseName(notes[j].title)
               ==> notes[i].title == notes[j].title
    ensures FilesByStem(notes, render) == Files(notes, render)
  {
    if notes != [] {
      var prev := notes[..|notes| - 1];
      var last := notes[|notes| - 1];
      assert forall i :: 0 <= i < |prev| ==> prev[i] == notes[i];
      FilesByStemAgrees(prev, render);
      StemCountAgrees(prev, last.title);
    }
  }
}
