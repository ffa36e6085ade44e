/**
 * The document written out (index.js:12-13, index.js:303-310): one section per
 * guide, in sorted order, each an optional source note and the guide's text
 * with its trailing whitespace trimmed, joined by a horizontal rule, with a
 * final newline.
 */
module Assembly {
  import opened Wrappers
  import opened JsText
  import opened RecordOrder

  /** `STRIP_FRONTMATTER` and `INCLUDE_SOURCE_NOTES`. */
  datatype Config = Config(stripFrontmatter: bool, includeSourceNotes: bool)

  /** Both switches are on in the program. */
  const Defaults := Config(true, true)

  /** What goes between two sections: a blank line, a rule and a blank line. */
  const SectionSeparator := "\n\n---\n\n"

  /** The HTML comment naming the guide a section comes from. */
  function SourceNote(path: string): string {
    "<!-- Source: " + path + " -->\n"
  }

  /** The note a section starts with: the source note, or nothing when notes are off. */
  function NoteOf(cfg: Config, f: FileRecord): string {
    if cfg.includeSourceNotes then SourceNote(f.path) else ""
  }

  /** The text a section shows: the body without frontmatter, or the whole file. */
  function TextOf(cfg: Config, f: FileRecord): string {
    if cfg.stripFrontmatter then f.body else f.content
  }

  /** One element of `sections`. */
  function Section(cfg: Config, f: FileRecord): string {
    NoteOf(cfg, f) + TrimEnd(TextOf(cfg, f))
  }

  /** `files.map(...)`: the sections in the order of the files. */
  function Sections(cfg: Config, files: seq<FileRecord>): (r: seq<string>)
    ensures |r| == |files|
    ensures forall i :: 0 <= i < |files| ==> r[i] == Section(cfg, files[i])
  {
    seq(|files|, i requires 0 <= i < |files| => Section(cfg, files[i]))
  }

  /** `${sections.join('\n\n---\n\n')}\n`. */
  function Document(cfg: Config, files: seq<FileRecord>): string {
    Join(Sections(cfg, files), SectionSeparator) + "\n"
  }

  /**
   * A section is its note followed by the guide's text cut just before its
   * trailing whitespace: what is cut is all whitespace and what is kept does
   * not end in whitespace.
   */
  lemma SectionParts(cfg: Config, f: FileRecord)
    ensures var s := Section(cfg, f);
      var note := NoteOf(cfg, f);
      var text := TextOf(cfg, f);
      && StartsWith(s, note)
      && var kept := s[|note|..];
      && StartsWith(text, kept)
      && AllSpace(text[|kept|..])
      && (kept == [] || !IsSpace(kept[|kept| - 1]))
  {
    var note := NoteOf(cfg, f);
    var text := TextOf(cfg, f);
    TrimEndParts(text);
    var s := Section(cfg, f);
    assert s[..|note|] == note;
    assert s[|note|..] == TrimEnd(text);
  }

  /** Where the section of `files[i]` starts in the document. */
  function SectionStart(cfg: Config, files: seq<FileRecord>, i: nat): nat
    requires i < |files|
  {
    Offset(Sections(cfg, files), SectionSeparator, i)
  }

  /** Where the section of `files[i]` ends in the document. */
  function SectionEnd(cfg: Config, files: seq<FileRecord>, i: nat): nat
    requires i < |files|
  {
    SectionStart(cfg, files, i) + |Section(cfg, files[i])|
  }

  /** Where the separator after the section of `files[i]` ends: the start of the next one. */
  function SeparatorEnd(cfg: Config, files: seq<FileRecord>, i: nat): nat
    requires i + 1 < |files|
  {
    SectionStart(cfg, files, i + 1)
  }

  /** A slice of the joined sections is the same slice of the document. */
  lemma DocumentSlice(cfg: Config, files: seq<FileRecord>, x: nat, y: nat)
    requires x <= y <= |Join(Sections(cfg, files), SectionSeparator)|
    ensures Document(cfg, files)[x..y] == Join(Sections(cfg, files), SectionSeparator)[x..y]
  {
  }

  /**
   * The document is the joined sections and one newline: the last section
   * ends just before that newline.
   */
  lemma DocumentLength(cfg: Config, files: seq<FileRecord>)
    requires files != []
    ensures |Document(cfg, files)| == SectionEnd(cfg, files, |files| - 1) + 1
    ensures Document(cfg, files)[|Document(cfg, files)| - 1] == '\n'
  {
    var secs := Sections(cfg, files);
    var joined := Join(secs, SectionSeparator);
    var n := |files| - 1;
    JoinLength(secs, SectionSeparator);
    assert secs[n] == Section(cfg, files[n]);
    assert SectionEnd(cfg, files, n) == Offset(secs, SectionSeparator, n) + |secs[n]|;
    assert Document(cfg, files) == joined + "\n";
  }

  /** Each guide's section sits in the document at its place, in the order of the files. */
  lemma DocumentSections(cfg: Config, files: seq<FileRecord>)
    ensures forall i :: 0 <= i < |files| ==>
      && SectionEnd(cfg, files, i) < |Document(cfg, files)|
      && Document(cfg, files)[SectionStart(cfg, files, i)..SectionEnd(cfg, files, i)] == Section(cfg, files[i])
  {
    var secs := Sections(cfg, files);
    forall i | 0 <= i < |files|
      ensures SectionEnd(cfg, files, i) < |Document(cfg, files)|
      ensures Document(cfg, files)[SectionStart(cfg, files, i)..SectionEnd(cfg, files, i)] == Section(cfg, files[i])
    {
      JoinPart(secs, SectionSeparator, i);
      DocumentSlice(cfg, files, SectionStart(cfg, files, i), SectionEnd(cfg, files, i));
    }
  }

  /** Between each two neighbouring sections the document holds exactly the separator. */
  lemma DocumentSeparators(cfg: Config, files: seq<FileRecord>)
    ensures forall i :: 0 <= i < |files| - 1 ==>
      && SeparatorEnd(cfg, files, i) < |Document(cfg, files)|
      && Document(cfg, files)[SectionEnd(cfg, files, i)..SeparatorEnd(cfg, files, i)] == SectionSeparator
  {
    var secs := Sections(cfg, files);
    forall i | 0 <= i < |files| - 1
      ensures SeparatorEnd(cfg, files, i) < |Document(cfg, files)|
      ensures Document(cfg, files)[SectionEnd(cfg, files, i)..SeparatorEnd(cfg, files, i)] == SectionSeparator
    {
      JoinSeparator(secs, SectionSeparator, i);
      JoinPart(secs, SectionSeparator, i);
      DocumentSlice(cfg, files, SectionEnd(cfg, files, i), SeparatorEnd(cfg, files, i));
    }
  }

  /**
   * The newline at the end is the only one there when the last guide has
   * text left after trimming; when it has none and notes are on, the last
   * section is a bare source note and the document ends in two newlines.
   */
  lemma DocumentEnding(cfg: Config, files: seq<FileRecord>)
    requires files != []
    ensures var doc := Document(cfg, files);
      var last := files[|files| - 1];
      && |doc| >= 1 && doc[|doc| - 1] == '\n'
      && (TrimEnd(TextOf(cfg, last)) != [] ==> |doc| >= 2 && !IsSpace(doc[|doc| - 2]))
      && (cfg.includeSourceNotes && TrimEnd(TextOf(cfg, last)) == [] ==> |doc| >= 2 && doc[|doc| - 2] == '\n')
  {
    var doc := Document(cfg, files);
    var n := |files| - 1;
    var s := Section(cfg, files[n]);
    DocumentLength(cfg, files);
    DocumentSections(cfg, files);
    assert doc[SectionStart(cfg, files, n)..SectionEnd(cfg, files, n)] == s;
    if s != [] {
      assert doc[|doc| - 2] == s[|s| - 1];
      var text := TrimEnd(TextOf(cfg, files[n]));
      if text != [] {
        assert s[|s| - 1] == text[|text| - 1];
      } else if cfg.includeSourceNotes {
        assert s == SourceNote(files[n].path);
      }
    }
  }

  /** Concretely: a last guide whose body is only whitespace leaves a blank line at the end. */
  lemma BlankLastBodyEndsInTwoNewlines(path: string, content: string, body: string)
    requires AllSpace(body)
    ensures var files := [FileRecord(path, content, body, None)];
      Document(Defaults, files) == SourceNote(path) + "\n"
  {
    TrimEndParts(body);
  }
}
