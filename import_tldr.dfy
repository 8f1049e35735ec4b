/** The tldr-page importer: `parse_tldr`, which reads one page in the
    tldr-pages layout, and the loop of `main` that splits the parsed examples
    back into (description, command) records and stores one row per example.

    A page looks like
      # tar
      > Archiving utility.
      > More information: <https://...>.

      - Create an archive from files:
      `tar cf {{target.tar}} {{file1}} {{file2}}`
*/
module ImportTldr {
  import opened Optional
  import opened RustStr
  import opened RustPath

  /** What one trimmed page line means to the parser. */
  datatype LineKind =
    | Ignored                   // blank, the "# name" title, or any other first character
    | DescLine(text: string)    // "> text": part of the page description
    | ItemLine(text: string)    // "- text": the description of an example
    | CodeLine(text: string)    // "`text`": the command of an example

  /** The loop state of `parse_tldr`: the `desc_lines` vector, the `examples`
      buffer and the `want_code` flag. */
  datatype ParseState = ParseState(descLines: seq<string>, examples: string, wantCode: bool)

  /** What `parse_tldr` returns: command name, description and the serialised examples. */
  datatype Page = Page(name: string, description: string, examples: string)

  /** One example as `main` reads it back: line 0 and line 1 of a block. */
  datatype Example = Example(desc: string, code: string)

  /** One inserted row of the `pages_vec` table, with the text that is given to
      the embedding model in place of the embedding itself. */
  datatype Row = Row(command: string, description: string, exampleDesc: string,
                     exampleCmd: string, embeddingText: string)

  /** A directory entry: its file name and the text of the file. */
  datatype Entry = Entry(fileName: string, content: string)

  function Classify(raw: string): LineKind {
    var line := Trim(raw);
    if line == [] then Ignored
    else if line[0] == '>' then DescLine(Trim(line[1..]))
    else if line[0] == '-' then ItemLine(Trim(line[1..]))
    else if line[0] == '`' then CodeLine(TrimMatches(line, '`'))
    else Ignored
  }

  /** One iteration of the `parse_tldr` loop. */
  function Step(st: ParseState, raw: string): ParseState {
    match Classify(raw)
    case Ignored => st
    case DescLine(t) => st.(descLines := st.descLines + [t])
    case ItemLine(t) => st.(examples := st.examples + t + "\n", wantCode := true)
    case CodeLine(t) =>
      if st.wantCode then st.(examples := st.examples + t + "\n\n", wantCode := false) else st
  }

  const Start := ParseState([], "", false)

  /** The `parse_tldr` loop run over `lines` from state `st`. */
  function ParseFrom(st: ParseState, lines: seq<string>): ParseState
    decreases |lines|
  {
    if lines == [] then st else ParseFrom(Step(st, lines[0]), lines[1..])
  }

  /** `parse_tldr(md, file)` where `fileName` is `file.file_name()`.  None is the
      panic of `unwrap` on a missing file stem: whatever the content, parsing
      fails exactly then, the name is the stem of the file name, and the
      examples text is trimmed. */
  function ParsePage(md: string, fileName: Option<string>): (r: Option<Page>)
    ensures r.Some? <==> fileName.Some?
    ensures r.Some? ==> Some(r.value.name) == FileStem(fileName)
    ensures r.Some? ==> Trimmed(r.value.examples)
  {
    match FileStem(fileName)
    case None => None
    case Some(name) =>
      var st := ParseFrom(Start, Lines(md));
      Some(Page(name, Join(st.descLines, " "), Trim(st.examples)))
  }

  /** `parse_tldr`: one pass over the lines of the page. */
  method ParseTldr(md: string, fileName: Option<string>) returns (r: Option<Page>)
    ensures r == ParsePage(md, fileName)
  {
    var stem := FileStem(fileName);
    if stem.None? {
      return None;
    }
    var name := stem.value;
    var descLines: seq<string> := [];
    var examples: string := "";
    var wantCode := false;
    var lines := Lines(md);
    var i := 0;
    while i < |lines|
      invariant 0 <= i <= |lines|
      invariant ParseFrom(ParseState(descLines, examples, wantCode), lines[i..]) == ParseFrom(Start, lines)
    {
      ghost var before := ParseState(descLines, examples, wantCode);
      assert lines[i..][1..] == lines[i + 1..];
      var line := Trim(lines[i]);
      if line != [] {
        if line[0] == '>' {
          descLines := descLines + [Trim(line[1..])];
        } else if line[0] == '-' {
          examples := examples + Trim(line[1..]) + "\n";
          wantCode := true;
        } else if line[0] == '`' && wantCode {
          examples := examples + TrimMatches(line, '`') + "\n\n";
          wantCode := false;
        }
      }
      assert ParseState(descLines, examples, wantCode) == Step(before, lines[i]);
      i := i + 1;
    }
    assert lines[i..] == [];
    r := Some(Page(name, Join(descLines, " "), Trim(examples)));
  }

  /** The example `main` reads from one block of `examples.split("\n\n")`:
      none when the block has fewer than two lines, otherwise its lines 0 and 1
      as the description and the command. */
  function BlockExample(block: string): (r: seq<Example>)
    ensures |r| <= 1
  {
    var lines := Lines(block);
    if |lines| < 2 then [] else [Example(lines[0], lines[1])]
  }

  /** The examples read from a sequence of blocks, in order. */
  function ExtractExamples(blocks: seq<string>): (r: seq<Example>)
    ensures |r| <= |blocks|
    decreases |blocks|
  {
    if blocks == [] then [] else BlockExample(blocks[0]) + ExtractExamples(blocks[1..])
  }

  lemma {:induction false} ExtractExamplesAppend(a: seq<string>, b: seq<string>)
    ensures ExtractExamples(a + b) == ExtractExamples(a) + ExtractExamples(b)
    decreases |a|
  {
    if a != [] {
      assert (a + b)[0] == a[0] && (a + b)[1..] == a[1..] + b;
      ExtractExamplesAppend(a[1..], b);
    } else {
      assert a + b == b;
    }
  }

  function Decode(examples: string): seq<Example> {
    ExtractExamples(SplitBlank(examples))
  }

  /** The text given to the embedding model for one example: the example
      description, the command name, the page description, the example
      description again and the example command, each at a fixed place. */
  function EmbeddingText(exampleDesc: string, command: string, description: string,
                         exampleCmd: string): (r: string)
    ensures var o2 := 6 + |exampleDesc| + 11;
            var o3 := o2 + |command| + 15;
            var o4 := o3 + |description| + 11;
            var o5 := o4 + |exampleDesc| + 1;
            |r| == o5 + |exampleCmd|
            && r[6..6 + |exampleDesc|] == exampleDesc
            && r[o2..o2 + |command|] == command
            && r[o3..o3 + |description|] == description
            && r[o4..o4 + |exampleDesc|] == exampleDesc
            && r[o5..] == exampleCmd
  {
    "Task: " + exampleDesc + ". Command: " + command + ". Description: " + description
    + ". Example: " + exampleDesc + " " + exampleCmd
  }

  function MakeRow(command: string, description: string, ex: Example): Row {
    Row(command, description, ex.desc, ex.code, EmbeddingText(ex.desc, command, description, ex.code))
  }

  /** The rows inserted for the examples of one page, in order. */
  function RowsOf(command: string, description: string, exs: seq<Example>): (r: seq<Row>)
    ensures |r| == |exs|
    ensures forall k :: 0 <= k < |r| ==>
      r[k].command == command && r[k].description == description
      && r[k].exampleDesc == exs[k].desc && r[k].exampleCmd == exs[k].code
      && r[k].embeddingText == EmbeddingText(exs[k].desc, command, description, exs[k].code)
    decreases |exs|
  {
    if exs == [] then [] else [MakeRow(command, description, exs[0])] + RowsOf(command, description, exs[1..])
  }

  lemma {:induction false} RowsOfAppend(command: string, description: string, a: seq<Example>, b: seq<Example>)
    ensures RowsOf(command, description, a + b) == RowsOf(command, description, a) + RowsOf(command, description, b)
    decreases |a|
  {
    if a != [] {
      assert (a + b)[0] == a[0] && (a + b)[1..] == a[1..] + b;
      RowsOfAppend(command, description, a[1..], b);
    } else {
      assert a + b == b;
    }
  }

  lemma ExtractExamplesSnoc(blocks: seq<string>, j: nat)
    requires j < |blocks|
    ensures ExtractExamples(blocks[..j + 1]) == ExtractExamples(blocks[..j]) + BlockExample(blocks[j])
  {
    assert blocks[..j + 1] == blocks[..j] + [blocks[j]];
    ExtractExamplesAppend(blocks[..j], [blocks[j]]);
    assert ExtractExamples([blocks[j]]) == BlockExample(blocks[j]) + [];
  }

  lemma RowsOfSnoc(command: string, description: string, exs: seq<Example>, ex: Example)
    ensures RowsOf(command, description, exs + [ex]) == RowsOf(command, description, exs) + [MakeRow(command, description, ex)]
  {
    RowsOfAppend(command, description, exs, [ex]);
  }

  /** The rows inserted for one parsed page. */
  function PageRows(page: Page): seq<Row> {
    RowsOf(page.name, page.description, Decode(page.examples))
  }

  /** Only files whose extension is "md" are pages. */
  predicate IsPage(fileName: string) {
    Extension(Some(fileName)) == Some("md")
  }

  /** The rows inserted for one directory entry: none unless it is a page. */
  function EntryRows(e: Entry): seq<Row> {
    if !IsPage(e.fileName) then [] else PageRows(ParsePage(e.content, Some(e.fileName)).value)
  }

  /** The rows inserted for a sequence of directory entries, in order. */
  function ImportRows(entries: seq<Entry>): seq<Row>
    decreases |entries|
  {
    if entries == [] then []
    else ImportRows(entries[..|entries| - 1]) + EntryRows(entries[|entries| - 1])
  }

  lemma ImportRowsSnoc(entries: seq<Entry>, i: nat)
    requires i < |entries|
    ensures ImportRows(entries[..i + 1]) == ImportRows(entries[..i]) + EntryRows(entries[i])
  {
    assert entries[..i + 1][..i] == entries[..i];
  }

  /** The inner loop of `main` for one page: each block of
      `examples.split("\n\n")` with at least two lines inserts one row and
      adds one to `count`; shorter blocks are skipped. */
  method InsertExamples(page: Page) returns (rows: seq<Row>, count: nat)
    ensures rows == PageRows(page)
    ensures count == |rows|
  {
    rows := [];
    count := 0;
    var blocks := SplitBlank(page.examples);
    var j := 0;
    while j < |blocks|
      invariant 0 <= j <= |blocks|
      invariant rows == RowsOf(page.name, page.description, ExtractExamples(blocks[..j]))
      invariant count == |rows|
    {
      ExtractExamplesSnoc(blocks, j);
      ghost var done := ExtractExamples(blocks[..j]);
      var lines := Lines(blocks[j]);
      if |lines| < 2 {
        assert ExtractExamples(blocks[..j + 1]) == done + [] == done;
        j := j + 1;
        continue;
      }
      var ex := Example(lines[0], lines[1]);
      assert ExtractExamples(blocks[..j + 1]) == done + [ex];
      RowsOfSnoc(page.name, page.description, done, ex);
      rows := rows + [MakeRow(page.name, page.description, ex)];
      count := count + 1;
      j := j + 1;
    }
    assert blocks[..j] == blocks;
  }

  /** The import loop of `main` over the entries of the page directory, with
      the table inserts modelled as appending to `rows`; `count` counts them. */
  method Import(entries: seq<Entry>) returns (rows: seq<Row>, count: nat)
    ensures rows == ImportRows(entries)
    ensures count == |rows|
  {
    rows := [];
    count := 0;
    var i := 0;
    while i < |entries|
      invariant 0 <= i <= |entries|
      invariant rows == ImportRows(entries[..i])
      invariant count == |rows|
    {
      var entry := entries[i];
      ImportRowsSnoc(entries, i);
      if !IsPage(entry.fileName) {
        assert rows + [] == rows;
        i := i + 1;
        continue;
      }
      var parsed := ParseTldr(entry.content, Some(entry.fileName));
      assert EntryRows(entry) == PageRows(parsed.value);
      var pageRows, pageCount := InsertExamples(parsed.value);
      rows, count := rows + pageRows, count + pageCount;
      i := i + 1;
    }
    assert entries[..i] == entries;
  }
}
