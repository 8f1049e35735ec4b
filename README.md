# tldr-page import, in Dafny

This project models the import side of askman (`src/import_tldr.rs`). `parse_tldr` reads one page in the tldr-pages layout and returns three things:

- the command name, which is the stem of the file name;
- the description, which is the `>` lines joined by one space;
- an examples text, written as `description\ncommand\n\n` per example and trimmed at the end.

The loop in `main` then reads the examples back. It splits that text on `"\n\n"`, skips blocks with fewer than two lines, and takes line 0 as the example description and line 1 as the example command. For each example it builds the text given to the embedding model, inserts one row, and adds one to `count`.

Files:

- `optional.dfy`: Rust's `Option`.
- `rust_str.dfy`: the string operations the importer relies on:
  - `trim` over Unicode White_Space;
  - `trim_matches` with a char;
  - `lines`, which splits at `\n`, drops one `\r` before it, and yields no empty last line;
  - `split("\n\n")`, which splits leftmost and without overlap;
  - `join`.
- `rust_path.dfy`: `Path::file_stem` and `Path::extension`, computed from the file name, including the special cases `..` and a leading dot.
- `import_tldr.dfy`: the import code itself:
  - `ParseTldr` is a loop over the page lines that mutates `descLines`, `examples` and `wantCode`. It is proved equal to the specification function `ParsePage`, a fold of `Step` over the lines.
  - `InsertExamples` is the per-page loop of `main`, and `Import` the loop over directory entries. Both are proved against `PageRows` and `ImportRows`.
  - The table insert is modelled as appending a `Row` to a sequence.
- `import_tldr_proofs.dfy`: the properties of the import code:
  - how the description is built;
  - which lines are ignored;
  - the `want_code` guard;
  - the round trip from a well-formed page through the examples text back to its (description, command) pairs;
  - what happens on pages that are not well formed.

A page is well formed when its `-` and backtick lines strictly alternate, starting with a `-` line and ending with a backtick line. In addition, every description must be non-empty, and every command must be non-empty with no whitespace just inside its backticks.

The round trip is stated against reference definitions:

- `Events` picks out the marker lines;
- `Pairs` groups them two by two;
- `Serialize` writes `desc\ncode\n\n` per pair.

`Events` reuses the parser's line classification `Classify`, so the text of a marker line is extracted by the same definition the parser uses; `Pairs` and `Serialize` do not reuse the parser.

`parse_tldr` does not trim the example command: after trimming the whole line it only strips backticks with `trim_matches('`')`, so whitespace just inside the backticks stays. This is why well-formedness asks for no such whitespace: without that condition, the final `trim` of the examples text could cut into the last command.

## Model

| member | source | states |
|---|---|---|
| RustStr.Trim | src/import_tldr.rs:123 | a trimmed line has no whitespace at either end and is no longer than the raw line |
| RustStr.TrimSpec | src/import_tldr.rs:123 | `trim` returns the slice of the line that starts right after its leading whitespace |
| RustStr.TrimRemovesWhitespace | src/import_tldr.rs:131 | whatever `trim` removes, before and after that slice, is whitespace |
| RustStr.TrimEmpty | src/import_tldr.rs:123-126 | a trimmed line is empty, and so skipped, exactly when the raw line is all whitespace |
| RustStr.TrimPadded | src/import_tldr.rs:154 | trimming text whose ends are not whitespace, followed by whitespace only, gives back that text |
| RustStr.TrimMatches | src/import_tldr.rs:144 | the recorded code text neither starts nor ends with a backtick |
| RustStr.TrimMatchesSpec | src/import_tldr.rs:144 | the code text is the slice of the line that starts after its whole leading run of backticks |
| RustStr.TrimMatchesRemovesRuns | src/import_tldr.rs:144 | everything `trim_matches` removes is a backtick, at both ends, every copy and not only one |
| RustStr.Lines | src/import_tldr.rs:64 | a non-empty text has at least one line |
| RustStr.LinesHaveNoNewline | src/import_tldr.rs:123 | no line of a page holds a newline |
| RustStr.SplitBlank | src/import_tldr.rs:63 | splitting on "\n\n" always yields at least one piece, and every cut is at the leftmost separator: no piece but the last ends in "\n" |
| RustStr.SplitBlankJoin | src/import_tldr.rs:63 | joining the pieces with "\n\n" gives back the examples text |
| RustStr.SplitBlankPieces | src/import_tldr.rs:63 | no piece contains "\n\n" |
| RustPath.FileStem | src/import_tldr.rs:118 | a stem exists exactly when a file name does, and it is a prefix of the file name |
| RustPath.Extension | src/import_tldr.rs:50 | an extension is a proper suffix of the file name that holds no dot |
| RustPath.MarkdownFileName | src/import_tldr.rs:50 | "cmd.md" has extension "md", so it is processed, and its stem, the command name, is "cmd" |
| RustPath.DotlessFileName | src/import_tldr.rs:50 | a file name without a dot has no extension, so it is skipped, and is its own stem |
| ImportTldr.ParsePage | src/import_tldr.rs:117-155 | parsing fails exactly when there is no file name, whatever the content; the name is the file stem; the examples text has no whitespace at its ends |
| ImportTldr.ParseTldr | src/import_tldr.rs:117-155 | the line loop with its three state variables returns what the fold of `Step` over the page lines specifies |
| ImportTldr.BlockExample | src/import_tldr.rs:64-70 | one block yields at most one example |
| ImportTldr.ExtractExamples | src/import_tldr.rs:63-70 | there are never more examples than blocks |
| ImportTldr.EmbeddingText | src/import_tldr.rs:73-76 | the embedding input holds, at fixed offsets, the example description, the command name, the page description, the example description again and the example command |
| ImportTldr.RowsOf | src/import_tldr.rs:85-95 | one row per example, in order, each carrying the command name, the page description, that example's two fields and the embedding text built from them by the template |
| ImportTldr.InsertExamples | src/import_tldr.rs:63-97 | the block loop inserts exactly the rows of the decoded examples, and `count` grows by their number |
| ImportTldr.Import | src/import_tldr.rs:46-98 | the entry loop inserts, in entry order, the rows of every `md` entry and none for other entries; `count` is the number of rows |
| ImportTldrProofs.DescriptionLines | src/import_tldr.rs:129-137 | after any run of lines, `desc_lines` is its old value followed by the `>` lines, marker removed and trimmed, in order |
| ImportTldrProofs.PageDescription | src/import_tldr.rs:129-152 | the description is the `>` lines, marker removed and trimmed, joined by one space; with no `>` line it is empty |
| ImportTldrProofs.IgnoredLineIrrelevant | src/import_tldr.rs:123-148 | removing a blank line, or one whose first character is not `>`, `-` or a backtick, from anywhere in a page changes nothing: not the outputs, not `want_code` |
| ImportTldrProofs.CodeWithoutItemIgnored | src/import_tldr.rs:143-147 | with no `-` line, backtick lines add nothing to the examples text and `want_code` stays false |
| ImportTldrProofs.PageWithoutItems | src/import_tldr.rs:138-154 | a page with no `-` line has an empty examples text and yields no example |
| ImportTldrProofs.CodeLinesIgnored | src/import_tldr.rs:143-147 | while no description is pending, any run of backtick lines changes nothing |
| ImportTldrProofs.SecondCodeLineIgnored | src/import_tldr.rs:141-147 | a backtick line consumes the pending description: any backtick lines right after it are ignored |
| ImportTldrProofs.ExamplesFromEvents | src/import_tldr.rs:138-147 | the examples text depends only on the `-` and backtick lines, through `Emit` |
| ImportTldrProofs.ClassifyText | src/import_tldr.rs:128-147 | the text recorded from a line holds no newline, and an example description is trimmed |
| ImportTldrProofs.EventsText | src/import_tldr.rs:123-147 | the same for every marker line of a page |
| ImportTldrProofs.EmitWellFormed | src/import_tldr.rs:138-147 | on strictly alternating marker lines the parser writes `desc\ncode\n\n` per pair, in order |
| ImportTldrProofs.BlockLines | src/import_tldr.rs:69-70 | the block `desc\ncode` of a clean pair has exactly the lines `desc` and `code`, so it decodes to that pair |
| ImportTldrProofs.DecodeSerialized | src/import_tldr.rs:63-70 | splitting serialised clean pairs followed by any text gives back those pairs, followed by the examples of that text |
| ImportTldrProofs.DecodeTrimmedSerialized | src/import_tldr.rs:63-70 | decoding the trimmed serialisation of clean pairs gives back exactly those pairs |
| ImportTldrProofs.RoundTrip | src/import_tldr.rs:138-147 | on a well-formed page, the examples read back by `main` are exactly the (description, command) pairs of the page, in page order |
| ImportTldrProofs.TrailingItemDropped | src/import_tldr.rs:63-67 | a final `-` line with no code line after it produces no example; the pairs before it are all kept |
| ImportTldrProofs.ConsecutiveItemsMisalign | src/import_tldr.rs:138-147 | two `-` lines before one backtick line yield one example whose command is the second description, and the code is lost |
| ImportTldrProofs.ExamplesPerBlock | src/import_tldr.rs:63-67 | there is one example per block with at least two lines |
| ImportTldrProofs.PageCount | src/import_tldr.rs:63-97 | a page adds to `count` the number of blocks of its examples text with at least two lines |
| ImportTldrProofs.EntryRoundTrip | src/import_tldr.rs:60-95 | the rows of a well-formed `md` page carry its file stem, its joined description and its pairs, in order |

## Left out

- The embedding model and its vectors are left out, because they are a foreign library producing floats. A row holds the text given to the model (`EmbeddingText`) in place of the vector.
- SQLite is left out, because it is database I/O through foreign calls. This covers registering the extension, dropping and creating the table, and the inserts themselves. An insert is modelled as appending one `Row`.
- Directory walking is left out, because it is filesystem I/O. This covers `read_dir`, its order, `read_to_string`, and every I/O error returned with `?`. `Import` takes the entries as a sequence of (file name, content) pairs, in the order the directory yields them.
- `to_str` and `to_string_lossy` are left out, because every file name is taken to be valid Unicode.
- `println!` output is left out, because it is only printing.
- The test at src/import_tldr.rs:163-262 is left out, because it exercises the real database and embedding model.
- src/main.rs is not part of this model. It covers command-line parsing, the query and the floating-point distance threshold.
- InsertExamples: `count` is an `i32` in the source and is modelled as an unbounded `nat`; overflow past 2^31 - 1 rows (a panic in debug builds, wrap-around in release builds) is not modelled.
- Import: the same for the running `count` over all entries.
- ParsePage: the panic of `unwrap` on a missing file stem is modelled as `None`. For an entry, `Path::file_name` is the entry's `fileName` and is always present.
- BlockExample: the contract states only "at most one example". Which lines it takes is stated by ImportTldrProofs.BlockLines and ImportTldrProofs.ExamplesPerBlock.
- ExtractExamples: the contract states only the bound on the number of examples. The exact count is stated by ImportTldrProofs.ExamplesPerBlock.
- Lines: the contract states only non-emptiness. The absence of newlines in the lines is stated by RustStr.LinesHaveNoNewline.
- FileStem: the contract states that the stem is a prefix of the file name. The cases of `..`, a leading dot and a missing dot are in its body, and are stated only for "cmd.md" and dotless names, in MarkdownFileName and DotlessFileName.
- Extension: the contract states that the extension is a dot-free proper suffix. It does not state the cases where there is none.
