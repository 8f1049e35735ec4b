/** The parts of Rust's `std::path::Path` that the tldr importer relies on:
    `file_stem` and `extension`, both computed from the final component
    (`file_name`) of a path. */
module RustPath {
  import opened Optional

  /** Index of the last '.' in `s`. */
  function LastDot(s: string): (r: Option<nat>)
    ensures r.Some? ==> r.value < |s| && s[r.value] == '.'
    ensures r.Some? ==> forall k :: r.value < k < |s| ==> s[k] != '.'
    ensures r.None? ==> forall k :: 0 <= k < |s| ==> s[k] != '.'
    decreases |s|
  {
    if s == [] then None
    else if s[|s| - 1] == '.' then Some(|s| - 1)
    else LastDot(s[..|s| - 1])
  }

  /** `rsplit_file_at_dot`: the parts of a file name before and after its last
      dot.  ".." and names whose only dot is the first character (".bashrc")
      are all "before". */
  function SplitAtLastDot(file: string): (Option<string>, Option<string>) {
    if file == ".." then (Some(file), None)
    else match LastDot(file)
      case None => (None, Some(file))
      case Some(i) => if i == 0 then (Some(file), None) else (Some(file[..i]), Some(file[i + 1..]))
  }

  /** `Path::file_stem` given `Path::file_name`: fails only when there is no
      file name, and is then a prefix of that name. */
  function FileStem(fileName: Option<string>): (r: Option<string>)
    ensures r.Some? <==> fileName.Some?
    ensures r.Some? ==> |r.value| <= |fileName.value| && r.value == fileName.value[..|r.value|]
  {
    match fileName
    case None => None
    case Some(file) =>
      var (before, after) := SplitAtLastDot(file);
      if before.Some? then before else after
  }

  /** `Path::extension` given `Path::file_name`: the text after the last dot,
      when that dot is not the first character; it holds no dot itself. */
  function Extension(fileName: Option<string>): (r: Option<string>)
    ensures r.Some? ==> fileName.Some? && |r.value| < |fileName.value|
    ensures r.Some? ==> r.value == fileName.value[|fileName.value| - |r.value|..]
    ensures r.Some? ==> forall k :: 0 <= k < |r.value| ==> r.value[k] != '.'
  {
    match fileName
    case None => None
    case Some(file) =>
      var (before, after) := SplitAtLastDot(file);
      if before.Some? then after else None
  }

  /** A tldr page "tar.md" is the page of the command "tar". */
  lemma MarkdownFileName(command: string)
    requires command != []
    ensures Extension(Some(command + ".md")) == Some("md")
    ensures FileStem(Some(command + ".md")) == Some(command)
  {
    var file := command + ".md";
    assert file[|command|] == '.';
    assert file[|command| + 1..] == "md";
    assert file[..|command|] == command;
    assert LastDot(file) == Some(|command|);
  }

  /** A file name without a dot is its own stem and has no extension. */
  lemma DotlessFileName(file: string)
    requires file != [] && forall k :: 0 <= k < |file| ==> file[k] != '.'
    ensures Extension(Some(file)) == None
    ensures FileStem(Some(file)) == Some(file)
  {
    assert LastDot(file) == None;
  }
}
