/** The parts of Rust's `str` API that the tldr importer relies on:
    `trim`, `trim_matches` with a char pattern, `lines`, `split` on the
    separator "\n\n", and `join` on a slice of strings.  Strings are
    sequences of Unicode scalar values, as Rust's `char` is. */
module RustStr {

  /** `char::is_whitespace`: the characters with the Unicode White_Space property. */
  predicate IsWhitespace(c: char) {
    ('\t' <= c <= '\r') || c == ' ' || c == '\U{85}' || c == '\U{A0}' || c == '\U{1680}'
    || ('\U{2000}' <= c <= '\U{200A}') || c == '\U{2028}' || c == '\U{2029}'
    || c == '\U{202F}' || c == '\U{205F}' || c == '\U{3000}'
  }

  /** No whitespace at either end; what `trim` returns. */
  predicate Trimmed(s: string) {
    s == [] || (!IsWhitespace(s[0]) && !IsWhitespace(s[|s| - 1]))
  }

  predicate NoNewline(s: string) {
    forall k :: 0 <= k < |s| ==> s[k] != '\n'
  }

  /** Number of whitespace characters at the front of `s`. */
  function LeadingWhitespace(s: string): (n: nat)
    ensures n <= |s|
    decreases |s|
  {
    if s != [] && IsWhitespace(s[0]) then 1 + LeadingWhitespace(s[1..]) else 0
  }

  lemma {:induction false} LeadingWhitespaceSpec(s: string)
    ensures forall k :: 0 <= k < LeadingWhitespace(s) ==> IsWhitespace(s[k])
    ensures LeadingWhitespace(s) < |s| ==> !IsWhitespace(s[LeadingWhitespace(s)])
    decreases |s|
  {
    if s != [] && IsWhitespace(s[0]) {
      LeadingWhitespaceSpec(s[1..]);
    }
  }

  /** Index where the run of whitespace at the back of `s` begins. */
  function TrailingWhitespaceStart(s: string): (m: nat)
    ensures m <= |s|
    decreases |s|
  {
    if s != [] && IsWhitespace(s[|s| - 1]) then TrailingWhitespaceStart(s[..|s| - 1]) else |s|
  }

  lemma {:induction false} TrailingWhitespaceSpec(s: string)
    ensures forall k :: TrailingWhitespaceStart(s) <= k < |s| ==> IsWhitespace(s[k])
    ensures 0 < TrailingWhitespaceStart(s) ==> !IsWhitespace(s[TrailingWhitespaceStart(s) - 1])
    decreases |s|
  {
    if s != [] && IsWhitespace(s[|s| - 1]) {
      TrailingWhitespaceSpec(s[..|s| - 1]);
    }
  }

  /** `str::trim`: `s` without its leading and trailing whitespace. */
  function Trim(s: string): (r: string)
    ensures |r| <= |s|
    ensures Trimmed(r)
  {
    var t := s[LeadingWhitespace(s)..];
    LeadingWhitespaceSpec(s);
    TrailingWhitespaceSpec(t);
    t[..TrailingWhitespaceStart(t)]
  }

  /** `trim` returns a slice of its argument, starting after the leading
      whitespace. */
  lemma TrimSpec(s: string)
    ensures Trim(s) == s[LeadingWhitespace(s)..LeadingWhitespace(s) + |Trim(s)|]
  {
    var n := LeadingWhitespace(s);
    assert s[n..][..TrailingWhitespaceStart(s[n..])] == s[n..n + TrailingWhitespaceStart(s[n..])];
  }

  /** What `trim` removes, before and after that slice, is whitespace. */
  lemma TrimRemovesWhitespace(s: string)
    ensures forall k :: 0 <= k < LeadingWhitespace(s) ==> IsWhitespace(s[k])
    ensures forall k :: LeadingWhitespace(s) + |Trim(s)| <= k < |s| ==> IsWhitespace(s[k])
  {
    var n := LeadingWhitespace(s);
    var t := s[n..];
    LeadingWhitespaceSpec(s);
    TrailingWhitespaceSpec(t);
    forall k | n + TrailingWhitespaceStart(t) <= k < |s| ensures IsWhitespace(s[k]) {
      assert s[k] == t[k - n];
    }
  }

  /** `trim` gives the empty string exactly when `s` is all whitespace. */
  lemma TrimEmpty(s: string)
    ensures Trim(s) == [] <==> forall k :: 0 <= k < |s| ==> IsWhitespace(s[k])
  {
    var n := LeadingWhitespace(s);
    var t := s[n..];
    LeadingWhitespaceSpec(s);
    TrailingWhitespaceSpec(t);
    assert n < |s| ==> t[0] == s[n] && !IsWhitespace(t[0]);
  }

  /** Trimming a string that already has no whitespace at its ends, followed by
      whitespace only, gives back that string. */
  lemma TrimPadded(body: string, pad: string)
    requires body != [] && Trimmed(body)
    requires forall k :: 0 <= k < |pad| ==> IsWhitespace(pad[k])
    ensures Trim(body + pad) == body
  {
    var s := body + pad;
    assert s[0] == body[0];
    assert LeadingWhitespace(s) == 0;
    assert s[0..] == s;
    TrailingWhitespaceSpec(s);
    assert s[|body| - 1] == body[|body| - 1];
    assert TrailingWhitespaceStart(s) == |body|;
    assert s[..|body|] == body;
  }

  /** Number of copies of `c` at the front of `s`. */
  function LeadingRun(s: string, c: char): (n: nat)
    ensures n <= |s|
    decreases |s|
  {
    if s != [] && s[0] == c then 1 + LeadingRun(s[1..], c) else 0
  }

  lemma {:induction false} LeadingRunSpec(s: string, c: char)
    ensures forall k :: 0 <= k < LeadingRun(s, c) ==> s[k] == c
    ensures LeadingRun(s, c) < |s| ==> s[LeadingRun(s, c)] != c
    decreases |s|
  {
    if s != [] && s[0] == c {
      LeadingRunSpec(s[1..], c);
    }
  }

  /** Index where the run of copies of `c` at the back of `s` begins. */
  function TrailingRunStart(s: string, c: char): (m: nat)
    ensures m <= |s|
    decreases |s|
  {
    if s != [] && s[|s| - 1] == c then TrailingRunStart(s[..|s| - 1], c) else |s|
  }

  lemma {:induction false} TrailingRunSpec(s: string, c: char)
    ensures forall k :: TrailingRunStart(s, c) <= k < |s| ==> s[k] == c
    ensures 0 < TrailingRunStart(s, c) ==> s[TrailingRunStart(s, c) - 1] != c
    decreases |s|
  {
    if s != [] && s[|s| - 1] == c {
      TrailingRunSpec(s[..|s| - 1], c);
    }
  }

  /** `str::trim_matches(c)` for a char `c`: every copy of `c` at either end is
      removed, not just one, and nothing else is. */
  function TrimMatches(s: string, c: char): (r: string)
    ensures |r| <= |s|
    ensures r == [] || (r[0] != c && r[|r| - 1] != c)
  {
    var t := s[LeadingRun(s, c)..];
    LeadingRunSpec(s, c);
    TrailingRunSpec(t, c);
    t[..TrailingRunStart(t, c)]
  }

  /** `trim_matches` returns a slice of its argument, starting after the
      leading run of `c`. */
  lemma TrimMatchesSpec(s: string, c: char)
    ensures TrimMatches(s, c) == s[LeadingRun(s, c)..LeadingRun(s, c) + |TrimMatches(s, c)|]
  {
    var n := LeadingRun(s, c);
    assert s[n..][..TrailingRunStart(s[n..], c)] == s[n..n + TrailingRunStart(s[n..], c)];
  }

  /** What `trim_matches` removes, before and after that slice, is copies of `c`. */
  lemma TrimMatchesRemovesRuns(s: string, c: char)
    ensures forall k :: 0 <= k < LeadingRun(s, c) ==> s[k] == c
    ensures forall k :: LeadingRun(s, c) + |TrimMatches(s, c)| <= k < |s| ==> s[k] == c
  {
    var n := LeadingRun(s, c);
    var t := s[n..];
    LeadingRunSpec(s, c);
    TrailingRunSpec(t, c);
    forall k | n + TrailingRunStart(t, c) <= k < |s| ensures s[k] == c {
      assert s[k] == t[k - n];
    }
  }

  /** Index of the first `c` in `s`, or `|s|` when there is none. */
  function IndexOf(s: string, c: char): (n: nat)
    ensures n <= |s|
    decreases |s|
  {
    if s == [] then 0 else if s[0] == c then 0 else 1 + IndexOf(s[1..], c)
  }

  lemma {:induction false} IndexOfSpec(s: string, c: char)
    ensures forall k :: 0 <= k < IndexOf(s, c) ==> s[k] != c
    ensures IndexOf(s, c) < |s| ==> s[IndexOf(s, c)] == c
    decreases |s|
  {
    if s != [] && s[0] != c {
      IndexOfSpec(s[1..], c);
    }
  }

  /** Removes one trailing carriage return, as `lines` does before "\n". */
  function StripCarriageReturn(s: string): string {
    if s != [] && s[|s| - 1] == '\r' then s[..|s| - 1] else s
  }

  /** `str::lines`: pieces between "\n" terminators; a "\r" just before a "\n"
      goes with the terminator; a final terminator does not start an empty line. */
  function Lines(s: string): (r: seq<string>)
    ensures s != [] ==> r != []
    decreases |s|
  {
    if s == [] then []
    else
      var i := IndexOf(s, '\n');
      if i == |s| then [s]
      else [StripCarriageReturn(s[..i])] + Lines(s[i + 1..])
  }

  /** No line holds a newline. */
  lemma {:induction false} LinesHaveNoNewline(s: string)
    ensures forall k :: 0 <= k < |Lines(s)| ==> NoNewline(Lines(s)[k])
    decreases |s|
  {
    if s != [] {
      var i := IndexOf(s, '\n');
      IndexOfSpec(s, '\n');
      if i < |s| {
        LinesHaveNoNewline(s[i + 1..]);
      }
    }
  }

  /** "\n\n" occurs in `s` starting at `k`. */
  predicate BlankAt(s: string, k: int) {
    0 <= k && k + 1 < |s| && s[k] == '\n' && s[k + 1] == '\n'
  }

  /** Index of the first "\n\n" in `s`, or `|s|` when there is none. */
  function FirstBlank(s: string): (n: nat)
    ensures n <= |s|
    decreases |s|
  {
    if |s| < 2 then |s|
    else if s[0] == '\n' && s[1] == '\n' then 0
    else 1 + FirstBlank(s[1..])
  }

  lemma {:induction false} FirstBlankSpec(s: string)
    ensures FirstBlank(s) < |s| ==> BlankAt(s, FirstBlank(s))
    ensures forall k :: 0 <= k < FirstBlank(s) ==> !BlankAt(s, k)
    decreases |s|
  {
    if |s| >= 2 && !(s[0] == '\n' && s[1] == '\n') {
      var n := FirstBlank(s[1..]);
      FirstBlankSpec(s[1..]);
      assert forall k :: 1 <= k < 1 + n ==> (BlankAt(s, k) <==> BlankAt(s[1..], k - 1));
      if 1 + n < |s| {
        assert BlankAt(s[1..], n);
      }
    }
  }

  /** `[T]::join(sep)`. */
  function Join(xs: seq<string>, sep: string): string
    decreases |xs|
  {
    if xs == [] then [] else if |xs| == 1 then xs[0] else xs[0] + sep + Join(xs[1..], sep)
  }

  /** `str::split("\n\n")`: the pieces between non-overlapping "\n\n" separators,
      found left to right; never empty, and joining them back gives `s`. */
  function SplitBlank(s: string): (r: seq<string>)
    ensures r != []
    // each cut is at the leftmost separator: no piece but the last ends in "\n"
    ensures forall j :: 0 <= j < |r| - 1 ==> r[j] == [] || r[j][|r[j]| - 1] != '\n'
    decreases |s|
  {
    var i := FirstBlank(s);
    if i == |s| then [s]
    else
      FirstBlankSpec(s);
      assert i > 0 ==> !BlankAt(s, i - 1);
      [s[..i]] + SplitBlank(s[i + 2..])
  }

  /** Joining the pieces with the separator gives back the split string. */
  lemma {:induction false} SplitBlankJoin(s: string)
    ensures Join(SplitBlank(s), "\n\n") == s
    decreases |s|
  {
    var i := FirstBlank(s);
    if i < |s| {
      FirstBlankSpec(s);
      var rest := SplitBlank(s[i + 2..]);
      SplitBlankJoin(s[i + 2..]);
      var r := [s[..i]] + rest;
      assert SplitBlank(s) == r;
      assert r[1..] == rest;
      assert Join(r, "\n\n") == s[..i] + "\n\n" + s[i + 2..] == s;
    }
  }

  /** No piece of a split holds the separator. */
  lemma {:induction false} SplitBlankPieces(s: string)
    ensures forall j, k :: 0 <= j < |SplitBlank(s)| && 0 <= k < |SplitBlank(s)[j]| ==> !BlankAt(SplitBlank(s)[j], k)
    decreases |s|
  {
    var i := FirstBlank(s);
    FirstBlankSpec(s);
    if i < |s| {
      SplitBlankPieces(s[i + 2..]);
      assert forall k :: 0 <= k < |s[..i]| ==> (BlankAt(s[..i], k) ==> BlankAt(s, k));
    }
  }
}
