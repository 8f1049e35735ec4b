/** What `parse_tldr` and the example loop of `main` promise about a page:
    the description is the "> " lines in order, lines that are not markers
    change nothing, a code line counts only after a "- " line, and on a
    well-formed page the examples text splits back into exactly the
    (description, command) pairs of the page. */
module ImportTldrProofs {
  import opened Optional
  import opened RustStr
  import opened RustPath
  import opened ImportTldr

  // ---------------------------------------------------------------------------
  // Reference definitions

  /** The description lines of a page, in order: every line whose first
      non-blank character is '>', without the marker and trimmed. */
  function DescTexts(lines: seq<string>): seq<string>
    decreases |lines|
  {
    if lines == [] then [] else DescText(lines[0]) + DescTexts(lines[1..])
  }

  function DescText(line: string): seq<string> {
    var t := Trim(line);
    if t != [] && t[0] == '>' then [Trim(t[1..])] else []
  }

  predicate IsMarker(k: LineKind) {
    k.ItemLine? || k.CodeLine?
  }

  /** The "- " and "`" lines of a page, in order. */
  function Events(lines: seq<string>): seq<LineKind>
    decreases |lines|
  {
    if lines == [] then []
    else (if IsMarker(Classify(lines[0])) then [Classify(lines[0])] else []) + Events(lines[1..])
  }

  /** The text the parser appends for a sequence of marker lines, starting
      with the flag `wantCode`. */
  function Emit(wantCode: bool, events: seq<LineKind>): string
    decreases |events|
  {
    if events == [] then []
    else match events[0]
      case ItemLine(t) => t + "\n" + Emit(true, events[1..])
      case CodeLine(t) =>
        if wantCode then t + "\n\n" + Emit(false, events[1..]) else Emit(false, events[1..])
      case _ => Emit(wantCode, events[1..])
  }

  /** "- " and "`" lines strictly alternate, starting with "- " and ending with
      "`"; every description is non-empty and every command is non-empty with
      no whitespace just inside its backticks. */
  predicate WellFormedEvents(events: seq<LineKind>)
    decreases |events|
  {
    events == []
    || (|events| >= 2 && events[0].ItemLine? && events[1].CodeLine?
        && events[0].text != [] && events[1].text != [] && Trimmed(events[1].text)
        && WellFormedEvents(events[2..]))
  }

  predicate WellFormedPage(md: string) {
    WellFormedEvents(Events(Lines(md)))
  }

  /** The (description, command) pairs of an alternating marker sequence. */
  function Pairs(events: seq<LineKind>): seq<Example>
    requires WellFormedEvents(events)
    decreases |events|
  {
    if events == [] then [] else [Example(events[0].text, events[1].text)] + Pairs(events[2..])
  }

  function Block(ex: Example): string {
    ex.desc + "\n" + ex.code
  }

  /** The examples buffer as the parser builds it: "desc\ncode\n\n" per example. */
  function Serialize(exs: seq<Example>): string
    decreases |exs|
  {
    if exs == [] then [] else Block(exs[0]) + "\n\n" + Serialize(exs[1..])
  }

  predicate Clean(s: string) {
    s != [] && NoNewline(s) && Trimmed(s)
  }

  predicate CleanExample(ex: Example) {
    Clean(ex.desc) && Clean(ex.code)
  }

  /** What a marker text is like when it comes from one line of a page. */
  predicate MarkerTextOk(k: LineKind) {
    IsMarker(k) && NoNewline(k.text) && (k.ItemLine? ==> Trimmed(k.text))
  }

  // ---------------------------------------------------------------------------
  // The description

  lemma DescStep(st: ParseState, raw: string)
    ensures Step(st, raw).descLines == st.descLines + DescText(raw)
  {
    if !Classify(raw).DescLine? {
      AppendNil(st.descLines);
    }
  }

  lemma {:induction false} DescriptionLines(st: ParseState, lines: seq<string>)
    ensures ParseFrom(st, lines).descLines == st.descLines + DescTexts(lines)
    decreases |lines|
  {
    if lines == [] {
      AppendNil(st.descLines);
    } else {
      DescriptionLines(Step(st, lines[0]), lines[1..]);
      DescStep(st, lines[0]);
      Assoc2(st.descLines, DescText(lines[0]), DescTexts(lines[1..]));
    }
  }

  /** The description is the '>' lines, marker removed and trimmed, joined by
      one space in page order; with no such line it is empty. */
  lemma PageDescription(md: string, fileName: Option<string>)
    requires fileName.Some?
    ensures ParsePage(md, fileName).value.description == Join(DescTexts(Lines(md)), " ")
    ensures DescTexts(Lines(md)) == [] ==> ParsePage(md, fileName).value.description == []
  {
    DescriptionLines(Start, Lines(md));
    assert [] + DescTexts(Lines(md)) == DescTexts(Lines(md));
  }

  // ---------------------------------------------------------------------------
  // Lines that do not matter, and the want_code guard

  /** A blank line, or one whose first non-blank character is not '>', '-' or
      '`' (the "# name" title, say), can be removed from anywhere in the page
      without changing anything the parser computes. */
  lemma {:induction false} IgnoredLineIrrelevant(st: ParseState, a: seq<string>, line: string, b: seq<string>)
    requires Trim(line) == [] || Trim(line)[0] !in {'>', '-', '`'}
    ensures ParseFrom(st, a + [line] + b) == ParseFrom(st, a + b)
    decreases |a|
  {
    if a == [] {
      assert a + [line] + b == [line] + b && a + b == b;
      assert ([line] + b)[1..] == b;
    } else {
      assert (a + [line] + b)[1..] == a[1..] + [line] + b;
      assert (a + b)[1..] == a[1..] + b;
      IgnoredLineIrrelevant(Step(st, a[0]), a[1..], line, b);
    }
  }

  /** With no "- " line ahead and no description pending, code lines are all
      ignored: the examples buffer does not change and no code is wanted. */
  lemma {:induction false} CodeWithoutItemIgnored(st: ParseState, lines: seq<string>)
    requires !st.wantCode
    requires forall k :: 0 <= k < |lines| ==> Trim(lines[k]) == [] || Trim(lines[k])[0] != '-'
    ensures ParseFrom(st, lines).examples == st.examples
    ensures !ParseFrom(st, lines).wantCode
    decreases |lines|
  {
    if lines != [] {
      assert Trim(lines[0]) == [] || Trim(lines[0])[0] != '-';
      CodeWithoutItemIgnored(Step(st, lines[0]), lines[1..]);
    }
  }

  /** A page without "- " lines has an empty examples text. */
  lemma PageWithoutItems(md: string, fileName: Option<string>)
    requires fileName.Some?
    requires forall k :: 0 <= k < |Lines(md)| ==> Trim(Lines(md)[k]) == [] || Trim(Lines(md)[k])[0] != '-'
    ensures ParsePage(md, fileName).value.examples == []
    ensures Decode(ParsePage(md, fileName).value.examples) == []
  {
    CodeWithoutItemIgnored(Start, Lines(md));
    assert Trim([]) == [];
    assert SplitBlank([]) == [[]];
  }

  /** With no description pending, backtick lines are ignored. */
  lemma {:induction false} CodeLinesIgnored(st: ParseState, codes: seq<string>, rest: seq<string>)
    requires !st.wantCode
    requires forall k :: 0 <= k < |codes| ==> Trim(codes[k]) != [] && Trim(codes[k])[0] == '`'
    ensures ParseFrom(st, codes + rest) == ParseFrom(st, rest)
    decreases |codes|
  {
    if codes == [] {
      AppendNil(rest);
    } else {
      assert Trim(codes[0]) != [] && Trim(codes[0])[0] == '`';
      ConsTail(codes, rest);
      ConsDrop(codes[0], codes[1..] + rest);
      CodeLinesIgnored(st, codes[1..], rest);
    }
  }

  /** One backtick line consumes the pending description: any run of backtick
      lines right after it is ignored. */
  lemma SecondCodeLineIgnored(st: ParseState, first: string, codes: seq<string>, rest: seq<string>)
    requires Trim(first) != [] && Trim(first)[0] == '`'
    requires forall k :: 0 <= k < |codes| ==> Trim(codes[k]) != [] && Trim(codes[k])[0] == '`'
    ensures ParseFrom(st, [first] + codes + rest) == ParseFrom(st, [first] + rest)
  {
    Assoc2([first], codes, rest);
    ConsDrop(first, codes + rest);
    ConsDrop(first, rest);
    CodeLinesIgnored(Step(st, first), codes, rest);
  }

  // ---------------------------------------------------------------------------
  // Sequence reshaping, proved once for any element type

  lemma AppendNil<T>(s: seq<T>)
    ensures [] + s == s && s + [] == s
  {
  }

  lemma ConsDrop<T>(x: T, rest: seq<T>)
    ensures ([x] + rest)[0] == x && ([x] + rest)[1..] == rest
  {
  }

  lemma ConsTail<T>(s: seq<T>, more: seq<T>)
    requires s != []
    ensures [s[0]] + (s[1..] + more) == s + more
  {
    assert s == [s[0]] + s[1..];
  }

  lemma Snoc<T>(s: seq<T>)
    requires s != []
    ensures s[..|s| - 1] + [s[|s| - 1]] == s
  {
  }

  lemma DropTwo<T>(s: seq<T>, more: seq<T>)
    requires |s| >= 2
    ensures (s + more)[0] == s[0] && (s + more)[1..][0] == s[1] && (s + more)[1..][1..] == s[2..] + more
  {
    assert (s + more)[1..][1..] == (s + more)[2..];
  }

  lemma Assoc2<T>(a: seq<T>, b: seq<T>, c: seq<T>)
    ensures a + (b + c) == (a + b) + c
  {
  }

  lemma Assoc3<T>(a: seq<T>, b: seq<T>, c: seq<T>, d: seq<T>)
    ensures a + ((b + c) + d) == ((a + b) + c) + d
  {
  }

  lemma Assoc4<T>(a: seq<T>, b: seq<T>, c: seq<T>, d: seq<T>)
    ensures a + (b + (c + d)) == (a + (b + c)) + d
  {
  }

  lemma Assoc5<T>(a: seq<T>, b: seq<T>, c: seq<T>, d: seq<T>, e: seq<T>)
    ensures a + ((b + c) + (d + e)) == (((a + b) + c) + d) + e
  {
  }

  // ---------------------------------------------------------------------------
  // From lines to marker events

  /** One line moves the examples buffer exactly as its marker event, if any,
      moves the emitted text. */
  lemma EmitStep(st: ParseState, raw: string, rest: seq<LineKind>)
    ensures st.examples + Emit(st.wantCode, (if IsMarker(Classify(raw)) then [Classify(raw)] else []) + rest)
         == Step(st, raw).examples + Emit(Step(st, raw).wantCode, rest)
  {
    match Classify(raw)
    case Ignored =>
      AppendNil(rest);
    case DescLine(_) =>
      AppendNil(rest);
    case ItemLine(t) =>
      ConsDrop(ItemLine(t), rest);
      Assoc3(st.examples, t, "\n", Emit(true, rest));
    case CodeLine(t) =>
      ConsDrop(CodeLine(t), rest);
      if st.wantCode {
        Assoc3(st.examples, t, "\n\n", Emit(false, rest));
      }
  }

  /** The examples buffer depends only on the marker lines. */
  lemma {:induction false} ExamplesFromEvents(st: ParseState, lines: seq<string>)
    ensures ParseFrom(st, lines).examples == st.examples + Emit(st.wantCode, Events(lines))
    decreases |lines|
  {
    if lines == [] {
      AppendNil(st.examples);
    } else {
      ExamplesFromEvents(Step(st, lines[0]), lines[1..]);
      EmitStep(st, lines[0], Events(lines[1..]));
    }
  }

  /** The examples text of a page is the trimmed text emitted for its marker lines. */
  lemma PageExamples(md: string, fileName: Option<string>)
    requires fileName.Some?
    ensures ParsePage(md, fileName).value.examples == Trim(Emit(false, Events(Lines(md))))
  {
    ExamplesFromEvents(Start, Lines(md));
    AppendNil(Emit(false, Events(Lines(md))));
  }

  lemma TrimNoNewline(s: string)
    requires NoNewline(s)
    ensures NoNewline(Trim(s))
  {
    TrimSpec(s);
    forall k | 0 <= k < |Trim(s)| ensures Trim(s)[k] != '\n' {
      assert Trim(s)[k] == s[LeadingWhitespace(s) + k];
    }
  }

  lemma TrimMatchesNoNewline(s: string, c: char)
    requires NoNewline(s)
    ensures NoNewline(TrimMatches(s, c))
  {
    TrimMatchesSpec(s, c);
    forall k | 0 <= k < |TrimMatches(s, c)| ensures TrimMatches(s, c)[k] != '\n' {
      assert TrimMatches(s, c)[k] == s[LeadingRun(s, c) + k];
    }
  }

  /** The text of a marker line holds no newline, and a description text is trimmed. */
  lemma ClassifyText(raw: string)
    requires NoNewline(raw)
    ensures IsMarker(Classify(raw)) ==> MarkerTextOk(Classify(raw))
  {
    var line := Trim(raw);
    TrimNoNewline(raw);
    if line != [] {
      assert NoNewline(line[1..]) by {
        forall k | 0 <= k < |line[1..]| ensures line[1..][k] != '\n' {
          assert line[1..][k] == line[k + 1];
        }
      }
      TrimNoNewline(line[1..]);
      TrimMatchesNoNewline(line, '`');
    }
  }

  /** Every marker text of a page holds no newline, and a description text has
      no whitespace at its ends. */
  lemma {:induction false} EventsText(lines: seq<string>)
    requires forall k :: 0 <= k < |lines| ==> NoNewline(lines[k])
    ensures forall k :: 0 <= k < |Events(lines)| ==> MarkerTextOk(Events(lines)[k])
    decreases |lines|
  {
    if lines != [] {
      ClassifyText(lines[0]);
      EventsText(lines[1..]);
    }
  }

  lemma PageMarkersOk(md: string)
    ensures forall k :: 0 <= k < |Events(Lines(md))| ==> MarkerTextOk(Events(Lines(md))[k])
  {
    LinesHaveNoNewline(md);
    EventsText(Lines(md));
  }

  lemma {:induction false} PairsClean(events: seq<LineKind>)
    requires forall k :: 0 <= k < |events| ==> MarkerTextOk(events[k])
    requires WellFormedEvents(events)
    ensures forall k :: 0 <= k < |Pairs(events)| ==> CleanExample(Pairs(events)[k])
    decreases |events|
  {
    if events != [] {
      PairsClean(events[2..]);
    }
  }

  /** On a well-formed marker sequence the parser writes each pair as
      "desc\ncode\n\n", in order, and ends wanting no code. */
  lemma {:induction false} EmitWellFormed(events: seq<LineKind>, more: seq<LineKind>)
    requires WellFormedEvents(events)
    ensures Emit(false, events + more) == Serialize(Pairs(events)) + Emit(false, more)
    decreases |events|
  {
    if events == [] {
      AppendNil(more);
      AppendNil(Emit(false, more));
    } else {
      var d, c := events[0].text, events[1].text;
      var tail := events[2..] + more;
      EmitWellFormed(events[2..], more);
      DropTwo(events, more);
      ConsDrop(Example(d, c), Pairs(events[2..]));
      Assoc5(d + "\n", c, "\n\n", Serialize(Pairs(events[2..])), Emit(false, more));
    }
  }

  lemma EmitWellFormedAll(events: seq<LineKind>)
    requires WellFormedEvents(events)
    ensures Emit(false, events) == Serialize(Pairs(events))
  {
    EmitWellFormed(events, []);
    AppendNil(events);
    AppendNil(Serialize(Pairs(events)));
  }

  // ---------------------------------------------------------------------------
  // Splitting the examples text back into pairs

  lemma LinesCons(d: string, rest: string)
    requires NoNewline(d) && (d == [] || d[|d| - 1] != '\r')
    ensures Lines(d + "\n" + rest) == [d] + Lines(rest)
  {
    var s := d + "\n" + rest;
    IndexOfSpec(s, '\n');
    assert s[|d|] == '\n';
    assert forall k :: 0 <= k < |d| ==> s[k] == d[k];
    assert IndexOf(s, '\n') == |d|;
    assert s[..|d|] == d;
    assert s[|d| + 1..] == rest;
  }

  lemma LinesSingle(c: string)
    requires c != [] && NoNewline(c)
    ensures Lines(c) == [c]
  {
    IndexOfSpec(c, '\n');
    assert IndexOf(c, '\n') == |c|;
  }

  lemma BlockLines(ex: Example)
    requires CleanExample(ex)
    ensures Lines(Block(ex)) == [ex.desc, ex.code]
    ensures BlockExample(Block(ex)) == [ex]
  {
    LinesCons(ex.desc, ex.code);
    LinesSingle(ex.code);
  }

  /** A clean block holds no "\n\n" and does not end with a newline. */
  lemma BlockHasNoBlank(ex: Example)
    requires CleanExample(ex)
    ensures forall k :: 0 <= k < |Block(ex)| ==> !BlankAt(Block(ex), k)
    ensures Block(ex)[|Block(ex)| - 1] != '\n'
  {
    var x := Block(ex);
    forall k | 0 <= k < |x| ensures !BlankAt(x, k) {
      if k < |ex.desc| {
        assert x[k] == ex.desc[k];
      } else if k + 1 < |x| {
        assert x[k + 1] == ex.code[k - |ex.desc|];
      }
    }
    assert x[|x| - 1] == ex.code[|ex.code| - 1];
  }

  lemma SplitAfter(x: string, y: string)
    requires x != [] && x[|x| - 1] != '\n'
    requires forall k :: 0 <= k < |x| ==> !BlankAt(x, k)
    ensures SplitBlank(x + "\n\n" + y) == [x] + SplitBlank(y)
  {
    var s := x + "\n\n" + y;
    assert BlankAt(s, |x|);
    forall k | 0 <= k < |x| ensures !BlankAt(s, k) {
      assert s[k] == x[k];
      if k + 1 < |x| {
        assert !BlankAt(x, k);
        assert s[k + 1] == x[k + 1];
      }
    }
    FirstBlankSpec(s);
    assert FirstBlank(s) == |x|;
    assert s[..|x|] == x;
    assert s[|x| + 2..] == y;
  }

  lemma SplitWhole(x: string)
    requires forall k :: 0 <= k < |x| ==> !BlankAt(x, k)
    ensures SplitBlank(x) == [x]
  {
    FirstBlankSpec(x);
    assert FirstBlank(x) == |x|;
  }

  lemma ExtractCons(block: string, blocks: seq<string>)
    ensures ExtractExamples([block] + blocks) == BlockExample(block) + ExtractExamples(blocks)
  {
    ConsDrop(block, blocks);
  }

  lemma SplitFirstBlock(exs: seq<Example>, rest: string)
    requires exs != [] && CleanExample(exs[0])
    ensures SplitBlank(Serialize(exs) + rest) == [Block(exs[0])] + SplitBlank(Serialize(exs[1..]) + rest)
  {
    var x := Block(exs[0]);
    var tail := Serialize(exs[1..]) + rest;
    assert Serialize(exs) + rest == x + "\n\n" + tail;
    BlockHasNoBlank(exs[0]);
    SplitAfter(x, tail);
  }

  /** The first serialised pair is the first block, and it decodes to itself. */
  lemma DecodeFirstBlock(exs: seq<Example>, rest: string)
    requires exs != [] && CleanExample(exs[0])
    ensures ExtractExamples(SplitBlank(Serialize(exs) + rest))
         == [exs[0]] + ExtractExamples(SplitBlank(Serialize(exs[1..]) + rest))
  {
    SplitFirstBlock(exs, rest);
    BlockLines(exs[0]);
    ExtractCons(Block(exs[0]), SplitBlank(Serialize(exs[1..]) + rest));
  }

  /** The serialised pairs split back into the same pairs, whatever follows. */
  lemma {:induction false} DecodeSerialized(exs: seq<Example>, rest: string)
    requires forall k :: 0 <= k < |exs| ==> CleanExample(exs[k])
    ensures ExtractExamples(SplitBlank(Serialize(exs) + rest)) == exs + ExtractExamples(SplitBlank(rest))
    decreases |exs|
  {
    if exs == [] {
      AppendNil(rest);
      AppendNil(ExtractExamples(SplitBlank(rest)));
    } else {
      DecodeFirstBlock(exs, rest);
      DecodeSerialized(exs[1..], rest);
      ConsTail(exs, ExtractExamples(SplitBlank(rest)));
    }
  }

  lemma {:induction false} SerializeAppend(exs: seq<Example>, ex: Example)
    ensures Serialize(exs + [ex]) == Serialize(exs) + Block(ex) + "\n\n"
    decreases |exs|
  {
    if exs == [] {
      AppendNil([ex]);
      AppendNil(Block(ex) + "\n\n");
    } else {
      assert (exs + [ex])[1..] == exs[1..] + [ex];
      SerializeAppend(exs[1..], ex);
    }
  }

  lemma SerializeStart(exs: seq<Example>, rest: string)
    requires exs != [] && exs[0].desc != []
    ensures (Serialize(exs) + rest)[0] == exs[0].desc[0]
  {
  }

  lemma DecodeEmpty()
    ensures Decode(Trim([])) == []
  {
    assert Trim([]) == [];
    assert SplitBlank([]) == [[]];
    assert Lines([]) == [];
  }

  /** Serialised clean pairs followed by a trimmed non-empty text have no
      whitespace at their ends. */
  lemma SerializedThenTrimmed(exs: seq<Example>, t: string)
    requires exs != [] ==> CleanExample(exs[0])
    requires t != [] && Trimmed(t)
    ensures Serialize(exs) + t != [] && Trimmed(Serialize(exs) + t)
  {
    var body := Serialize(exs) + t;
    var first := if exs == [] then t[0] else exs[0].desc[0];
    assert body[0] == first by {
      if exs != [] {
        SerializeStart(exs, t);
      }
    }
    assert body[|body| - 1] == t[|t| - 1];
    assert !IsWhitespace(first);
  }

  lemma BlockTrimmed(ex: Example)
    requires CleanExample(ex)
    ensures Block(ex) != [] && Trimmed(Block(ex))
  {
    assert Block(ex)[|Block(ex)| - 1] == ex.code[|ex.code| - 1];
  }

  /** Trimming the serialised pairs removes exactly the final "\n\n". */
  lemma TrimSerialized(init: seq<Example>, last: Example)
    requires init != [] ==> CleanExample(init[0])
    requires CleanExample(last)
    ensures Trim(Serialize(init + [last])) == Serialize(init) + Block(last)
  {
    SerializeAppend(init, last);
    BlockTrimmed(last);
    SerializedThenTrimmed(init, Block(last));
    assert "\n\n"[0] == '\n' && "\n\n"[1] == '\n';
    TrimPadded(Serialize(init) + Block(last), "\n\n");
  }

  lemma LastBlock(last: Example)
    requires CleanExample(last)
    ensures ExtractExamples(SplitBlank(Block(last))) == [last]
  {
    BlockHasNoBlank(last);
    SplitWhole(Block(last));
    BlockLines(last);
    ExtractCons(Block(last), []);
    AppendNil([last]);
  }

  /** Trimming the serialised text and splitting it on "\n\n" gives back the
      pairs: the decoding of `main` inverts the encoding of `parse_tldr`. */
  lemma DecodeTrimmedSerialized(exs: seq<Example>)
    requires forall k :: 0 <= k < |exs| ==> CleanExample(exs[k])
    ensures Decode(Trim(Serialize(exs))) == exs
  {
    if exs == [] {
      DecodeEmpty();
    } else {
      var init, last := exs[..|exs| - 1], exs[|exs| - 1];
      Snoc(exs);
      assert forall k :: 0 <= k < |init| ==> CleanExample(init[k]) by {
        forall k | 0 <= k < |init| ensures CleanExample(init[k]) {
          assert init[k] == exs[k];
        }
      }
      TrimSerialized(init, last);
      DecodeSerialized(init, Block(last));
      LastBlock(last);
    }
  }

  // ---------------------------------------------------------------------------
  // Round trip

  /** On a well-formed page, the examples `main` reads back from the output
      of `parse_tldr` are exactly the (description, command) pairs of the page,
      in page order. */
  lemma RoundTrip(md: string, fileName: Option<string>)
    requires fileName.Some?
    requires WellFormedPage(md)
    ensures Decode(ParsePage(md, fileName).value.examples) == Pairs(Events(Lines(md)))
  {
    var events := Events(Lines(md));
    PageExamples(md, fileName);
    EmitWellFormedAll(events);
    PageMarkersOk(md);
    PairsClean(events);
    DecodeTrimmedSerialized(Pairs(events));
  }

  lemma EmitTrailingItem(events: seq<LineKind>, t: string)
    requires WellFormedEvents(events)
    ensures Emit(false, events + [ItemLine(t)]) == Serialize(Pairs(events)) + t + "\n"
  {
    EmitWellFormed(events, [ItemLine(t)]);
    AppendNil(t + "\n");
    Assoc2(Serialize(Pairs(events)), t, "\n");
  }

  lemma TrimItemTail(exs: seq<Example>, t: string)
    requires exs != [] ==> CleanExample(exs[0])
    requires t != [] && Trimmed(t)
    ensures Trim(Serialize(exs) + t + "\n") == Serialize(exs) + t
  {
    SerializedThenTrimmed(exs, t);
    assert "\n"[0] == '\n';
    TrimPadded(Serialize(exs) + t, "\n");
  }

  /** A block of a single line yields no example. */
  lemma SingleLineBlockDropped(t: string)
    requires t != [] && NoNewline(t)
    ensures ExtractExamples(SplitBlank(t)) == []
  {
    SplitWhole(t);
    LinesSingle(t);
    ExtractCons(t, []);
  }

  /** A final "- " line with no code after it yields no example: its block
      has a single line and is skipped. */
  lemma TrailingItemDropped(md: string, fileName: Option<string>)
    requires fileName.Some?
    requires var events := Events(Lines(md));
      events != [] && events[|events| - 1].ItemLine? && events[|events| - 1].text != []
      && WellFormedEvents(events[..|events| - 1])
    ensures var events := Events(Lines(md));
      Decode(ParsePage(md, fileName).value.examples) == Pairs(events[..|events| - 1])
  {
    var events := Events(Lines(md));
    var init, t := events[..|events| - 1], events[|events| - 1].text;
    PageExamples(md, fileName);
    PageMarkersOk(md);
    Snoc(events);
    assert MarkerTextOk(events[|events| - 1]);
    assert forall k :: 0 <= k < |init| ==> MarkerTextOk(init[k]) by {
      forall k | 0 <= k < |init| ensures MarkerTextOk(init[k]) {
        assert init[k] == events[k];
      }
    }
    EmitTrailingItem(init, t);
    PairsClean(init);
    TrimItemTail(Pairs(init), t);
    DecodeSerialized(Pairs(init), t);
    SingleLineBlockDropped(t);
    AppendNil(Pairs(init));
  }

  lemma EmitMisaligned(a: string, b: string, c: string)
    ensures Emit(false, [ItemLine(a), ItemLine(b), CodeLine(c)])
         == (a + "\n" + Block(Example(b, c))) + "\n\n"
  {
    ConsDrop(ItemLine(a), [ItemLine(b), CodeLine(c)]);
    ConsDrop(ItemLine(b), [CodeLine(c)]);
    ConsDrop(CodeLine(c), []);
    AppendNil(c + "\n\n");
    assert Emit(true, [CodeLine(c)]) == c + "\n\n";
    assert Emit(true, [ItemLine(b), CodeLine(c)]) == b + "\n" + (c + "\n\n");
    Assoc4(a + "\n", b + "\n", c, "\n\n");
  }

  lemma MisalignedNoBlank(a: string, b: string, c: string)
    requires Clean(a) && Clean(b) && Clean(c)
    ensures forall k :: 0 <= k < |a + "\n" + Block(Example(b, c))| ==> !BlankAt(a + "\n" + Block(Example(b, c)), k)
  {
    var inner := Example(b, c);
    var x := a + "\n" + Block(inner);
    BlockHasNoBlank(inner);
    forall k | 0 <= k < |x| ensures !BlankAt(x, k) {
      if k < |a| {
        assert x[k] == a[k];
      } else if k > |a| {
        assert x[k] == Block(inner)[k - |a| - 1];
        if k + 1 < |x| {
          assert x[k + 1] == Block(inner)[k - |a|];
          assert !BlankAt(Block(inner), k - |a| - 1);
        }
      } else {
        assert x[k + 1] == b[0];
      }
    }
  }

  lemma MisalignedDecode(a: string, b: string, c: string)
    requires Clean(a) && Clean(b) && Clean(c)
    ensures Decode(Trim((a + "\n" + Block(Example(b, c))) + "\n\n")) == [Example(a, b)]
  {
    var inner := Example(b, c);
    var x := a + "\n" + Block(inner);
    assert x[0] == a[0];
    assert x[|x| - 1] == c[|c| - 1];
    assert "\n\n"[0] == '\n' && "\n\n"[1] == '\n';
    TrimPadded(x, "\n\n");
    MisalignedNoBlank(a, b, c);
    SplitWhole(x);
    LinesCons(a, Block(inner));
    BlockLines(inner);
    assert Lines(x) == [a, b, c];
    ExtractCons(x, []);
  }

  /** Two "- " lines before one code line shift the pairing: the first
      description is paired with the second description as its command, and
      the code line is lost. */
  lemma ConsecutiveItemsMisalign(md: string, fileName: Option<string>, a: string, b: string, c: string)
    requires fileName.Some?
    requires Events(Lines(md)) == [ItemLine(a), ItemLine(b), CodeLine(c)]
    requires a != [] && b != [] && c != [] && Trimmed(c)
    ensures Decode(ParsePage(md, fileName).value.examples) == [Example(a, b)]
  {
    var events := Events(Lines(md));
    PageExamples(md, fileName);
    PageMarkersOk(md);
    assert MarkerTextOk(events[0]) && MarkerTextOk(events[1]) && MarkerTextOk(events[2]);
    EmitMisaligned(a, b, c);
    MisalignedDecode(a, b, c);
  }

  // ---------------------------------------------------------------------------
  // Rows and counts

  /** Number of blocks with at least two lines. */
  function BlocksWithTwoLines(blocks: seq<string>): nat
    decreases |blocks|
  {
    if blocks == [] then 0
    else (if |Lines(blocks[0])| >= 2 then 1 else 0) + BlocksWithTwoLines(blocks[1..])
  }

  /** One example, hence one row and one count, per block with at least two
      lines. */
  lemma {:induction false} ExamplesPerBlock(blocks: seq<string>)
    ensures |ExtractExamples(blocks)| == BlocksWithTwoLines(blocks)
    decreases |blocks|
  {
    if blocks != [] {
      ExamplesPerBlock(blocks[1..]);
    }
  }

  /** The rows, and so the `count` increments, of one page: one per block of
      its examples text with at least two lines. */
  lemma PageCount(page: Page)
    ensures |PageRows(page)| == BlocksWithTwoLines(SplitBlank(page.examples))
  {
    ExamplesPerBlock(SplitBlank(page.examples));
  }

  /** Every row of a well-formed page carries the command name (the file
      stem), the page description, and one of the page's pairs, in order. */
  lemma EntryRoundTrip(e: Entry)
    requires IsPage(e.fileName)
    requires WellFormedPage(e.content)
    ensures EntryRows(e) == RowsOf(FileStem(Some(e.fileName)).value,
                                   Join(DescTexts(Lines(e.content)), " "),
                                   Pairs(Events(Lines(e.content))))
  {
    RoundTrip(e.content, Some(e.fileName));
    PageDescription(e.content, Some(e.fileName));
  }
}
