/**
 * What the line-level state machine of SourceParser.php (linesElements)
 * guarantees: elements are only ever appended, a setext underline or a
 * table divider takes over the paragraph above it, a definition line fills
 * the reference table, and fenced and indented code keep their lines.
 */
module BlockProperties {
  import opened Wrappers
  import opened Strings
  import opened Lines
  import opened Tree
  import opened References
  import opened Blocks
  import opened CodeBlocks
  import opened SimpleBlocks
  import opened Lists
  import opened Tables
  import opened BlockParser

  /** `a` is a prefix of `b` longer by at most one element. */
  predicate Extends(a: seq<Element>, b: seq<Element>) {
    |a| <= |b| <= |a| + 1 && b[..|a|] == a
  }

  lemma {:induction false} BeginExtends(s: State, line: Line, kinds: seq<BlockKind>)
    requires |line.text| > 0 && Paragraph !in kinds
    ensures Extends(s.elements, Begin(s, line, kinds).elements)
    decreases |kinds|
  {
    if kinds == [] {
      FlushExtends(s.elements, s.current);
    } else if Start(kinds[0], line, s.current).None? {
      BeginSkips(s, line, kinds);
      BeginExtends(s, line, kinds[1..]);
    } else {
      FlushExtends(s.elements, s.current);
      BeginTakes(s, line, kinds);
    }
  }

  lemma FlushExtends(elements: seq<Element>, current: Option<Block>)
    ensures Extends(elements, Flush(elements, current))
  {
  }

  /** A kind that declines the line passes it on to the next one. */
  lemma BeginSkips(s: State, line: Line, kinds: seq<BlockKind>)
    requires |line.text| > 0 && Paragraph !in kinds && kinds != []
    requires Start(kinds[0], line, s.current).None?
    ensures Begin(s, line, kinds) == Begin(s, line, kinds[1..])
  {
  }

  /** A kind that accepts the line keeps the elements, or flushes the block before it. */
  lemma BeginTakes(s: State, line: Line, kinds: seq<BlockKind>)
    requires |line.text| > 0 && Paragraph !in kinds && kinds != []
    requires Start(kinds[0], line, s.current).Some?
    ensures Begin(s, line, kinds).elements == if Identified(kinds[0]) then s.elements else Flush(s.elements, s.current)
  {
  }

  /** A line flushes at most one element, and what was flushed before stays as it was. */
  lemma StepExtends(s: State, raw: string)
    ensures Extends(s.elements, Step(s, raw).elements)
  {
    if !IsBlank(raw) {
      var line := LineOf(raw);
      var cur := s.current;
      var cont := if cur.Some? && Continuable(KindOf(cur.value)) then ContinueBlock(line, cur.value) else None;
      if cont.None? {
        var settled := if cur.Some? && Continuable(KindOf(cur.value)) then Some(Settle(cur.value)) else cur;
        BeginExtends(s.(current := settled), line, Candidates(line.text[0]));
      }
    }
  }

  /** A definition, once recorded, stays defined (possibly redefined) for every later line. */
  lemma StepKeepsDefinitions(s: State, raw: string)
    ensures s.defs.Keys <= Step(s, raw).defs.Keys
  {
    if !IsBlank(raw) {
      var line := LineOf(raw);
      var cur := s.current;
      var cont := if cur.Some? && Continuable(KindOf(cur.value)) then ContinueBlock(line, cur.value) else None;
      if cont.None? {
        var settled := if cur.Some? && Continuable(KindOf(cur.value)) then Some(Settle(cur.value)) else cur;
        BeginKeepsDefinitions(s.(current := settled), line, Candidates(line.text[0]));
      }
    }
  }

  lemma {:induction false} BeginKeepsDefinitions(s: State, line: Line, kinds: seq<BlockKind>)
    requires |line.text| > 0 && Paragraph !in kinds
    ensures s.defs.Keys <= Begin(s, line, kinds).defs.Keys
    decreases |kinds|
  {
    if kinds != [] && Start(kinds[0], line, s.current).None? {
      BeginKeepsDefinitions(s, line, kinds[1..]);
    }
  }

  /** Over any lines, the elements flushed so far are kept, in order, and so are the definitions. */
  lemma {:induction false} RunExtends(s: State, lines: seq<string>)
    ensures |s.elements| <= |Run(s, lines).elements| <= |s.elements| + |lines|
    ensures Run(s, lines).elements[..|s.elements|] == s.elements
    ensures s.defs.Keys <= Run(s, lines).defs.Keys
    decreases |lines|
  {
    if lines != [] {
      var prefix := lines[..|lines| - 1];
      RunExtends(s, prefix);
      var mid := Run(s, prefix);
      StepExtends(mid, lines[|lines| - 1]);
      StepKeepsDefinitions(mid, lines[|lines| - 1]);
      var e := Run(s, lines).elements;
      assert e[..|mid.elements|] == mid.elements;
      assert e[..|s.elements|] == e[..|mid.elements|][..|s.elements|];
    }
  }

  /** Running over `a + b` is running over `a`, then over `b`. */
  lemma {:induction false} RunAppend(s: State, a: seq<string>, b: seq<string>)
    ensures Run(s, a + b) == Run(Run(s, a), b)
    decreases |b|
  {
    if b == [] {
      assert a + b == a;
    } else {
      var b' := b[..|b| - 1];
      assert (a + b)[..|a + b| - 1] == a + b';
      RunAppend(s, a, b');
    }
  }

  /** A line that no open block takes goes straight to the candidate loop. */
  lemma FeedBegins(s: State, line: Line)
    requires |line.text| > 0
    requires s.current.None? || !Continuable(KindOf(s.current.value))
    ensures Feed(s, line) == Begin(s, line, Candidates(line.text[0]))
  {
  }

  /** A line that does not open an indented code block goes on to the keyed kinds. */
  lemma BeginPastCode(s: State, line: Line)
    requires |line.text| > 0 && Start(BlockKind.Code, line, s.current).None?
    ensures Begin(s, line, Candidates(line.text[0])) == Begin(s, line, BlockTypes(line.text[0]))
  {
    var kinds := Candidates(line.text[0]);
    assert kinds[1..] == BlockTypes(line.text[0]);
  }

  /**
   * A line that no open block takes and that is no indented code starts the
   * block of the first keyed kind it is tried with, when that kind accepts it.
   */
  lemma StepStarts(s: State, raw: string, k: BlockKind, b: Block)
    requires !IsBlank(raw)
    requires s.current.None? || !Continuable(KindOf(s.current.value))
    requires var line := LineOf(raw);
      && Start(BlockKind.Code, line, s.current).None?
      && |BlockTypes(line.text[0])| >= 1 && BlockTypes(line.text[0])[0] == k
      && k != Paragraph && Start(k, line, s.current) == Some(b)
    ensures Step(s, raw) ==
      State(if Identified(k) then s.elements else Flush(s.elements, s.current), Some(b), Record(s.defs, Defined(b)))
  {
    var line := LineOf(raw);
    FeedBegins(s, line);
    BeginPastCode(s, line);
  }

  /** The kinds keyed by the characters that open a table, a definition, a setext underline and a fence. */
  lemma KeyedKinds()
    ensures BlockTypes('|') == [Table] && BlockTypes('[') == [Reference]
    ensures BlockTypes('=') == [SetextHeader] && BlockTypes('-')[0] == SetextHeader
    ensures BlockTypes('`') == [FencedCode] && BlockTypes('~') == [FencedCode]
  {
  }

  /** A divider line has no tab, is not blank and is not indented. */
  lemma DividerLine(al: seq<Option<Align>>)
    requires |al| >= 1
    ensures !IsBlank(Divider(al))
    ensures LineOf(Divider(al)) == MakeLine(Divider(al)) && MakeLine(Divider(al)).text == Divider(al)
  {
    var t := Divider(al);
    DividerShape(al);
    assert '\t' !in t;
    ExpandedTabFree(t);
    assert t[0] == '|' && t[0] !in TrimChars;
    assert Span(t, 0, {' '}) == 0;
  }

  /**
   * Directly below an open paragraph, an underline of `=` or `-` (trailing
   * spaces allowed, indented less than four columns) turns the paragraph
   * into a heading of level 1 or 2 holding its text; nothing is flushed.
   */
  lemma SetextReplaces(s: State, p: string, raw: string)
    requires s.current == Some(Block(ParagraphData(p), 0))
    requires !IsBlank(raw)
    requires var line := LineOf(raw);
      line.indent < 4 && line.text[0] in {'=', '-'} && AllIn(RTrim(line.text, {' '}), {line.text[0]})
    ensures var level := if LineOf(raw).text[0] == '=' then 1 else 2;
      Step(s, raw) == State(s.elements, Some(Block(SetextData(level, p), 0)), s.defs)
  {
    var line := LineOf(raw);
    KeyedKinds();
    var level := if line.text[0] == '=' then 1 else 2;
    StepStarts(s, raw, SetextHeader, Block(SetextData(level, p), 0));
  }

  /**
   * Directly below an open one-line paragraph with as many pipe cells as
   * there are alignments, the divider written from those alignments turns
   * the paragraph into the header of a table with no rows; nothing is flushed.
   */
  lemma TableReplaces(s: State, p: string, al: seq<Option<Align>>)
    requires s.current == Some(Block(ParagraphData(p), 0))
    requires |al| >= 1 && '\n' !in p && |PipeCells(p)| == |al|
    ensures Step(s, Divider(al)) == State(s.elements, Some(Block(TableData(al, TrimEach(PipeCells(p)), []), 0)), s.defs)
  {
    DividerStarts(s.current, p, al);
    StepIdentified(s, Divider(al), Table, Block(TableData(al, TrimEach(PipeCells(p)), []), 0));
  }

  /** A started block that consumes the open one and defines nothing leaves the elements and definitions alone. */
  lemma StepIdentified(s: State, raw: string, k: BlockKind, b: Block)
    requires !IsBlank(raw)
    requires s.current.None? || !Continuable(KindOf(s.current.value))
    requires var line := LineOf(raw);
      && Start(BlockKind.Code, line, s.current).None?
      && |BlockTypes(line.text[0])| >= 1 && BlockTypes(line.text[0])[0] == k
      && k != Paragraph && Start(k, line, s.current) == Some(b)
    requires Identified(k) && !b.data.ReferenceData?
    ensures Step(s, raw) == State(s.elements, Some(b), s.defs)
  {
    StepStarts(s, raw, k, b);
  }

  lemma DividerStarts(current: Option<Block>, p: string, al: seq<Option<Align>>)
    requires current == Some(Block(ParagraphData(p), 0))
    requires |al| >= 1 && '\n' !in p && |PipeCells(p)| == |al|
    ensures !IsBlank(Divider(al))
    ensures var line := LineOf(Divider(al));
      && Start(BlockKind.Code, line, current).None?
      && |BlockTypes(line.text[0])| >= 1 && BlockTypes(line.text[0])[0] == Table
      && Start(Table, line, current) == Some(Block(TableData(al, TrimEach(PipeCells(p)), []), 0))
  {
    DividerNotCode(current, al);
    DividerKeyed(al);
    DividerLine(al);
    DividerTable(current, p, al, LineOf(Divider(al)));
  }

  lemma DividerNotCode(current: Option<Block>, al: seq<Option<Align>>)
    requires |al| >= 1
    ensures !IsBlank(Divider(al)) && Start(BlockKind.Code, LineOf(Divider(al)), current).None?
  {
    DividerLine(al);
  }

  lemma DividerKeyed(al: seq<Option<Align>>)
    requires |al| >= 1
    ensures !IsBlank(Divider(al)) && |BlockTypes(LineOf(Divider(al)).text[0])| >= 1
    ensures BlockTypes(LineOf(Divider(al)).text[0])[0] == Table
  {
    DividerLine(al);
    DividerShape(al);
    KeyedKinds();
  }

  lemma DividerTable(current: Option<Block>, p: string, al: seq<Option<Align>>, line: Line)
    requires current == Some(Block(ParagraphData(p), 0))
    requires |al| >= 1 && '\n' !in p && |PipeCells(p)| == |al|
    requires line == MakeLine(Divider(al)) && |line.text| > 0
    ensures Start(Table, line, current) == Some(Block(TableData(al, TrimEach(PipeCells(p)), []), 0))
  {
    TableFromDivider(p, al);
    StartTable(line, current);
  }

  lemma StartTable(line: Line, current: Option<Block>)
    requires |line.text| > 0
    ensures Start(Table, line, current) == TableStart(line, current)
  {
  }

  /**
   * A definition line met when no open block takes lines flushes the
   * block before it and records its id, lower-cased, with its url and
   * title; a later definition of the same id replaces the earlier one.
   */
  lemma ReferenceDefines(s: State, id: string, url: string, title: Option<string>)
    requires Writable(id, url, title) && '\t' !in Format(id, url, title)
    requires s.current.None? || !Continuable(KindOf(s.current.value))
    ensures var d := RefDef(Lower(id), Definition(url, title));
      Step(s, Format(id, url, title))
        == State(Flush(s.elements, s.current), Some(Block(ReferenceData(d), 0)), s.defs[Lower(id) := Definition(url, title)])
  {
    DefinitionStarts(s.current, id, url, title);
    var d := RefDef(Lower(id), Definition(url, title));
    StepStarts(s, Format(id, url, title), Reference, Block(ReferenceData(d), 0));
  }

  lemma DefinitionStarts(current: Option<Block>, id: string, url: string, title: Option<string>)
    requires Writable(id, url, title) && '\t' !in Format(id, url, title)
    ensures !IsBlank(Format(id, url, title))
    ensures var line := LineOf(Format(id, url, title));
      && Start(BlockKind.Code, line, current).None?
      && |BlockTypes(line.text[0])| >= 1 && BlockTypes(line.text[0])[0] == Reference
      && Start(Reference, line, current) == Some(Block(ReferenceData(RefDef(Lower(id), Definition(url, title))), 0))
  {
    DefinitionLine(id, url, title);
    var line := LineOf(Format(id, url, title));
    DefinitionNotCode(line, current);
    DefinitionKeyed(line);
    DefinitionReference(id, url, title, line, current);
  }

  /** A definition line has no tab, is not blank and is not indented. */
  lemma DefinitionLine(id: string, url: string, title: Option<string>)
    requires Writable(id, url, title) && '\t' !in Format(id, url, title)
    ensures !IsBlank(Format(id, url, title))
    ensures LineOf(Format(id, url, title)) == Line(Format(id, url, title), 0, Format(id, url, title))
  {
    var t := Format(id, url, title);
    assert t[0] == '[';
    assert t[0] !in TrimChars;
    ExpandedTabFree(t);
    var line := LineOf(t);
    assert line == MakeLine(t);
    assert Span(t, 0, {' '}) == 0;
    assert line.text == t && line.indent == 0;
  }

  lemma DefinitionNotCode(line: Line, current: Option<Block>)
    requires |line.text| > 0 && line.indent == 0
    ensures Start(BlockKind.Code, line, current).None?
  {
    assert Start(BlockKind.Code, line, current) == CodeStart(line, current);
  }

  lemma DefinitionKeyed(line: Line)
    requires |line.text| > 0 && line.text[0] == '['
    ensures |BlockTypes(line.text[0])| >= 1 && BlockTypes(line.text[0])[0] == Reference
  {
    KeyedKinds();
  }

  lemma DefinitionReference(id: string, url: string, title: Option<string>, line: Line, current: Option<Block>)
    requires Writable(id, url, title) && line == Line(Format(id, url, title), 0, Format(id, url, title))
    ensures |line.text| > 0
    ensures Start(Reference, line, current) == Some(Block(ReferenceData(RefDef(Lower(id), Definition(url, title))), 0))
  {
    assert ReferenceStart(line) == Some(Block(ReferenceData(RefDef(Lower(id), Definition(url, title))), 0)) by {
      ParseFormat(id, url, title);
    }
    StartReference(line, current);
  }

  lemma StartReference(line: Line, current: Option<Block>)
    requires |line.text| > 0
    ensures Start(Reference, line, current) == ReferenceStart(line)
  {
  }

  /** Every kind in the list declines the line. */
  predicate AllDecline(kinds: seq<BlockKind>, line: Line, current: Option<Block>)
    requires |line.text| > 0 && Paragraph !in kinds
  {
    forall i :: 0 <= i < |kinds| ==> Start(kinds[i], line, current).None?
  }

  /**
   * When every candidate declines and no open, uninterrupted paragraph takes
   * the line, the open block is flushed and a paragraph holding the line's
   * text becomes the current block; the definitions are untouched.
   */
  lemma {:induction false} BeginOpensParagraph(s: State, line: Line, kinds: seq<BlockKind>)
    requires |line.text| > 0 && Paragraph !in kinds && AllDecline(kinds, line, s.current)
    requires s.current.None? || !s.current.value.data.ParagraphData? || s.current.value.interrupted > 0
    ensures Begin(s, line, kinds) == State(Flush(s.elements, s.current), Some(Block(ParagraphData(line.text), 0)), s.defs)
    decreases |kinds|
  {
    if kinds != [] {
      assert Start(kinds[0], line, s.current).None?;
      assert AllDecline(kinds[1..], line, s.current) by {
        forall i | 0 <= i < |kinds[1..]| ensures Start(kinds[1..][i], line, s.current).None? {
          assert kinds[1..][i] == kinds[i + 1];
        }
      }
      BeginOpensParagraph(s, line, kinds[1..]);
    }
  }

  /**
   * When every candidate declines and the open paragraph was not
   * interrupted, the line joins it after a line feed; nothing is flushed.
   */
  lemma {:induction false} BeginJoinsParagraph(s: State, line: Line, kinds: seq<BlockKind>, p: string)
    requires |line.text| > 0 && Paragraph !in kinds && AllDecline(kinds, line, s.current)
    requires s.current == Some(Block(ParagraphData(p), 0))
    ensures Begin(s, line, kinds) == s.(current := Some(Block(ParagraphData(p + "\n" + line.text), 0)))
    decreases |kinds|
  {
    if kinds != [] {
      assert Start(kinds[0], line, s.current).None?;
      assert AllDecline(kinds[1..], line, s.current) by {
        forall i | 0 <= i < |kinds[1..]| ensures Start(kinds[1..][i], line, s.current).None? {
          assert kinds[1..][i] == kinds[i + 1];
        }
      }
      BeginJoinsParagraph(s, line, kinds[1..], p);
    }
  }

  /**
   * One non-blank line that no open block continues and no candidate
   * starts: without an open, uninterrupted paragraph the open block is
   * flushed and a paragraph of the line opens in its place.
   */
  lemma StepOpensParagraph(s: State, raw: string)
    requires !IsBlank(raw)
    requires s.current.None? || !Continuable(KindOf(s.current.value))
    requires AllDecline(Candidates(LineOf(raw).text[0]), LineOf(raw), s.current)
    requires s.current.None? || !s.current.value.data.ParagraphData? || s.current.value.interrupted > 0
    ensures Step(s, raw) ==
      State(Flush(s.elements, s.current), Some(Block(ParagraphData(LineOf(raw).text), 0)), s.defs)
  {
    var line := LineOf(raw);
    FeedBegins(s, line);
    BeginOpensParagraph(s, line, Candidates(line.text[0]));
  }

  /**
   * One non-blank line that no candidate starts, under an open paragraph
   * with no blank line since: the line joins the paragraph after a line
   * feed, and the elements and definitions stay as they were.
   */
  lemma StepJoinsParagraph(s: State, raw: string, p: string)
    requires !IsBlank(raw)
    requires s.current == Some(Block(ParagraphData(p), 0))
    requires AllDecline(Candidates(LineOf(raw).text[0]), LineOf(raw), s.current)
    ensures Step(s, raw) == s.(current := Some(Block(ParagraphData(p + "\n" + LineOf(raw).text), 0)))
  {
    var line := LineOf(raw);
    assert !Continuable(KindOf(s.current.value));
    FeedBegins(s, line);
    BeginJoinsParagraph(s, line, Candidates(line.text[0]), p);
  }

  /**
   * A line of plain characters, no whitespace among them and no block
   * marker in front, is one paragraph whose text is the line.
   */
  lemma PlainParagraphLine(defs: Definitions, text: string)
    requires |text| > 0 && (forall i :: 0 <= i < |text| ==> text[i] !in TrimChars) && BlockTypes(text[0]) == []
    ensures LinesElements(defs, [text]) == ([Named("p", [], Deferred(LineHandler(text)))], defs)
  {
    var s := State([], None, defs);
    assert !IsBlank(text);
    assert '\t' !in text;
    ExpandedTabFree(text);
    var line := LineOf(text);
    assert Span(text, 0, {' '}) == 0;
    assert line == Line(text, 0, text);
    FeedBegins(s, line);
    BeginPastCode(s, line);
    assert Run(s, [text]) == Step(Run(s, []), text);
    var b := ParagraphStart(line);
    assert Run(s, [text]) == State([], Some(b), defs);
    assert KindOf(b) == Paragraph && !Continuable(Paragraph);
    assert Finish(State([], Some(b), defs)) == [ExtractElement(b)];
  }
}
