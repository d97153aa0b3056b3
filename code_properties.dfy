/**
 * Code blocks keep their lines (SourceParser.php, linesElements with
 * blockCode and blockFencedCode and their continuations): a document made
 * of a code block parses to one `pre > code` element whose text is the
 * block's lines joined by line feeds, blank lines kept as empty lines.
 */
module CodeProperties {
  import opened Wrappers
  import opened Strings
  import opened Lines
  import opened Tree
  import opened Blocks
  import opened CodeBlocks
  import opened BlockParser
  import opened BlockProperties

  /** A line as a fenced block keeps it: tabs expanded, a blank line emptied (the loop skips its content). */
  function Shown(raw: string): string {
    if IsBlank(raw) then "" else Expanded(raw)
  }

  function ShownLines(body: seq<string>): (r: seq<string>)
    ensures |r| == |body| && forall i :: 0 <= i < |body| ==> r[i] == Shown(body[i])
  {
    seq(|body|, i requires 0 <= i < |body| => Shown(body[i]))
  }

  /** What the fenced block holds after the body lines, with its pending blank lines written out. */
  function Pending(body: seq<string>): string
    decreases |body|
  {
    if body == [] then "" else Pending(body[..|body| - 1]) + "\n" + Shown(body[|body| - 1])
  }

  lemma RepeatSnoc(c: char, n: nat)
    ensures Repeat(c, n + 1) == Repeat(c, n) + [c]
  {
  }

  /** Each body line adds a line feed and the line; dropping the first line feed leaves the join. */
  lemma {:induction false} PendingJoin(body: seq<string>)
    ensures body != [] ==> Pending(body) == "\n" + Join(ShownLines(body), '\n')
    ensures Substr(Pending(body), 1) == Join(ShownLines(body), '\n')
    decreases |body|
  {
    if body != [] {
      var prefix := body[..|body| - 1];
      var last := Shown(body[|body| - 1]);
      assert ShownLines(body) == ShownLines(prefix) + [last];
      if prefix == [] {
        assert ShownLines(body) == [last];
      } else {
        PendingJoin(prefix);
        JoinSnoc(ShownLines(prefix), last, '\n');
      }
    }
  }

  /** Inside an open fence after `body`: nothing flushed, and the code with its pending blank lines is Pending(body). */
  predicate InFence(st: State, fence: char, n: nat, language: Option<string>,
                    elements: seq<Element>, defs: Definitions, body: seq<string>) {
    && st.elements == elements && st.defs == defs && st.current.Some?
    && var b := st.current.value;
    && b.data.FencedData? && b.data.fence == fence && b.data.openerLength == n
    && b.data.language == language && !b.data.complete
    && b.data.code + Repeat('\n', b.interrupted) == Pending(body)
  }

  /** A blank line or a line that does not close the fence is kept. */
  lemma FenceStep(st: State, fence: char, n: nat, language: Option<string>,
                  elements: seq<Element>, defs: Definitions, body: seq<string>, raw: string)
    requires InFence(st, fence, n, language, elements, defs, body)
    requires !IsBlank(raw) ==> !Closes(fence, n, LineOf(raw).text)
    ensures InFence(Step(st, raw), fence, n, language, elements, defs, body + [raw])
  {
    var b := st.current.value;
    assert (body + [raw])[..|body|] == body;
    assert Pending(body + [raw]) == Pending(body) + "\n" + Shown(raw);
    if IsBlank(raw) {
      RepeatSnoc('\n', b.interrupted);
    } else {
      var line := LineOf(raw);
      assert ContinueBlock(line, b) == Wrap(FencedContinue(line, b));
    }
  }

  lemma {:induction false} FenceBody(st: State, fence: char, n: nat, language: Option<string>,
                                     elements: seq<Element>, defs: Definitions, body: seq<string>)
    requires InFence(st, fence, n, language, elements, defs, [])
    requires forall i :: 0 <= i < |body| && !IsBlank(body[i]) ==> !Closes(fence, n, LineOf(body[i]).text)
    ensures InFence(Run(st, body), fence, n, language, elements, defs, body)
    decreases |body|
  {
    if body != [] {
      var prefix := body[..|body| - 1];
      FenceBody(st, fence, n, language, elements, defs, prefix);
      FenceStep(Run(st, prefix), fence, n, language, elements, defs, prefix, body[|body| - 1]);
      assert prefix + [body[|body| - 1]] == body;
    }
  }

  /** The opening fence at the start of a document opens an empty fenced block. */
  lemma FenceOpen(defs: Definitions, opener: string)
    requires !IsBlank(opener)
    requires LineOf(opener).indent < 4 && LineOf(opener).text[0] in {'`', '~'}
    requires FencedStart(LineOf(opener)).Some?
    ensures var d := FencedStart(LineOf(opener)).value.data;
      InFence(Step(State([], None, defs), opener), d.fence, d.openerLength, d.language, [], defs, [])
  {
    var line := LineOf(opener);
    var s := State([], None, defs);
    var b := FencedStart(line).value;
    assert Start(BlockKind.Code, line, None) == CodeStart(line, None);
    assert Start(FencedCode, line, None) == FencedStart(line);
    KeyedKinds();
    StepStarts(s, opener, FencedCode, b);
    assert Repeat('\n', 0) == "";
  }

  /** The closing fence drops the first line feed and completes the block. */
  lemma FenceClose(st: State, fence: char, n: nat, language: Option<string>,
                   elements: seq<Element>, defs: Definitions, body: seq<string>, closer: string)
    requires InFence(st, fence, n, language, elements, defs, body)
    requires !IsBlank(closer) && Closes(fence, n, LineOf(closer).text)
    ensures Step(st, closer) == State(elements, Some(Block(FencedData(fence, n, language,
      Substr(Pending(body), 1), true), 0)), defs)
  {
    var line := LineOf(closer);
    var b := st.current.value;
    assert ContinueBlock(line, b) == Wrap(FencedContinue(line, b));
  }

  /** The opening fence and the body leave the fence open with the body pending. */
  lemma FenceOpenBody(defs: Definitions, opener: string, body: seq<string>)
    requires !IsBlank(opener)
    requires LineOf(opener).indent < 4 && LineOf(opener).text[0] in {'`', '~'}
    requires FencedStart(LineOf(opener)).Some?
    requires var d := FencedStart(LineOf(opener)).value.data;
      forall i :: 0 <= i < |body| && !IsBlank(body[i]) ==> !Closes(d.fence, d.openerLength, LineOf(body[i]).text)
    ensures var d := FencedStart(LineOf(opener)).value.data;
      InFence(Run(State([], None, defs), [opener] + body), d.fence, d.openerLength, d.language, [], defs, body)
  {
    var d := FencedStart(LineOf(opener)).value.data;
    var s0 := State([], None, defs);
    FenceOpen(defs, opener);
    var s1 := Step(s0, opener);
    assert Run(s0, [opener]) == s1 by {
      assert [opener][..0] == [];
    }
    FenceBody(s1, d.fence, d.openerLength, d.language, [], defs, body);
    RunAppend(s0, [opener], body);
  }

  /**
   * A document of an opening fence, body lines none of which closes it,
   * and a closing fence parses to one code element that holds the body
   * lines joined by line feeds, and defines nothing.
   */
  lemma FencedRoundTrip(defs: Definitions, opener: string, body: seq<string>, closer: string)
    requires !IsBlank(opener)
    requires LineOf(opener).indent < 4 && LineOf(opener).text[0] in {'`', '~'}
    requires FencedStart(LineOf(opener)).Some?
    requires var d := FencedStart(LineOf(opener)).value.data;
      && (forall i :: 0 <= i < |body| && !IsBlank(body[i]) ==> !Closes(d.fence, d.openerLength, LineOf(body[i]).text))
      && !IsBlank(closer) && Closes(d.fence, d.openerLength, LineOf(closer).text)
    ensures var d := FencedStart(LineOf(opener)).value.data;
      LinesElements(defs, [opener] + body + [closer])
        == ([CodeElement(LanguageAttributes(d.language), Join(ShownLines(body), '\n'))], defs)
  {
    var d := FencedStart(LineOf(opener)).value.data;
    var s0 := State([], None, defs);
    FenceOpenBody(defs, opener, body);
    var s2 := Run(s0, [opener] + body);
    FenceClose(s2, d.fence, d.openerLength, d.language, [], defs, body, closer);
    PendingJoin(body);
    RunSnoc(s0, [opener] + body, closer);
    var b := Block(FencedData(d.fence, d.openerLength, d.language, Join(ShownLines(body), '\n'), true), 0);
    FinishBlock(defs, b);
  }

  /** The state after one more line is one step from the state before it. */
  lemma RunSnoc(s: State, lines: seq<string>, x: string)
    ensures Run(s, lines + [x]) == Step(Run(s, lines), x)
  {
    assert (lines + [x])[..|lines|] == lines;
  }

  /** A code block that is current at the end of the document is its only element. */
  lemma FinishBlock(defs: Definitions, b: Block)
    requires b.data.FencedData? || b.data.CodeData?
    ensures Finish(State([], Some(b), defs)) == [ExtractElement(b)]
  {
  }

  /** A line as an indented code block keeps it: past its fourth column, a blank line emptied. */
  function CodeShown(raw: string): string {
    if IsBlank(raw) then "" else Substr(Expanded(raw), 4)
  }

  function CodeShownLines(lines: seq<string>): (r: seq<string>)
    ensures |r| == |lines| && forall i :: 0 <= i < |lines| ==> r[i] == CodeShown(lines[i])
  {
    seq(|lines|, i requires 0 <= i < |lines| => CodeShown(lines[i]))
  }

  /** Inside an indented code block after `lines`: the code with its pending blank lines is their join. */
  predicate InCode(st: State, defs: Definitions, lines: seq<string>) {
    && |lines| >= 1 && st.elements == [] && st.defs == defs && st.current.Some?
    && var b := st.current.value;
    && b.data.CodeData?
    && b.data.code + Repeat('\n', b.interrupted) == Join(CodeShownLines(lines), '\n')
    && (!IsBlank(lines[|lines| - 1]) ==> b.interrupted == 0)
  }

  lemma CodeStep(st: State, defs: Definitions, lines: seq<string>, raw: string)
    requires InCode(st, defs, lines)
    requires !IsBlank(raw) ==> LineOf(raw).indent >= 4
    ensures InCode(Step(st, raw), defs, lines + [raw])
  {
    var b := st.current.value;
    assert CodeShownLines(lines + [raw]) == CodeShownLines(lines) + [CodeShown(raw)];
    JoinSnoc(CodeShownLines(lines), CodeShown(raw), '\n');
    if IsBlank(raw) {
      RepeatSnoc('\n', b.interrupted);
    } else {
      var line := LineOf(raw);
      assert ContinueBlock(line, b) == Wrap(CodeContinue(line, b));
      RepeatSnoc('\n', b.interrupted);
    }
  }

  lemma {:induction false} CodeBody(defs: Definitions, lines: seq<string>)
    requires |lines| >= 1 && !IsBlank(lines[0])
    requires forall i :: 0 <= i < |lines| && !IsBlank(lines[i]) ==> LineOf(lines[i]).indent >= 4
    ensures InCode(Run(State([], None, defs), lines), defs, lines)
    decreases |lines|
  {
    var s0 := State([], None, defs);
    var prefix := lines[..|lines| - 1];
    if prefix == [] {
      var line := LineOf(lines[0]);
      assert Run(s0, []) == s0;
      var kinds := Candidates(line.text[0]);
      assert Start(kinds[0], line, None).Some?;
      assert CodeShownLines(lines) == [CodeShown(lines[0])];
    } else {
      CodeBody(defs, prefix);
      CodeStep(Run(s0, prefix), defs, prefix, lines[|lines| - 1]);
      assert prefix + [lines[|lines| - 1]] == lines;
    }
  }

  /**
   * A document of lines indented four columns or more, blank lines
   * allowed between them, parses to one code element that holds the lines
   * past their fourth column joined by line feeds, and defines nothing.
   */
  lemma CodeRoundTrip(defs: Definitions, lines: seq<string>)
    requires |lines| >= 1 && !IsBlank(lines[0]) && !IsBlank(lines[|lines| - 1])
    requires forall i :: 0 <= i < |lines| && !IsBlank(lines[i]) ==> LineOf(lines[i]).indent >= 4
    ensures LinesElements(defs, lines) == ([CodeElement([], Join(CodeShownLines(lines), '\n'))], defs)
  {
    CodeBody(defs, lines);
    var st := Run(State([], None, defs), lines);
    var b := st.current.value;
    assert Repeat('\n', 0) == "";
    assert b.data.code == Join(CodeShownLines(lines), '\n');
    FinishBlock(defs, b);
  }
}
