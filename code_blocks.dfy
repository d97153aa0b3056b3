/**
 * Indented and fenced code blocks (SourceParser.php, blockCode,
 * blockCodeContinue, blockFencedCode, blockFencedCodeContinue; both
 * `…Complete` functions return the block unchanged).
 */
module CodeBlocks {
  import opened Wrappers
  import opened Strings
  import opened Lines
  import opened Blocks

  /** The separators of class names: space, tab, line feed, form feed and carriage return. */
  const ClassSpace: set<char> := {' ', '\t', '\n', '\U{C}', '\r'}

  /**
   * blockCode: a line indented by four or more columns opens a code block
   * holding the line past its fourth column, except directly below a
   * paragraph that is still open, which the line continues instead.
   */
  function CodeStart(line: Line, current: Option<Block>): (r: Option<Block>)
    ensures r.Some? <==> line.indent >= 4 && !OpenParagraph(current)
    ensures r.Some? ==> (r.value.interrupted == 0 && r.value.data.CodeData?
      && r.value.data.code == Substr(line.body, 4))
  {
    if OpenParagraph(current) then None
    else if line.indent >= 4 then Some(Block(CodeData(Substr(line.body, 4)), 0))
    else None
  }

  /**
   * blockCodeContinue: a line indented by four or more columns extends the
   * block, after one line feed for each blank line that came between.
   */
  function CodeContinue(line: Line, b: Block): (r: Option<Block>)
    requires b.data.CodeData?
    ensures r.Some? <==> line.indent >= 4
    ensures r.Some? ==> (r.value.interrupted == 0 && r.value.data.CodeData?
      && r.value.data.code == b.data.code + Repeat('\n', b.interrupted + 1) + Substr(line.body, 4))
  {
    if line.indent >= 4 then
      var code := b.data.code + Repeat('\n', b.interrupted) + "\n" + Substr(line.body, 4);
      assert Repeat('\n', b.interrupted) + "\n" == Repeat('\n', b.interrupted + 1);
      Some(Block(CodeData(code), 0))
    else None
  }

  /** The info string after the opening fence, without surrounding spaces and tabs. */
  function InfoString(text: string, n: nat): string {
    Trim(Substr(text, n), {'\t', ' '})
  }

  /** The language named by an info string: its first word, or none for an empty info string. */
  function Language(info: string): (r: Option<string>)
    ensures r.None? <==> info == []
    ensures r.Some? ==> (|r.value| <= |info| && r.value == info[..|r.value|]
      && (forall i :: 0 <= i < |r.value| ==> r.value[i] !in ClassSpace)
      && (|r.value| == |info| || info[|r.value|] in ClassSpace))
  {
    if info == [] then None else Some(info[..SpanNot(info, 0, ClassSpace)])
  }

  /**
   * blockFencedCode: three or more backticks or tildes open a fence unless
   * the info string holds a backtick, whatever the fence character.
   */
  function FencedStart(line: Line): (r: Option<Block>)
    requires |line.text| > 0
    ensures var n := Span(line.text, 0, {line.text[0]});
      r.Some? <==> n >= 3 && '`' !in InfoString(line.text, n)
    ensures r.Some? ==> (var n := Span(line.text, 0, {line.text[0]});
      r.value == Block(FencedData(line.text[0], n, Language(InfoString(line.text, n)), "", false), 0))
  {
    var marker := line.text[0];
    var n := Span(line.text, 0, {marker});
    if n < 3 then None
    else
      var info := InfoString(line.text, n);
      if '`' in info then None
      else Some(Block(FencedData(marker, n, Language(info), "", false), 0))
  }

  /** A line that closes a fence: at least as many fence characters as the opener, then only spaces. */
  predicate Closes(fence: char, openerLength: nat, text: string) {
    var len := Span(text, 0, {fence});
    len >= openerLength && AllIn(text[len..], {' '})
  }

  /**
   * blockFencedCodeContinue: until the closing line, every line is appended
   * after a line feed, and each blank line in between is restored as a line
   * feed; the closing line drops the leading line feed and completes the
   * block.  A completed block takes no more lines.
   */
  function FencedContinue(line: Line, b: Block): (r: Option<Block>)
    requires b.data.FencedData?
    ensures r.Some? <==> !b.data.complete
    ensures r.Some? ==> (r.value.interrupted == 0 && r.value.data.FencedData?
      && r.value.data.fence == b.data.fence && r.value.data.openerLength == b.data.openerLength
      && r.value.data.language == b.data.language
      && r.value.data.complete == Closes(b.data.fence, b.data.openerLength, line.text))
    ensures r.Some? && !r.value.data.complete ==>
      r.value.data.code == b.data.code + Repeat('\n', b.interrupted) + "\n" + line.body
    ensures r.Some? && r.value.data.complete ==>
      r.value.data.code == Substr(b.data.code + Repeat('\n', b.interrupted), 1)
  {
    if b.data.complete then None
    else
      var code := b.data.code + Repeat('\n', b.interrupted);
      if Closes(b.data.fence, b.data.openerLength, line.text) then
        Some(Block(b.data.(code := Substr(code, 1), complete := true), 0))
      else
        Some(Block(b.data.(code := code + "\n" + line.body), 0))
  }
}
