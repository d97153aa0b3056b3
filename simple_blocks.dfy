/**
 * The block kinds whose start and continuation are a single test on the
 * line (SourceParser.php, blockHeader, blockRule, blockSetextHeader,
 * blockQuote, blockQuoteContinue, blockReference, paragraph and
 * paragraphContinue).
 */
module SimpleBlocks {
  import opened Wrappers
  import opened Strings
  import opened Lines
  import opened References
  import opened Blocks

  /** substr_count($s, $c) for one character. */
  function Count(s: string, c: char): nat {
    multiset(s)[c]
  }

  /** blockHeader: up to six `#`, and the text without the `#`s at either end and then without spaces. */
  function HeaderStart(line: Line): (r: Option<Block>)
    ensures r.Some? <==> Span(line.text, 0, {'#'}) <= 6
    ensures r.Some? ==> (r.value.interrupted == 0 && r.value.data.HeaderData?
      && r.value.data.level == Span(line.text, 0, {'#'})
      && r.value.data.text == Trim(Trim(line.text, {'#'}), {' '}))
  {
    var level := Span(line.text, 0, {'#'});
    if level > 6 then None
    else Some(Block(HeaderData(level, Trim(Trim(line.text, {'#'}), {' '})), 0))
  }

  /** blockRule: three or more of the first character, and nothing else but spaces. */
  function RuleStart(line: Line): (r: Option<Block>)
    requires |line.text| > 0
    ensures r.Some? <==> Count(line.text, line.text[0]) >= 3 && AllIn(line.text, {' ', line.text[0]})
    ensures r.Some? ==> r.value == Block(RuleData, 0)
  {
    var marker := line.text[0];
    if Count(line.text, marker) >= 3 && AllIn(line.text, {' ', marker}) then Some(Block(RuleData, 0))
    else None
  }

  /**
   * blockSetextHeader: under a paragraph still open, a line indented less
   * than four columns made of one repeated character (trailing spaces
   * allowed) turns the paragraph into a heading: level 1 for `=`, else 2.
   */
  function SetextStart(line: Line, current: Option<Block>): (r: Option<Block>)
    requires |line.text| > 0
    ensures r.Some? <==> (OpenParagraph(current) && line.indent < 4
      && AllIn(RTrim(line.text, {' '}), {line.text[0]}))
    ensures r.Some? ==> (r.value == Block(SetextData(if line.text[0] == '=' then 1 else 2,
      current.value.data.text), 0))
  {
    if !OpenParagraph(current) then None
    else if line.indent < 4 && AllIn(RTrim(line.text, {' '}), {line.text[0]}) then
      Some(Block(SetextData(if line.text[0] == '=' then 1 else 2, current.value.data.text), 0))
    else None
  }

  /** `^>[ ]?+(.*+)`: the line after its `>` and at most one space. */
  function QuoteStrip(text: string): (r: string)
    requires |text| > 0 && text[0] == '>'
    ensures text == ">" + r || text == "> " + r
    ensures |text| > 1 && text[1] == ' ' ==> text == "> " + r
  {
    if |text| > 1 && text[1] == ' ' then text[2..] else text[1..]
  }

  /** blockQuote: a line starting with `>` opens a quote holding the stripped line. */
  function QuoteStart(line: Line): (r: Option<Block>)
    ensures r.Some? <==> |line.text| > 0 && line.text[0] == '>'
    ensures r.Some? ==> r.value == Block(QuoteData([QuoteStrip(line.text)]), 0)
  {
    if |line.text| > 0 && line.text[0] == '>' then Some(Block(QuoteData([QuoteStrip(line.text)]), 0))
    else None
  }

  /**
   * blockQuoteContinue: a blank line ends the quote; otherwise a `>` line
   * is added stripped and any other line lazily as it is.
   */
  function QuoteContinue(line: Line, b: Block): (r: Option<Block>)
    requires b.data.QuoteData? && |line.text| > 0
    ensures r.Some? <==> b.interrupted == 0
    ensures r.Some? ==> (r.value.interrupted == 0 && r.value.data.QuoteData?
      && r.value.data.lines == b.data.lines + [if line.text[0] == '>' then QuoteStrip(line.text) else line.text])
  {
    if b.interrupted > 0 then None
    else if line.text[0] == '>' then Some(Block(QuoteData(b.data.lines + [QuoteStrip(line.text)]), 0))
    else Some(Block(QuoteData(b.data.lines + [line.text]), 0))
  }

  /** blockReference: the definition itself is recorded by the caller, into the reference table. */
  function ReferenceStart(line: Line): (r: Option<Block>)
    ensures r.Some? <==> ParseReference(line.text).Some?
    ensures r.Some? ==> r.value == Block(ReferenceData(ParseReference(line.text).value), 0)
  {
    match ParseReference(line.text)
    case Some(d) => Some(Block(ReferenceData(d), 0))
    case None => None
  }

  /** paragraph: a line no block kind claims starts a paragraph. */
  function ParagraphStart(line: Line): Block {
    Block(ParagraphData(line.text), 0)
  }

  /** paragraphContinue: without a blank line between, the line joins the paragraph after a line feed. */
  function ParagraphContinue(line: Line, b: Block): (r: Option<Block>)
    requires b.data.ParagraphData?
    ensures r.Some? <==> b.interrupted == 0
    ensures r.Some? ==> r.value == Block(ParagraphData(b.data.text + "\n" + line.text), 0)
  {
    if b.interrupted > 0 then None else Some(Block(ParagraphData(b.data.text + "\n" + line.text), 0))
  }

  /**
   * A heading written as `#`s, a space and its text, optionally closed by a
   * space and more `#`s, reads back as that level and that text.
   */
  lemma HeaderRoundTrip(level: nat, s: string, closing: nat)
    requires 1 <= level <= 6 && s != []
    requires s[0] !in {'#', ' '} && s[|s| - 1] !in {'#', ' '}
    ensures var t := Repeat('#', level) + " " + s + (if closing > 0 then " " + Repeat('#', closing) else "");
      HeaderStart(Line(t, 0, t)) == Some(Block(HeaderData(level, s), 0))
  {
    var t := Repeat('#', level) + " " + s + (if closing > 0 then " " + Repeat('#', closing) else "");
    var m := " " + s + (if closing > 0 then " " else "");
    var hashes := Repeat('#', level);
    assert t == hashes + m + Repeat('#', closing) by {
      if closing == 0 {
        assert Repeat('#', closing) == [];
      }
    }
    assert Span(t, 0, {'#'}) == level by {
      assert t[..level] == hashes && t[level] == ' ';
      SpanPrefix(t, hashes, '#');
    }
    TrimHashes(level, m, closing);
    TrimSpaces(s, closing > 0);
  }

  /** strspn stops at the first character after a run of `c`. */
  lemma {:induction false} SpanPrefix(t: string, p: string, c: char)
    requires |p| < |t| && t[..|p|] == p && t[|p|] != c
    requires forall i :: 0 <= i < |p| ==> p[i] == c
    ensures Span(t, 0, {c}) == |p|
  {
    SpanFrom(t, 0, |p|, c);
  }

  lemma {:induction false} SpanFrom(t: string, i: nat, n: nat, c: char)
    requires i <= n < |t| && t[n] != c
    requires forall k :: i <= k < n ==> t[k] == c
    ensures Span(t, i, {c}) == n - i
    decreases n - i
  {
    if i < n {
      SpanFrom(t, i + 1, n, c);
    }
  }

  /** Trimming `#` strips exactly the runs at both ends. */
  lemma TrimHashes(level: nat, m: string, closing: nat)
    requires m != [] && m[0] != '#' && m[|m| - 1] != '#'
    ensures Trim(Repeat('#', level) + m + Repeat('#', closing), {'#'}) == m
  {
    var t := Repeat('#', level) + m + Repeat('#', closing);
    LTrimRun(Repeat('#', level), m + Repeat('#', closing), '#');
    assert t == Repeat('#', level) + (m + Repeat('#', closing));
    RTrimRun(m, Repeat('#', closing), '#');
  }

  /** The spaces around the heading text go. */
  lemma TrimSpaces(s: string, trailing: bool)
    requires s != [] && s[0] != ' ' && s[|s| - 1] != ' '
    ensures Trim(" " + s + (if trailing then " " else ""), {' '}) == s
  {
    var m := " " + s + (if trailing then " " else "");
    LTrimRun(" ", s + (if trailing then " " else ""), ' ');
    assert m == " " + (s + (if trailing then " " else ""));
    if trailing {
      RTrimRun(s, " ", ' ');
    } else {
      assert RTrim(s, {' '}) == s;
    }
  }
}
