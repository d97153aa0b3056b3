/**
 * The line-level state machine (SourceParser.php, linesElements): each
 * line either extends the current block, starts a block of one of the
 * kinds keyed by its first character, or continues or starts a paragraph;
 * a block that gives way is turned into its element.  Reference
 * definitions are recorded in the reference table as their lines are met.
 */
module BlockParser {
  import opened Wrappers
  import opened Strings
  import opened Lines
  import opened Tree
  import opened References
  import opened Blocks
  import opened CodeBlocks
  import opened SimpleBlocks
  import opened Lists
  import opened Tables

  /** The reference table: `DefinitionData['Reference']`, keyed by lower-cased id. */
  type Definitions = map<string, Definition>

  /** The loop's state: the elements so far, the block being built, and the reference table. */
  datatype State = State(elements: seq<Element>, current: Option<Block>, defs: Definitions)

  /** The block kinds keyed by a line's first character, in the order they are tried. */
  function BlockTypes(c: char): seq<BlockKind> {
    match c
    case '#' => [Header]
    case '*' => [Rule, List]
    case '+' => [List]
    case '-' => [SetextHeader, Table, Rule, List]
    case ':' => [Table]
    case '<' => [Comment, BlockKind.Markup]
    case '=' => [SetextHeader]
    case '>' => [Quote]
    case '[' => [Reference]
    case '_' => [Rule]
    case '`' => [FencedCode]
    case '|' => [Table]
    case '~' => [FencedCode]
    case _ => if IsDigit(c) then [List] else []
  }

  /** An indented code block may start at any line; the keyed kinds follow. */
  function Candidates(c: char): (r: seq<BlockKind>)
    ensures |r| >= 1 && r[0] == BlockKind.Code
    ensures Paragraph !in r
  {
    [BlockKind.Code] + BlockTypes(c)
  }

  /**
   * The `block<Kind>` functions.  Comment and Markup decline every line, as
   * HTML in the source is escaped; a paragraph is never a candidate.
   */
  function Start(kind: BlockKind, line: Line, current: Option<Block>): (r: Option<Block>)
    requires |line.text| > 0 && kind != Paragraph
    ensures (kind == Comment || kind == BlockKind.Markup) ==> r.None?
  {
    match kind
    case Code => CodeStart(line, current)
    case Comment => None
    case FencedCode => FencedStart(line)
    case Header => HeaderStart(line)
    case List => ListStart(line, current)
    case Markup => None
    case Quote => QuoteStart(line)
    case Reference => ReferenceStart(line)
    case Rule => RuleStart(line)
    case SetextHeader => SetextStart(line, current)
    case Table => TableStart(line, current)
  }

  /** The kinds that consume the block they look back at instead of flushing it (`$Block['identified']`). */
  predicate Identified(kind: BlockKind) {
    kind in {SetextHeader, Table}
  }

  /** `block<Kind>Continue` of a continuable block; a definition met inside a list is reported with it. */
  function ContinueBlock(line: Line, b: Block): (r: Option<Continued>)
    requires |line.text| > 0 && Continuable(KindOf(b))
    ensures r.Some? && !b.data.ListData? ==> r.value.defined.None?
  {
    match b.data
    case CodeData(_) => Wrap(CodeContinue(line, b))
    case FencedData(_, _, _, _, _) => Wrap(FencedContinue(line, b))
    case ListData(_, _, _, _, _, _, _, _) =>
      ListContinue(line, b)
    case QuoteData(_) => Wrap(QuoteContinue(line, b))
    case TableData(_, _, _) => Wrap(TableContinue(line, b))
  }

  function Wrap(b: Option<Block>): (r: Option<Continued>)
    ensures r.Some? <==> b.Some?
    ensures r.Some? ==> r.value == Continued(b.value, None)
  {
    if b.Some? then Some(Continued(b.value, None)) else None
  }

  /** `block<Kind>Complete` of a completable block: only a list changes. */
  function Complete(b: Block): (r: Block)
    requires Completable(KindOf(b))
    ensures KindOf(r) == KindOf(b)
    ensures !b.data.ListData? ==> r == b
  {
    if b.data.ListData? then ListComplete(b) else b
  }

  /** The block as it stands once its continuation declined: completed when its kind can be. */
  function Settle(b: Block): (r: Block)
    ensures KindOf(r) == KindOf(b)
  {
    if Completable(KindOf(b)) then Complete(b) else b
  }

  /** Record a definition in the table; a later definition of an id replaces an earlier one. */
  function Record(defs: Definitions, d: Option<RefDef>): (r: Definitions)
    ensures d.None? ==> r == defs
    ensures d.Some? ==> r == defs[d.value.id := d.value.definition]
  {
    if d.Some? then defs[d.value.id := d.value.definition] else defs
  }

  /** What a started block records: the definition of a reference block. */
  function Defined(b: Block): Option<RefDef> {
    if b.data.ReferenceData? then Some(b.data.def) else None
  }

  /** The elements with the current block, if any, flushed into them. */
  function Flush(elements: seq<Element>, current: Option<Block>): (r: seq<Element>)
    ensures current.None? ==> r == elements
    ensures current.Some? ==> r == elements + [ExtractElement(current.value)]
  {
    if current.Some? then elements + [ExtractElement(current.value)] else elements
  }

  /**
   * The candidate loop: the first kind whose start accepts the line becomes
   * the current block, the block before it flushed unless the new one
   * consumed it; if none accepts, the line continues an open paragraph or
   * starts a new one.
   */
  function Begin(s: State, line: Line, kinds: seq<BlockKind>): (r: State)
    requires |line.text| > 0 && Paragraph !in kinds
    ensures r.current.Some?
    decreases |kinds|
  {
    if kinds == [] then
      var cont := if s.current.Some? && s.current.value.data.ParagraphData?
        then ParagraphContinue(line, s.current.value) else None;
      if cont.Some? then s.(current := cont)
      else State(Flush(s.elements, s.current), Some(ParagraphStart(line)), s.defs)
    else
      match Start(kinds[0], line, s.current)
      case Some(b) =>
        var elements := if Identified(kinds[0]) then s.elements else Flush(s.elements, s.current);
        State(elements, Some(b), Record(s.defs, Defined(b)))
      case None => Begin(s, line, kinds[1..])
  }

  /** One line that is not blank, after tab expansion. */
  function Feed(s: State, line: Line): (r: State)
    requires |line.text| > 0
    ensures r.current.Some?
  {
    var cur := s.current;
    var cont := if cur.Some? && Continuable(KindOf(cur.value)) then ContinueBlock(line, cur.value) else None;
    if cont.Some? then State(s.elements, Some(cont.value.block), Record(s.defs, cont.value.defined))
    else
      var settled := if cur.Some? && Continuable(KindOf(cur.value)) then Some(Settle(cur.value)) else cur;
      Begin(s.(current := settled), line, Candidates(line.text[0]))
  }

  /** The line record of a raw line that is not blank. */
  function LineOf(raw: string): (l: Line)
    requires !IsBlank(raw)
    ensures |l.text| > 0 && l == MakeLine(Expanded(raw))
  {
    NonBlankHasText(raw);
    MakeLine(Expanded(raw))
  }

  /** One iteration of the loop: a blank line only counts as an interruption of the current block. */
  function Step(s: State, raw: string): State {
    if IsBlank(raw) then
      if s.current.Some? then s.(current := Some(s.current.value.(interrupted := s.current.value.interrupted + 1)))
      else s
    else Feed(s, LineOf(raw))
  }

  /** The state after the given lines, the last line taken last. */
  function Run(s: State, lines: seq<string>): State
    decreases |lines|
  {
    if lines == [] then s else Step(Run(s, lines[..|lines| - 1]), lines[|lines| - 1])
  }

  /** After the last line the current block is completed and flushed. */
  function Finish(s: State): seq<Element> {
    var cur := s.current;
    var settled := if cur.Some? && Continuable(KindOf(cur.value)) && Completable(KindOf(cur.value))
      then Some(Complete(cur.value)) else cur;
    Flush(s.elements, settled)
  }

  /** linesElements: the elements of the lines, and the reference table extended by their definitions. */
  function LinesElements(defs: Definitions, lines: seq<string>): (r: (seq<Element>, Definitions))
  {
    var s := Run(State([], None, defs), lines);
    (Finish(s), s.defs)
  }
}
