/**
 * The blocks of the line-level state machine (SourceParser.php, the
 * `$CurrentBlock` arrays).  A PHP block array carries its element under
 * construction next to bookkeeping keys; here a block carries the data its
 * element is built from, and ExtractElement builds the element when the
 * block is flushed.  `interrupted` counts the blank lines seen since the
 * block last took a line; 0 stands for the key being unset.
 */
module Blocks {
  import opened Wrappers
  import opened Strings
  import opened Tree
  import opened References

  datatype ListType = Ul | Ol

  datatype Align = Left | Center | Right

  datatype BlockData =
    | ParagraphData(text: string)
    | SetextData(level: nat, text: string)
    | HeaderData(level: nat, text: string)
    | CodeData(code: string)
    | FencedData(fence: char, openerLength: nat, language: Option<string>, code: string, complete: bool)
    | RuleData
    | QuoteData(lines: seq<string>)
    | ReferenceData(def: RefDef)
      /**
       * `items` are the finished list items and `li` the one still taking
       * lines, so the item the source reaches through `$Block['li']` is
       * always there; `indent` is `$Block['indent']`.
       */
    | ListData(listType: ListType, marker: string, markerType: char, indent: nat,
               start: Option<string>, items: seq<seq<string>>, li: seq<string>, loose: bool)
    | TableData(alignments: seq<Option<Align>>, header: seq<string>, rows: seq<seq<string>>)

  datatype Block = Block(data: BlockData, interrupted: nat)

  /** `$Block['type']`: the block function that produced the block. */
  datatype BlockKind =
    | Code | Comment | FencedCode | Header | List | Markup | Quote
    | Reference | Rule | SetextHeader | Table | Paragraph

  function KindOf(b: Block): BlockKind {
    match b.data
    case ParagraphData(_) => Paragraph
    case SetextData(_, _) => SetextHeader
    case HeaderData(_, _) => Header
    case CodeData(_) => BlockKind.Code
    case FencedData(_, _, _, _, _) => FencedCode
    case RuleData => Rule
    case QuoteData(_) => Quote
    case ReferenceData(_) => Reference
    case ListData(_, _, _, _, _, _, _, _) => List
    case TableData(_, _, _) => Table
  }

  /** isBlockContinuable: the kinds that have a `…Continue` function. */
  predicate Continuable(k: BlockKind) {
    k in {BlockKind.Code, Comment, FencedCode, List, Quote, BlockKind.Markup, Table}
  }

  /** isBlockCompletable: the kinds that have a `…Complete` function. */
  predicate Completable(k: BlockKind) {
    k in {BlockKind.Code, FencedCode, List}
  }

  /** The paragraph that the Code, SetextHeader, Table and ordered List starts look back at. */
  predicate OpenParagraph(current: Option<Block>) {
    current.Some? && current.value.data.ParagraphData? && current.value.interrupted == 0
  }

  function AlignName(a: Align): string {
    match a
    case Left => "left"
    case Center => "center"
    case Right => "right"
  }

  /** The `style` attribute of a table cell, present only when the column has an alignment. */
  function CellAttributes(a: Option<Align>): (r: seq<Attribute>)
    ensures a.None? <==> r == []
    ensures a == Some(Left) ==> r == [Attribute("style", Some("text-align: left;"))]
    ensures a == Some(Center) ==> r == [Attribute("style", Some("text-align: center;"))]
    ensures a == Some(Right) ==> r == [Attribute("style", Some("text-align: right;"))]
  {
    if a.Some? then
      assert "text-align: " + "left" + ";" == "text-align: left;";
      assert "text-align: " + "center" + ";" == "text-align: center;";
      assert "text-align: " + "right" + ";" == "text-align: right;";
      [Attribute("style", Some("text-align: " + AlignName(a.value) + ";"))]
    else []
  }

  /** A cell of row or header: the cell text is parsed inline when rendered. */
  function Cell(name: string, alignments: seq<Option<Align>>, i: nat, text: string): Element {
    var a := if i < |alignments| then alignments[i] else None;
    Named(name, CellAttributes(a), Deferred(LineHandler(text)))
  }

  /**
   * A `tr` of one cell per text, in order: cell i is a `name` element
   * styled by column i's alignment, when there is one, and holding the cell
   * text for the line handler.
   */
  function Row(name: string, alignments: seq<Option<Align>>, cells: seq<string>): (r: Element)
    ensures r.name == Some("tr") && r.attributes == []
    ensures r.content.Children? && |r.content.children| == |cells|
    ensures forall i :: 0 <= i < |cells| ==>
      r.content.children[i] == Named(name, if i < |alignments| then CellAttributes(alignments[i]) else [],
                                     Deferred(LineHandler(cells[i])))
  {
    Named("tr", [], Children(seq(|cells|, i requires 0 <= i < |cells| => Cell(name, alignments, i, cells[i]))))
  }

  function ListItem(lines: seq<string>): Element {
    Named("li", [], Deferred(ListItemHandler(lines)))
  }

  function CodeElement(attributes: seq<Attribute>, code: string): Element {
    Named("pre", [], Child(Named("code", attributes, Text(code))))
  }

  /** The attributes of a fenced block's `code` element: the class names the language. */
  function LanguageAttributes(language: Option<string>): seq<Attribute> {
    if language.Some? then [Attribute("class", Some("language-" + language.value))] else []
  }

  /**
   * extractElement: the element a finished block contributes.  Only a
   * reference definition contributes the empty element, which rendering
   * skips; every other block contributes a named element.
   */
  function ExtractElement(b: Block): (r: Element)
    ensures IsEmpty(r) <==> b.data.ReferenceData?
    ensures r.name.Some? <==> !b.data.ReferenceData?
    ensures r.nonNestables == {}
  {
    match b.data
    case ParagraphData(text) => Named("p", [], Deferred(LineHandler(text)))
    case SetextData(level, text) => Named("h" + Digits(level), [], Deferred(LineHandler(text)))
    case HeaderData(level, text) => Named("h" + Digits(level), [], Deferred(LineHandler(text)))
    case CodeData(code) => CodeElement([], code)
    case FencedData(_, _, language, code, _) => CodeElement(LanguageAttributes(language), code)
    case RuleData => Named("hr", [], NoContent)
    case QuoteData(lines) => Named("blockquote", [], Deferred(LinesHandler(lines)))
    case ReferenceData(_) => Hidden
    case ListData(listType, _, _, _, start, items, li, _) =>
      var lis := items + [li];
      Named(if listType == Ul then "ul" else "ol",
            if start.Some? then [Attribute("start", start)] else [],
            Children(seq(|lis|, i requires 0 <= i < |lis| => ListItem(lis[i]))))
    case TableData(alignments, header, rows) =>
      var head := Named("thead", [], Children([Row("th", alignments, header)]));
      var body := Named("tbody", [], Children(seq(|rows|, i requires 0 <= i < |rows| => Row("td", alignments, rows[i]))));
      Named("table", [], Children([head, body]))
  }
}
