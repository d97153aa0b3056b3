/**
 * The element tree shared by the block parser, the inline scanner and the
 * renderer.  A PHP element array with the keys name, attributes, text,
 * rawHtml, element, elements, handler, autobreak and nonNestables becomes an
 * Element whose content is one case of a sum type; a pending `handler` is the
 * Deferred case, which rendering expands before anything else.
 */
module Tree {
  import opened Wrappers

  /** Every inline kind the scanner can dispatch to (SourceParser.php, InlineTypes and LiturgicalInlineTypes). */
  datatype InlineKind =
    | Code | EmailTag | Emphasis | EscapeSequence | Image | Link | Markup
    | SpecialCharacter | Strikethrough | Url | UrlTag
    | LiturgicalCross | LiturgicalMidpoint | LiturgicalDagger | TextRed | OverUnderLine

  /** An attribute keeps its position; a null value is skipped when rendered. */
  datatype Attribute = Attribute(key: string, value: Option<string>)

  /** The three deferred expansions: lineElements, linesElements and li. */
  datatype Handler =
    | LineHandler(text: string)
    | LinesHandler(lines: seq<string>)
    | ListItemHandler(items: seq<string>)

  /** What an element holds between its tags. */
  datatype Content =
    | NoContent
    | Text(text: string)
    | RawHtml(html: string)
    | Child(child: Element)
    | Children(children: seq<Element>)
    | Deferred(handler: Handler)

  datatype Element = Element(
    name: Option<string>,
    attributes: seq<Attribute>,
    content: Content,
    autobreak: Option<bool>,
    nonNestables: set<InlineKind>)

  /** A named element with no autobreak hint and no nesting restriction. */
  function Named(name: string, attributes: seq<Attribute>, content: Content): Element {
    Element(Some(name), attributes, content, None, {})
  }

  /** An unnamed element that only holds text. */
  function TextNode(s: string): Element {
    Element(None, [], Text(s), None, {})
  }

  /** An unnamed element that only holds children. */
  function Group(children: seq<Element>): Element {
    Element(None, [], Children(children), None, {})
  }

  /**
   * The PHP empty array: no name, attributes, content or hint.  The
   * nonNestables key is only ever set together with autobreak, so it does
   * not change which arrays are empty.
   */
  predicate IsEmpty(e: Element) {
    e.name.None? && e.attributes == [] && e.content.NoContent? && e.autobreak.None?
  }

  /** The element `array()` that a reference definition leaves behind. */
  const Hidden: Element := Element(None, [], NoContent, None, {})

  /** $autoBreakNext in `elements`: the hint when set, else whether the element has a name. */
  function AutoNext(e: Element): bool {
    if e.autobreak.Some? then e.autobreak.value else e.name.Some?
  }
}
