/**
 * Rendering (SourceParser.php, handle, element, elements, li, text, line
 * and textElements).  An element with a pending handler is expanded first;
 * its markup is the tag with its attributes, then its children, its child
 * or its escaped text, then the closing tag, or ` />` when there is
 * nothing inside.  A list of elements puts a line feed between two
 * elements unless one of them asks not to break.
 *
 * Expanding a handler may parse lines into blocks, and a reference
 * definition among them is added to the reference table, which the links
 * rendered after it see; so rendering threads the table through, in
 * document order.  Expansion makes new elements, so rendering is bounded
 * by a depth `fuel`.
 */
module Render {
  import opened Wrappers
  import opened Strings
  import opened Lines
  import opened Escape
  import opened Settings
  import opened Tree
  import opened References
  import opened Blocks
  import opened SimpleBlocks
  import opened BlockParser
  import opened BlockProperties
  import opened InlineScanner

  /** Markup, and the reference table as rendering leaves it. */
  datatype Rendered = Rendered(markup: string, defs: Definitions)

  // ----- handlers -----

  /**
   * li: a tight item, one without an empty line, loses the `p` around its
   * first block when that block is a paragraph; nothing else changes.
   */
  function Unwrap(lines: seq<string>, es: seq<Element>): (r: seq<Element>)
    ensures |r| == |es|
    ensures forall i :: 0 < i < |es| ==> r[i] == es[i]
    ensures |es| > 0 && "" !in lines && es[0].name == Some("p") ==> r[0] == es[0].(name := None)
    ensures |es| > 0 && ("" in lines || es[0].name != Some("p")) ==> r[0] == es[0]
  {
    if "" !in lines && |es| > 0 && es[0].name == Some("p") then es[0 := es[0].(name := None)] else es
  }

  /** li: the blocks of the item's lines, unwrapped when tight, and the table they leave. */
  function Li(defs: Definitions, lines: seq<string>): (r: (seq<Element>, Definitions))
    ensures r.1 == LinesElements(defs, lines).1
    ensures r.0 == Unwrap(lines, LinesElements(defs, lines).0)
  {
    var parsed := LinesElements(defs, lines);
    (Unwrap(lines, parsed.0), parsed.1)
  }

  /**
   * What running a handler gives: the children it makes of its argument,
   * with the element's exclusions, and the reference table after it.
   */
  type Expander = (Handler, set<InlineKind>, Definitions) -> (seq<Element>, Definitions)

  /**
   * The three handlers of this parser: lineElements, which reads the table
   * and leaves it, and linesElements and li, which may add to it.
   */
  function Handle(cfg: Config): (ex: Expander)
    ensures forall h: Handler, nn: set<InlineKind>, defs: Definitions :: h.LineHandler? ==>
      ex(h, nn, defs) == (LineElements(h.text, nn, defs, cfg), defs)
    ensures forall h: Handler, nn: set<InlineKind>, defs: Definitions :: h.LinesHandler? ==>
      ex(h, nn, defs) == LinesElements(defs, h.lines)
    ensures forall h: Handler, nn: set<InlineKind>, defs: Definitions :: h.ListItemHandler? ==>
      ex(h, nn, defs) == Li(defs, h.items)
  {
    (h: Handler, nn: set<InlineKind>, defs: Definitions) =>
      match h
      case LineHandler(text) => (LineElements(text, nn, defs, cfg), defs)
      case LinesHandler(lines) => LinesElements(defs, lines)
      case ListItemHandler(items) => Li(defs, items)
  }

  /**
   * handle: a pending handler is run on its argument with the element's
   * exclusions, and what it makes becomes the element's children; an
   * element without one is left as it is.
   */
  function Expand(e: Element, defs: Definitions, ex: Expander): (r: (Element, Definitions))
    ensures !r.0.content.Deferred?
    ensures r.0.name == e.name && r.0.attributes == e.attributes
    ensures r.0.autobreak == e.autobreak && r.0.nonNestables == e.nonNestables
    ensures !e.content.Deferred? ==> r == (e, defs)
    ensures e.content.Deferred? ==> var made := ex(e.content.handler, e.nonNestables, defs);
      r.0.content == Children(made.0) && r.1 == made.1
  {
    if e.content.Deferred? then
      var made := ex(e.content.handler, e.nonNestables, defs);
      (e.(content := Children(made.0)), made.1)
    else (e, defs)
  }

  // ----- markup -----

  /** One attribute as ` key="value"`, the value escaped with quotes; nothing when the value is null. */
  function AttributeText(a: Attribute): string {
    if a.value.None? then [] else " " + a.key + "=\"" + Escape.Escape(a.value.value, false) + "\""
  }

  /** The attributes, in order. */
  function AttributeMarkup(attrs: seq<Attribute>): string {
    if attrs == [] then [] else AttributeText(attrs[0]) + AttributeMarkup(attrs[1..])
  }

  /** The opening of a named element up to its attributes; nothing for an unnamed one. */
  function Opening(e: Element): string {
    if e.name.Some? then "<" + e.name.value + AttributeMarkup(e.attributes) else []
  }

  /** The inner markup between the tags of a named element, or alone for an unnamed one. */
  function Wrapped(e: Element, inner: string): string {
    if e.name.Some? then Opening(e) + ">" + inner + "</" + e.name.value + ">" else inner
  }

  /**
   * element: the markup of one element, after its handler has run.  Raw
   * HTML is written as it is, since safe mode is off; text is escaped
   * without touching quotes.
   */
  function RenderElement(e: Element, defs: Definitions, ex: Expander, fuel: nat): (r: Rendered)
    decreases fuel, 0
  {
    if fuel == 0 then Rendered([], defs)
    else
      var x := Expand(e, defs, ex);
      var el := x.0;
      match el.content
      case NoContent => Rendered(Opening(el) + (if el.name.Some? then " />" else []), x.1)
      case Text(t) => Rendered(Wrapped(el, Escape.Escape(t, true)), x.1)
      case RawHtml(h) => Rendered(Wrapped(el, h), x.1)
      case Child(c) =>
        var inner := RenderElement(c, x.1, ex, fuel - 1);
        Rendered(Wrapped(el, inner.markup), inner.defs)
      case Children(cs) =>
        var inner := RenderElements(cs, true, x.1, ex, fuel - 1);
        Rendered(Wrapped(el, inner.markup), inner.defs)
      case Deferred(_) => assert false; Rendered([], x.1)
  }

  /**
   * elements, from the given break state on: empty elements are skipped; a
   * line feed goes before an element when the one before it allowed a
   * break and it does too; and one goes at the end when the last allowed it.
   */
  function RenderElements(es: seq<Element>, autoBreak: bool, defs: Definitions, ex: Expander, fuel: nat): (r: Rendered)
    decreases fuel, |es|
  {
    if es == [] then Rendered(if autoBreak then "\n" else [], defs)
    else if IsEmpty(es[0]) then RenderElements(es[1..], autoBreak, defs, ex, fuel)
    else
      var next := AutoNext(es[0]);
      var head := RenderElement(es[0], defs, ex, fuel);
      var rest := RenderElements(es[1..], next, head.defs, ex, fuel);
      Rendered((if autoBreak && next then "\n" else []) + head.markup + rest.markup, rest.defs)
  }

  /** elements: a list starts in the breaking state. */
  function Elements(es: seq<Element>, defs: Definitions, ex: Expander, fuel: nat): Rendered {
    RenderElements(es, true, defs, ex, fuel)
  }

  /**
   * The markups of the elements, each after `sep`, the table threaded
   * through: the layout `elements` reduces to when every element asks the
   * same of its neighbours.
   */
  function RenderJoined(es: seq<Element>, sep: string, defs: Definitions, ex: Expander, fuel: nat): (r: Rendered)
    decreases |es|
  {
    if es == [] then Rendered([], defs)
    else
      var head := RenderElement(es[0], defs, ex, fuel);
      var rest := RenderJoined(es[1..], sep, head.defs, ex, fuel);
      Rendered(sep + head.markup + rest.markup, rest.defs)
  }

  // ----- entry points -----

  /** textElements: the reference table emptied, the document cut into lines and parsed into blocks. */
  function TextElements(text: string): (r: (seq<Element>, Definitions))
    ensures r == LinesElements(map[], DocumentLines(text))
  {
    LinesElements(map[], DocumentLines(text))
  }

  /**
   * trim($markup, "\n"): line feeds stripped from the front, then from the
   * back.  Written out here rather than through Trim, whose quantified
   * contract would be instantiated over every piece of the markup.
   */
  function TrimBreaks(s: string): (r: string)
    ensures r == [] || (r[0] != '\n' && r[|r| - 1] != '\n')
    decreases |s|
  {
    if s != [] && s[0] == '\n' then TrimBreaks(s[1..])
    else if s != [] && s[|s| - 1] == '\n' then TrimBreaks(s[..|s| - 1])
    else s
  }

  /** The two trims agree. */
  lemma {:induction false} TrimBreaksIsTrim(s: string)
    ensures TrimBreaks(s) == Trim(s, {'\n'})
    decreases |s|
  {
    if s != [] && s[0] == '\n' {
      TrimBreaksIsTrim(s[1..]);
      assert LTrim(s, {'\n'}) == LTrim(s[1..], {'\n'});
    } else if s != [] && s[|s| - 1] == '\n' {
      var init := s[..|s| - 1];
      TrimBreaksIsTrim(init);
      assert LTrim(s, {'\n'}) == s;
      assert init == [] || init[0] == s[0];
      assert LTrim(init, {'\n'}) == init;
      assert RTrim(s, {'\n'}) == RTrim(init, {'\n'});
    } else {
      assert LTrim(s, {'\n'}) == s;
      assert RTrim(s, {'\n'}) == s;
    }
  }

  /** text: the markup of the document's blocks, without line feeds at either end. */
  function RenderText(text: string, cfg: Config, fuel: nat): (r: string)
    ensures r == [] || (r[0] != '\n' && r[|r| - 1] != '\n')
  {
    var parsed := TextElements(text);
    TrimBreaks(Elements(parsed.0, parsed.1, Handle(cfg), fuel).markup)
  }

  /** line: the markup of one line's inline elements, with the caller's exclusions and the current table. */
  function RenderLine(text: string, nn: set<InlineKind>, defs: Definitions, cfg: Config, fuel: nat): (r: Rendered)
  {
    Elements(LineElements(text, nn, defs, cfg), defs, Handle(cfg), fuel)
  }

  // ----- properties -----

  lemma {:induction false} AttributeMarkupAppend(a: seq<Attribute>, b: seq<Attribute>)
    ensures AttributeMarkup(a + b) == AttributeMarkup(a) + AttributeMarkup(b)
  {
    if a != [] {
      assert (a + b)[0] == a[0] && (a + b)[1..] == a[1..] + b;
      AttributeMarkupAppend(a[1..], b);
      var x, m, n := AttributeText(a[0]), AttributeMarkup(a[1..]), AttributeMarkup(b);
      assert x + (m + n) == (x + m) + n;
    } else {
      assert a + b == b;
    }
  }

  /** An attribute whose value is null leaves no trace in the markup. */
  lemma NullAttributeSkipped(a: seq<Attribute>, key: string, b: seq<Attribute>)
    ensures AttributeMarkup(a + [Attribute(key, None)] + b) == AttributeMarkup(a + b)
  {
    var nil := [Attribute(key, None)];
    assert AttributeMarkup(nil) == [] by {
      assert nil[1..] == [];
    }
    AttributeMarkupAppend(a + nil, b);
    AttributeMarkupAppend(a, nil);
    AttributeMarkupAppend(a, b);
    assert AttributeMarkup(a + nil) == AttributeMarkup(a);
  }

  /**
   * An attribute with a value is written ` key="…"`; the escaped value
   * holds no double quote, so it cannot end the quoted string early, and
   * it decodes to the value.
   */
  lemma AttributeValue(key: string, v: string)
    ensures AttributeMarkup([Attribute(key, Some(v))]) == " " + key + "=\"" + Escape.Escape(v, false) + "\""
    ensures '"' !in Escape.Escape(v, false) && Unescape(Escape.Escape(v, false)) == v
  {
    UnescapeEscape(v, false);
  }

  /**
   * An element with text is written between its tags, the text escaped so
   * that it opens no tag and decodes to the text; an unnamed one is its
   * escaped text alone.  The table is left as it is.
   */
  lemma TextElement(e: Element, t: string, defs: Definitions, ex: Expander, fuel: nat)
    requires fuel > 0 && e.content == Text(t)
    ensures RenderElement(e, defs, ex, fuel).defs == defs
    ensures e.name.Some? ==> (RenderElement(e, defs, ex, fuel).markup
      == "<" + e.name.value + AttributeMarkup(e.attributes) + ">" + Escape.Escape(t, true) + "</" + e.name.value + ">")
    ensures e.name.None? ==> RenderElement(e, defs, ex, fuel).markup == Escape.Escape(t, true)
    ensures '<' !in Escape.Escape(t, true) && Unescape(Escape.Escape(t, true)) == t
  {
    UnescapeEscape(t, true);
  }

  /** An element with nothing inside is self-closing when named and writes nothing when not. */
  lemma VoidElement(e: Element, defs: Definitions, ex: Expander, fuel: nat)
    requires fuel > 0 && e.content == NoContent
    ensures RenderElement(e, defs, ex, fuel).defs == defs
    ensures e.name.Some? ==> RenderElement(e, defs, ex, fuel).markup == "<" + e.name.value + AttributeMarkup(e.attributes) + " />"
    ensures e.name.None? ==> RenderElement(e, defs, ex, fuel).markup == []
  {
  }

  /** Raw HTML is written as it is, between the tags when named. */
  lemma RawElement(e: Element, h: string, defs: Definitions, ex: Expander, fuel: nat)
    requires fuel > 0 && e.content == RawHtml(h) && e.name.None?
    ensures RenderElement(e, defs, ex, fuel) == Rendered(h, defs)
  {
  }

  /** The elements that are not empty, in order. */
  function NonEmptyElements(es: seq<Element>): (r: seq<Element>)
    ensures forall i :: 0 <= i < |r| ==> !IsEmpty(r[i])
    ensures |r| <= |es|
  {
    if es == [] then []
    else if IsEmpty(es[0]) then NonEmptyElements(es[1..])
    else [es[0]] + NonEmptyElements(es[1..])
  }

  /** Empty elements change nothing, not even whether a line feed is due. */
  lemma {:induction false} EmptiesSkipped(es: seq<Element>, autoBreak: bool, defs: Definitions, ex: Expander, fuel: nat)
    ensures RenderElements(es, autoBreak, defs, ex, fuel) == RenderElements(NonEmptyElements(es), autoBreak, defs, ex, fuel)
    decreases |es|
  {
    if es != [] {
      if IsEmpty(es[0]) {
        EmptiesSkipped(es[1..], autoBreak, defs, ex, fuel);
      } else {
        var ne := NonEmptyElements(es);
        assert ne[0] == es[0] && ne[1..] == NonEmptyElements(es[1..]);
        var head := RenderElement(es[0], defs, ex, fuel);
        EmptiesSkipped(es[1..], AutoNext(es[0]), head.defs, ex, fuel);
      }
    }
  }

  /**
   * Elements that all refuse a break, as every element of a line does
   * unless it carries its own hint, are written back to back, with no
   * line feed between or after them.
   */
  lemma {:induction false} NoBreakRun(es: seq<Element>, autoBreak: bool, defs: Definitions, ex: Expander, fuel: nat)
    requires forall i :: 0 <= i < |es| ==> es[i].autobreak == Some(false)
    requires es != [] || !autoBreak
    ensures RenderElements(es, autoBreak, defs, ex, fuel) == RenderJoined(es, [], defs, ex, fuel)
    decreases |es|
  {
    if es != [] {
      assert !IsEmpty(es[0]) && !AutoNext(es[0]);
      var head := RenderElement(es[0], defs, ex, fuel);
      NoBreakRun(es[1..], false, head.defs, ex, fuel);
    }
  }

  /**
   * Elements that are all named, with no hint, as blocks are, each start
   * on a line of their own, and a line feed ends the list.
   */
  lemma {:induction false} BlockRun(es: seq<Element>, defs: Definitions, ex: Expander, fuel: nat)
    requires forall i :: 0 <= i < |es| ==> !IsEmpty(es[i]) && AutoNext(es[i])
    ensures var joined := RenderJoined(es, "\n", defs, ex, fuel);
      RenderElements(es, true, defs, ex, fuel) == Rendered(joined.markup + "\n", joined.defs)
    decreases |es|
  {
    if es != [] {
      var head := RenderElement(es[0], defs, ex, fuel);
      BlockRun(es[1..], head.defs, ex, fuel);
    }
  }

  // ----- whole documents -----

  /** A document of line feeds alone is one empty line. */
  lemma BlankLines(text: string)
    requires AllIn(text, {'\n'})
    ensures DocumentLines(text) == [""]
  {
    StandardizeBreaksIdentity(text);
    assert Trim(text, {'\n'}) == [];
  }

  /** An empty line makes no block and defines nothing. */
  lemma EmptyLineNoBlock(defs: Definitions)
    ensures LinesElements(defs, [""]) == ([], defs)
  {
    var s := State([], None, defs);
    assert IsBlank("");
    assert Run(s, [""]) == Step(Run(s, []), "");
  }

  /** A document of line feeds alone renders as nothing. */
  lemma BlankDocument(text: string, cfg: Config, fuel: nat)
    requires AllIn(text, {'\n'})
    ensures RenderText(text, cfg, fuel) == []
  {
    BlankLines(text);
    EmptyLineNoBlock(map[]);
    assert Elements([], map[], Handle(cfg), fuel).markup == "\n";
    assert TrimBreaks("\n") == TrimBreaks([]);
  }

  /**
   * A line with no marker byte and no line break is written as its
   * escaped text, unwrapped, and leaves the table as it is.
   */
  lemma PlainLineMarkup(text: string, nn: set<InlineKind>, defs: Definitions, cfg: Config, fuel: nat)
    requires MarkerFree(text) && '\n' !in text && '\r' !in text && fuel >= 2
    ensures RenderLine(text, nn, defs, cfg, fuel) == Rendered(Escape.Escape(text, true), defs)
  {
    PlainLine(text, nn, defs, cfg);
    var g := Group([TextNode(text)]).(autobreak := Some(false));
    PlainGroup(g, text, defs, Handle(cfg), fuel);
  }

  /** The unnamed group holding one text renders as the escaped text and ends in no break. */
  lemma PlainGroup(g: Element, text: string, defs: Definitions, ex: Expander, fuel: nat)
    requires g == Group([TextNode(text)]).(autobreak := Some(false)) && fuel >= 2
    ensures RenderElements([g], true, defs, ex, fuel) == Rendered(Escape.Escape(text, true), defs)
  {
    TextElement(TextNode(text), text, defs, ex, fuel - 1);
    LoneElement(TextNode(text), defs, ex, fuel - 1);
    UnnamedChildren(g, [TextNode(text)], defs, ex, fuel);
    LoneElement(g, defs, ex, fuel);
  }

  /** A list of one element that refuses breaks is that element's markup alone. */
  lemma LoneElement(e: Element, defs: Definitions, ex: Expander, fuel: nat)
    requires !IsEmpty(e) && !AutoNext(e)
    ensures RenderElements([e], true, defs, ex, fuel) == RenderElement(e, defs, ex, fuel)
  {
    var head := RenderElement(e, defs, ex, fuel);
    assert [e][1..] == [];
    assert RenderElements([], false, head.defs, ex, fuel) == Rendered([], head.defs);
    assert [] + head.markup + [] == head.markup;
  }

  /** An unnamed element holding children is the markup of its children, with no tags. */
  lemma UnnamedChildren(e: Element, cs: seq<Element>, defs: Definitions, ex: Expander, fuel: nat)
    requires fuel > 0 && e.name.None? && e.content == Children(cs)
    ensures RenderElement(e, defs, ex, fuel) == RenderElements(cs, true, defs, ex, fuel - 1)
  {
  }

  /** Rendering an element is rendering what its handler expands it to, with the table the expansion leaves. */
  lemma ExpandFirst(e: Element, defs: Definitions, ex: Expander, fuel: nat)
    requires fuel > 0
    ensures var x := Expand(e, defs, ex); RenderElement(e, defs, ex, fuel) == RenderElement(x.0, x.1, ex, fuel)
  {
    var x := Expand(e, defs, ex);
    assert Expand(x.0, x.1, ex) == x;
  }

  /** A named element holding children is its children between its tags. */
  lemma NamedChildren(e: Element, cs: seq<Element>, defs: Definitions, ex: Expander, fuel: nat)
    requires fuel > 0 && e.name.Some? && e.content == Children(cs)
    ensures var inner := RenderElements(cs, true, defs, ex, fuel - 1);
      RenderElement(e, defs, ex, fuel)
        == Rendered("<" + e.name.value + AttributeMarkup(e.attributes) + ">" + inner.markup + "</" + e.name.value + ">", inner.defs)
  {
  }

  /** This parser's line handler makes one text group of a plain line. */
  lemma PlainLineHandled(text: string, nn: set<InlineKind>, defs: Definitions, cfg: Config)
    requires MarkerFree(text) && '\n' !in text && '\r' !in text
    ensures Handle(cfg)(LineHandler(text), nn, defs) == ([Group([TextNode(text)]).(autobreak := Some(false))], defs)
  {
    PlainLine(text, nn, defs, cfg);
  }

  /** A paragraph whose line makes one text group is the escaped text between `p` tags. */
  lemma ParagraphMarkup(text: string, defs: Definitions, ex: Expander, fuel: nat)
    requires ex(LineHandler(text), {}, defs) == ([Group([TextNode(text)]).(autobreak := Some(false))], defs)
    requires fuel >= 3
    ensures RenderElement(Named("p", [], Deferred(LineHandler(text))), defs, ex, fuel)
      == Rendered("<p>" + Escape.Escape(text, true) + "</p>", defs)
  {
    var p := Named("p", [], Deferred(LineHandler(text)));
    var g := Group([TextNode(text)]).(autobreak := Some(false));
    ExpandFirst(p, defs, ex, fuel);
    var q := Named("p", [], Children([g]));
    assert Expand(p, defs, ex) == (q, defs);
    NamedChildren(q, [g], defs, ex, fuel);
    PlainGroup(g, text, defs, ex, fuel - 1);
    var esc := Escape.Escape(text, true);
    assert "<" + "p" + AttributeMarkup([]) + ">" + esc + "</" + "p" + ">" == "<p>" + esc + "</p>" by {
      assert "<" + "p" + AttributeMarkup([]) + ">" == "<p>";
      assert "</" + "p" + ">" == "</p>";
    }
  }

  /** trim of a markup with one line feed on each side, and none inside at either end. */
  lemma TrimBreaksAround(m: string)
    requires m != [] && m[0] != '\n' && m[|m| - 1] != '\n'
    ensures TrimBreaks("\n" + m + "\n") == m
  {
    assert ("\n" + m + "\n")[1..] == m + "\n";
    assert (m + "\n")[..|m|] == m;
    assert TrimBreaks(m) == m;
    assert TrimBreaks(m + "\n") == TrimBreaks(m);
  }

  /**
   * A one-line document of plain characters, with no whitespace, no
   * marker byte and no block marker in front, is one paragraph.
   */
  lemma PlainParagraph(text: string, cfg: Config, fuel: nat)
    requires |text| > 0 && (forall i :: 0 <= i < |text| ==> text[i] !in TrimChars)
    requires MarkerFree(text) && BlockTypes(text[0]) == [] && fuel >= 3
    ensures RenderText(text, cfg, fuel) == "<p>" + Escape.Escape(text, true) + "</p>"
  {
    assert '\n' !in text && '\r' !in text;
    PlainDocumentLines(text);
    PlainParagraphLine(map[], text);
    PlainLineHandled(text, {}, map[], cfg);
    ParagraphElements(text, Handle(cfg), fuel);
    TrimBreaksAround("<p>" + Escape.Escape(text, true) + "</p>");
  }

  /** The list holding the one paragraph puts it on a line of its own. */
  lemma ParagraphElements(text: string, ex: Expander, fuel: nat)
    requires ex(LineHandler(text), {}, map[]) == ([Group([TextNode(text)]).(autobreak := Some(false))], map[])
    requires fuel >= 3
    ensures Elements([Named("p", [], Deferred(LineHandler(text)))], map[], ex, fuel).markup
      == "\n" + ("<p>" + Escape.Escape(text, true) + "</p>") + "\n"
  {
    var p := Named("p", [], Deferred(LineHandler(text)));
    ParagraphMarkup(text, map[], ex, fuel);
    BlockRun([p], map[], ex, fuel);
    assert [p][1..] == [];
  }

  /** A document of one line without line breaks is that one line. */
  lemma PlainDocumentLines(text: string)
    requires '\n' !in text && '\r' !in text
    ensures DocumentLines(text) == [text]
  {
    StandardizeBreaksIdentity(text);
    assert LTrim(text, {'\n'}) == text;
    assert RTrim(text, {'\n'}) == text;
  }
}
