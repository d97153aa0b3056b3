/**
 * The parser object (SourceParser.php): its settings, the reference table
 * `DefinitionData` that parsing fills and links read, and the loops the
 * source runs.  Each method is proved to compute what the specification
 * functions of BlockParser, InlineScanner and Render say, and to leave the
 * table as they do.
 */
module SourceParser {
  import opened Wrappers
  import opened Strings
  import opened Lines
  import opened Settings
  import opened Tree
  import opened References
  import opened Blocks
  import opened SimpleBlocks
  import opened BlockParser
  import opened InlineHandlers
  import opened InlineScanner
  import opened Render

  /** One match of the break pattern: the text before it, a break and a line feed, then the pieces of the rest. */
  lemma BreakStep(done: seq<Element>, text: string, breaksEnabled: bool)
    requires FirstBreak(text, 0, breaksEnabled).Some?
    ensures var m := FirstBreak(text, 0, breaksEnabled).value;
      done + BreakPieces(text, breaksEnabled)
        == (done + [TextNode(text[..m.0]), Br, Newline]) + BreakPieces(text[m.1..], breaksEnabled)
  {
    var m := FirstBreak(text, 0, breaksEnabled).value;
    var rest := BreakTexts(text[m.1..], breaksEnabled);
    assert BreakTexts(text, breaksEnabled) == [text[..m.0]] + rest;
    assert ([text[..m.0]] + rest)[1..] == rest;
    var piece := [TextNode(text[..m.0]), Br, Newline];
    assert BreakPieces(text, breaksEnabled) == piece + Interleave(rest);
    Associative(done, piece, Interleave(rest));
  }

  lemma Associative<T>(a: seq<T>, b: seq<T>, c: seq<T>)
    ensures a + (b + c) == (a + b) + c
  {
  }

  /** `raw` holds, one for one, the elements the pieces stand for. */
  predicate StandFor(raw: seq<Element>, ps: seq<Piece>, cfg: Config) {
    |raw| == |ps| && forall k :: 0 <= k < |ps| ==> raw[k] == PieceElement(ps[k], cfg)
  }

  lemma StandForAppend(raw: seq<Element>, ps: seq<Piece>, raw': seq<Element>, ps': seq<Piece>, cfg: Config)
    requires StandFor(raw, ps, cfg) && StandFor(raw', ps', cfg)
    ensures StandFor(raw + raw', ps + ps', cfg)
  {
  }

  lemma StandForOne(a: Element, x: Piece, cfg: Config)
    requires a == PieceElement(x, cfg)
    ensures StandFor([a], [x], cfg)
  {
  }

  lemma StandForPair(a: Element, b: Element, x: Piece, y: Piece, cfg: Config)
    requires a == PieceElement(x, cfg) && b == PieceElement(y, cfg)
    ensures StandFor([a, b], [x, y], cfg)
  {
  }

  /** Elements built piece by piece and then given the autobreak default are the elements of the pieces. */
  lemma PiecesFinalised(ps: seq<Piece>, raw: seq<Element>, elements: seq<Element>, cfg: Config)
    requires StandFor(raw, ps, cfg)
    requires |elements| == |raw| && forall k :: 0 <= k < |raw| ==> elements[k] == Finalise(raw[k])
    ensures elements == PieceElements(ps, cfg)
  {
  }

  /** One more attribute adds its own markup, which is nothing when its value is null. */
  lemma AttributeStep(attributes: seq<Attribute>, i: nat)
    requires i < |attributes|
    ensures AttributeMarkup(attributes[..i + 1]) == AttributeMarkup(attributes[..i]) + AttributeText(attributes[i])
  {
    AttributeMarkupAppend(attributes[..i], [attributes[i]]);
    assert attributes[..i + 1] == attributes[..i] + [attributes[i]];
    assert AttributeMarkup([attributes[i]]) == AttributeText(attributes[i]) + AttributeMarkup([]);
  }

  /** The first kind that is not excluded and recognises the excerpt, when all before it do not. */
  lemma FirstAcceptingAt(kinds: seq<InlineKind>, t: string, nn: set<InlineKind>, rec: Recogniser, cfg: Config, i: nat)
    requires i < |kinds| && kinds[i] !in nn && rec(kinds[i], t).Some?
    requires forall j :: 0 <= j < i ==> kinds[j] in nn || rec(kinds[j], t).None?
    ensures FirstAccepting(kinds, t, nn, rec, cfg) == Some((i, rec(kinds[i], t).value))
  {
  }

  /** No kind recognises the excerpt unless excluded. */
  lemma FirstAcceptingNone(kinds: seq<InlineKind>, t: string, nn: set<InlineKind>, rec: Recogniser, cfg: Config)
    requires forall j :: 0 <= j < |kinds| ==> kinds[j] in nn || rec(kinds[j], t).None?
    ensures FirstAccepting(kinds, t, nn, rec, cfg).None?
  {
  }

  class Parser {
    /** breaksEnabled, liturgicalElements and liturgicalHTML, as the setters left them. */
    const cfg: Config
    /** DefinitionData['Reference']: the link references defined so far. */
    var definitionData: Definitions

    /** A parser with the given settings and no references defined. */
    constructor(cfg: Config)
      ensures this.cfg == cfg && definitionData == map[]
    {
      this.cfg := cfg;
      definitionData := map[];
    }

    // ----- blocks -----

    /**
     * One line that is not blank: the open block continues, or it is
     * settled and the line is tried against the candidate kinds in order,
     * and finally against the paragraph.
     */
    method FeedLine(elements: seq<Element>, current: Option<Block>, line: Line)
      returns (elements': seq<Element>, current': Option<Block>)
      requires |line.text| > 0
      modifies this
      ensures State(elements', current', definitionData) == Feed(State(elements, current, old(definitionData)), line)
    {
      if current.Some? && Continuable(KindOf(current.value)) {
        var cont := ContinueBlock(line, current.value);
        if cont.Some? {
          definitionData := Record(definitionData, cont.value.defined);
          return elements, Some(cont.value.block);
        }
      }
      var settled := if current.Some? && Continuable(KindOf(current.value)) then Some(Settle(current.value)) else current;
      elements', current' := BeginLine(elements, settled, line);
    }

    /**
     * A line that no open block takes: the candidate kinds for its first
     * character in order, the first that starts a block winning, and
     * otherwise the paragraph, which the line continues or opens.
     */
    method BeginLine(elements: seq<Element>, current: Option<Block>, line: Line)
      returns (elements': seq<Element>, current': Option<Block>)
      requires |line.text| > 0
      modifies this
      ensures State(elements', current', definitionData)
        == Begin(State(elements, current, old(definitionData)), line, Candidates(line.text[0]))
    {
      ghost var s := State(elements, current, definitionData);
      var kinds := Candidates(line.text[0]);
      var k := 0;
      while k < |kinds|
        invariant 0 <= k <= |kinds|
        invariant definitionData == old(definitionData)
        invariant Begin(s, line, kinds) == Begin(s, line, kinds[k..])
      {
        var b := Start(kinds[k], line, current);
        if b.Some? {
          elements' := if Identified(kinds[k]) then elements else Flush(elements, current);
          definitionData := Record(definitionData, Defined(b.value));
          return elements', b;
        }
        assert kinds[k..][1..] == kinds[k + 1..];
        k := k + 1;
      }
      var cont: Option<Block> := None;
      if current.Some? && current.value.data.ParagraphData? {
        cont := ParagraphContinue(line, current.value);
      }
      if cont.Some? {
        elements', current' := elements, cont;
      } else {
        elements', current' := Flush(elements, current), Some(ParagraphStart(line));
      }
    }

    /**
     * linesElements: every line in turn, a blank one only counting as an
     * interruption of the open block; then the open block is completed and
     * flushed.  The definitions met are added to the table.
     */
    method LinesElements(lines: seq<string>) returns (elements: seq<Element>)
      modifies this
      ensures (elements, definitionData) == BlockParser.LinesElements(old(definitionData), lines)
    {
      ghost var start := State([], None, definitionData);
      elements := [];
      var current: Option<Block> := None;
      for i := 0 to |lines|
        invariant State(elements, current, definitionData) == Run(start, lines[..i])
      {
        assert lines[..i + 1][..i] == lines[..i];
        var raw := lines[i];
        if IsBlank(raw) {
          if current.Some? {
            current := Some(current.value.(interrupted := current.value.interrupted + 1));
          }
          continue;
        }
        var body := ExpandTabs(raw);
        var line := MakeLine(body);
        assert line == LineOf(raw);
        elements, current := FeedLine(elements, current, line);
      }
      assert lines[..|lines|] == lines;
      if current.Some? && Continuable(KindOf(current.value)) && Completable(KindOf(current.value)) {
        current := Some(Complete(current.value));
      }
      elements := Flush(elements, current);
    }

    // ----- inline text -----

    /**
     * pregReplaceElements with the break pattern of the settings and the
     * replacement `br`, line feed: the text before each match in turn,
     * each followed by the replacement, then what is left.
     */
    static method PregReplaceElements(s: string, breaksEnabled: bool) returns (r: seq<Element>)
      ensures r == BreakPieces(s, breaksEnabled)
    {
      r := [];
      var text := s;
      while true
        invariant r + BreakPieces(text, breaksEnabled) == BreakPieces(s, breaksEnabled)
        decreases |text|
      {
        var m := FirstBreak(text, 0, breaksEnabled);
        if m.None? {
          break;
        }
        BreakStep(r, text, breaksEnabled);
        r := r + [TextNode(text[..m.value.0]), Br, Newline];
        text := text[m.value.1..];
      }
      assert BreakPieces(text, breaksEnabled) == [TextNode(text)];
      r := r + [TextNode(text)];
    }

    /** inlineText: the text as an unnamed element of its pieces. */
    method InlineText(s: string) returns (e: Element)
      ensures e == InlineScanner.InlineText(s, cfg)
    {
      var pieces := PregReplaceElements(s, cfg.breaksEnabled);
      e := Group(pieces);
    }

    /** The autobreak default: every element that does not say gets false. */
    static method Finalised(raw: seq<Element>) returns (elements: seq<Element>)
      ensures |elements| == |raw| && forall k :: 0 <= k < |raw| ==> elements[k] == Finalise(raw[k])
    {
      elements := [];
      for k := 0 to |raw|
        invariant |elements| == k && forall j :: 0 <= j < k ==> elements[j] == Finalise(raw[j])
      {
        var e := raw[k];
        if e.autobreak.None? {
          e := e.(autobreak := Some(false));
        }
        assert e == Finalise(raw[k]);
        elements := elements + [e];
      }
    }

    /**
     * The handlers for the excerpt's marker, in order, excluded kinds
     * skipped, each called through `rec` as the source calls
     * `inline<Type>` by name: the first that recognises the excerpt and
     * what it recognised, or none.
     */
    method Recognise(excerpt: string, nn: set<InlineKind>, rec: Recogniser) returns (found: Option<(nat, Inline)>)
      requires |excerpt| > 0
      ensures found == FirstAccepting(InlineTypes(excerpt[0], cfg), excerpt, nn, rec, cfg)
    {
      var kinds := InlineTypes(excerpt[0], cfg);
      for i := 0 to |kinds|
        invariant forall j :: 0 <= j < i ==> kinds[j] in nn || rec(kinds[j], excerpt).None?
      {
        if kinds[i] !in nn {
          var inline := rec(kinds[i], excerpt);
          if inline.Some? {
            FirstAcceptingAt(kinds, excerpt, nn, rec, cfg, i);
            return Some((i, inline.value));
          }
        }
      }
      FirstAcceptingNone(kinds, excerpt, nn, rec, cfg);
      return None;
    }

    /**
     * One turn of lineElements at the first marker of `t`: the elements
     * emitted, from the text before the marker on, and how many bytes were
     * consumed; `turn` is the pieces they stand for.
     */
    method ScanExcerpt(t: string, nn: set<InlineKind>, rec: Recogniser)
      returns (emitted: seq<Element>, consumed: nat, ghost turn: seq<Piece>)
      requires WellBehaved(rec) && SpanNot(t, 0, MarkerList) < |t|
      ensures (turn, consumed) == Turn(t, nn, rec, cfg)
      ensures StandFor(emitted, turn, cfg)
    {
      var p := SpanNot(t, 0, MarkerList);
      var found := Recognise(t[p..], nn, rec);
      if found.Some? {
        emitted, consumed, turn := EmitInline(t, p, InlineTypes(t[p], cfg)[found.value.0], found.value.1, nn);
      } else {
        emitted, consumed, turn := EmitMarker(t, p);
      }
    }

    /** The text before the marker flushed, then the recognised inline with the exclusions added. */
    method EmitInline(t: string, p: nat, kind: InlineKind, inline: Inline, nn: set<InlineKind>)
      returns (emitted: seq<Element>, consumed: nat, ghost turn: seq<Piece>)
      requires p < p + inline.extent <= |t|
      ensures consumed == p + inline.extent
      ensures turn == [Plain(t[..p]), Matched(t[p..p + inline.extent], kind, Inherit(inline.element, nn))]
      ensures StandFor(emitted, turn, cfg)
    {
      var before := InlineText(t[..p]);
      var inherited := Inherit(inline.element, nn);
      var x, y := Plain(t[..p]), Matched(t[p..p + inline.extent], kind, inherited);
      StandForPair(before, inherited, x, y, cfg);
      turn := [x, y];
      emitted := [before, inherited];
      consumed := p + inline.extent;
    }

    /** The text up to and with a marker that no handler takes, flushed. */
    method EmitMarker(t: string, p: nat)
      returns (emitted: seq<Element>, consumed: nat, ghost turn: seq<Piece>)
      requires p < |t|
      ensures consumed == p + 1 && turn == [Plain(t[..p + 1])]
      ensures StandFor(emitted, turn, cfg)
    {
      var before := InlineText(t[..p + 1]);
      StandForOne(before, Plain(t[..p + 1]), cfg);
      turn := [Plain(t[..p + 1])];
      emitted := [before];
      consumed := p + 1;
    }

    /**
     * The loop of lineElements over the text `t0`: the elements of the
     * scan of it, before the autobreak default.
     */
    method ScanLine(t0: string, nn: set<InlineKind>, rec: Recogniser) returns (raw: seq<Element>)
      requires WellBehaved(rec)
      ensures StandFor(raw, Scan(t0, nn, rec, cfg), cfg)
    {
      var t := t0;
      ghost var done: seq<Piece> := [];
      raw := [];
      while SpanNot(t, 0, MarkerList) < |t|
        invariant done + Scan(t, nn, rec, cfg) == Scan(t0, nn, rec, cfg)
        invariant StandFor(raw, done, cfg)
        decreases |t|
      {
        var emitted, consumed;
        ghost var turn;
        emitted, consumed, turn := ScanExcerpt(t, nn, rec);
        assert Scan(t, nn, rec, cfg) == turn + Scan(t[consumed..], nn, rec, cfg);
        StandForAppend(raw, done, emitted, turn, cfg);
        raw := raw + emitted;
        t := t[consumed..];
        Associative(done, turn, Scan(t, nn, rec, cfg));
        done := done + turn;
      }
      assert MarkerFree(t);
      ScanPlain(t, nn, rec, cfg);
      var last := InlineText(t);
      StandForAppend(raw, done, [last], [Plain(t)], cfg);
      raw := raw + [last];
      done := done + [Plain(t)];
    }

    /**
     * lineElements: line breaks standardised, then at each first marker
     * the handlers for it are tried; the text before an inline that is
     * recognised is flushed and the inline emitted, or the text up to and
     * with the marker is flushed; what is left is flushed at the end, and
     * every element gets the autobreak default.
     */
    method LineElements(text: string, nn: set<InlineKind>) returns (elements: seq<Element>)
      ensures elements == InlineScanner.LineElements(text, nn, definitionData, cfg)
    {
      var rec := Handlers(definitionData, cfg);
      var t := StandardizeBreaks(text);
      var raw := ScanLine(t, nn, rec);
      elements := Finalised(raw);
      PiecesFinalised(Scan(t, nn, rec, cfg), raw, elements, cfg);
    }

    // ----- handlers and markup -----

    /** li: the item's lines parsed into blocks; a tight item's leading paragraph loses its tag. */
    method Li(lines: seq<string>) returns (elements: seq<Element>)
      modifies this
      ensures (elements, definitionData) == Render.Li(old(definitionData), lines)
    {
      elements := LinesElements(lines);
      if "" !in lines && |elements| > 0 && elements[0].name == Some("p") {
        elements := elements[0 := elements[0].(name := None)];
      }
    }

    /**
     * handle: an element waiting for a handler has it run on its argument
     * with the element's exclusions, and gets what it makes as children.
     */
    method Handle(e: Element) returns (x: Element)
      modifies this
      ensures (x, definitionData) == Expand(e, old(definitionData), Render.Handle(cfg))
    {
      if !e.content.Deferred? {
        return e;
      }
      var made: seq<Element>;
      match e.content.handler {
        case LineHandler(text) =>
          made := LineElements(text, e.nonNestables);
        case LinesHandler(lines) =>
          made := LinesElements(lines);
        case ListItemHandler(items) =>
          made := Li(items);
      }
      x := e.(content := Children(made));
    }

    /** The opening tag of a named element up to its attributes, those with a null value skipped. */
    static method Open(name: string, attributes: seq<Attribute>) returns (markup: string)
      ensures markup == "<" + name + AttributeMarkup(attributes)
    {
      markup := "<" + name;
      for i := 0 to |attributes|
        invariant markup == "<" + name + AttributeMarkup(attributes[..i])
      {
        var a := attributes[i];
        AttributeStep(attributes, i);
        if a.value.None? {
          continue;
        }
        var text := " " + a.key + "=\"" + Escape.Escape(a.value.value, false) + "\"";
        Associative("<" + name, AttributeMarkup(attributes[..i]), text);
        markup := markup + text;
      }
      assert attributes[..|attributes|] == attributes;
    }

    /**
     * element: the markup of one element after its handler has run; text
     * is escaped, raw HTML written as it is, children rendered in turn.
     */
    method Element(e: Element, fuel: nat) returns (markup: string)
      modifies this
      ensures Rendered(markup, definitionData) == RenderElement(e, old(definitionData), Render.Handle(cfg), fuel)
      decreases fuel, 0
    {
      if fuel == 0 {
        return [];
      }
      var x := Handle(e);
      var opening: string := [];
      if x.name.Some? {
        opening := Open(x.name.value, x.attributes);
      }
      var inner: string;
      match x.content {
        case NoContent =>
          markup := opening + (if x.name.Some? then " />" else []);
          return;
        case Text(t) =>
          inner := Escape.Escape(t, true);
        case RawHtml(h) =>
          inner := h;
        case Child(c) =>
          inner := Element(c, fuel - 1);
        case Children(cs) =>
          inner := Elements(cs, fuel - 1);
        case Deferred(_) =>
          assert false;
          return [];
      }
      markup := if x.name.Some? then opening + ">" + inner + "</" + x.name.value + ">" else inner;
    }

    /**
     * elements: each element that is not empty in turn, a line feed before
     * it when both it and the one before allow one, and a line feed at the
     * end when the last allows one.
     */
    method Elements(es: seq<Element>, fuel: nat) returns (markup: string)
      modifies this
      ensures Rendered(markup, definitionData) == Render.Elements(es, old(definitionData), Render.Handle(cfg), fuel)
      decreases fuel, 1
    {
      ghost var whole := Render.Elements(es, definitionData, Render.Handle(cfg), fuel);
      markup := [];
      var autoBreak := true;
      for i := 0 to |es|
        invariant var rest := RenderElements(es[i..], autoBreak, definitionData, Render.Handle(cfg), fuel);
          whole == Rendered(markup + rest.markup, rest.defs)
      {
        assert es[i..][1..] == es[i + 1..];
        var e := es[i];
        if IsEmpty(e) {
          continue;
        }
        var next := AutoNext(e);
        var sep: string := if autoBreak && next then "\n" else [];
        ghost var d := definitionData;
        var m := Element(e, fuel);
        ghost var rest := RenderElements(es[i + 1..], next, definitionData, Render.Handle(cfg), fuel);
        Associative(markup, sep + m, rest.markup);
        markup := markup + (sep + m);
        autoBreak := next;
      }
      assert es[|es|..] == [];
      markup := markup + (if autoBreak then "\n" else []);
    }

    // ----- entry points -----

    /** textElements: the reference table emptied, the document cut into lines and parsed into blocks. */
    method TextElements(text: string) returns (elements: seq<Element>)
      modifies this
      ensures (elements, definitionData) == Render.TextElements(text)
    {
      definitionData := map[];
      var lines := DocumentLines(text);
      elements := LinesElements(lines);
    }

    /**
     * text: the document's blocks rendered, line feeds trimmed from both
     * ends of the markup; the table is what the rendering leaves.
     */
    method Text(text: string, fuel: nat) returns (markup: string)
      modifies this
      ensures markup == RenderText(text, cfg, fuel)
      ensures var parsed := Render.TextElements(text);
        definitionData == Render.Elements(parsed.0, parsed.1, Render.Handle(cfg), fuel).defs
    {
      var elements := TextElements(text);
      markup := Elements(elements, fuel);
      markup := TrimBreaks(markup);
    }

    /** line: one line's inline elements rendered, with the caller's exclusions. */
    method Line(text: string, nn: set<InlineKind>, fuel: nat) returns (markup: string)
      modifies this
      ensures Rendered(markup, definitionData) == RenderLine(text, nn, old(definitionData), cfg, fuel)
    {
      var elements := LineElements(text, nn);
      markup := Elements(elements, fuel);
    }
  }
}
