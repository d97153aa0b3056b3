/**
 * The inline scanner (SourceParser.php, lineElements, inlineText and
 * pregReplaceElements).  The text is cut at the next marker byte; the kinds
 * registered for that marker are tried in order, the excluded ones
 * skipped; a recognised inline flushes the text before it and is emitted,
 * an unrecognised marker is flushed as one literal byte.  Flushed text
 * becomes an unnamed element whose pieces put a `br` at each line break.
 *
 * The functions here are the specification; the loops the source runs are
 * the methods of SourceParser.Parser, proved equal to them.
 */
module InlineScanner {
  import opened Wrappers
  import opened Strings
  import opened Lines
  import opened Tree
  import opened Settings
  import opened References
  import opened InlineHandlers

  // ----- line breaks in flushed text -----

  /** The line break element `{name: br}`. */
  const Br: Element := Named("br", [], NoContent)

  /** The text element `{text: "\n"}` written after each break. */
  const Newline: Element := TextNode("\n")

  /**
   * Where the break pattern matching at `i` ends, if it matches there.
   * With breaks enabled the pattern is `[ ]*+\n`, any spaces and a line
   * feed; otherwise it is `(?:[ ]*+\\|[ ]{2,}+)\n`, spaces and a
   * backslash, or at least two spaces, then a line feed.  The space runs
   * are possessive, so each alternative has one way to match.
   */
  function BreakEnd(s: string, i: nat, breaksEnabled: bool): (r: Option<nat>)
    requires i <= |s|
    ensures r.Some? ==> i < r.value <= |s| && s[r.value - 1] == '\n'
  {
    var j := i + Span(s, i, {' '});
    if breaksEnabled then
      if j < |s| && s[j] == '\n' then Some(j + 1) else None
    else if j + 1 < |s| && s[j] == '\\' && s[j + 1] == '\n' then Some(j + 2)
    else if j - i >= 2 && j < |s| && s[j] == '\n' then Some(j + 1)
    else None
  }

  /** preg_match: the leftmost position from `from` on where the pattern matches, and the end of that match. */
  function FirstBreak(s: string, from: nat, breaksEnabled: bool): (r: Option<(nat, nat)>)
    requires from <= |s|
    ensures r.Some? ==> (from <= r.value.0 < r.value.1 <= |s|
      && BreakEnd(s, r.value.0, breaksEnabled) == Some(r.value.1))
    ensures r.Some? ==> forall k :: from <= k < r.value.0 ==> BreakEnd(s, k, breaksEnabled).None?
    ensures r.None? ==> forall k :: from <= k <= |s| ==> BreakEnd(s, k, breaksEnabled).None?
    decreases |s| - from
  {
    var here := BreakEnd(s, from, breaksEnabled);
    if here.Some? then Some((from, here.value))
    else if from == |s| then None
    else FirstBreak(s, from + 1, breaksEnabled)
  }

  /** The texts pregReplaceElements keeps: the text before each match in turn, then what is left. */
  function BreakTexts(s: string, breaksEnabled: bool): (r: seq<string>)
    ensures |r| >= 1
    decreases |s|
  {
    var m := FirstBreak(s, 0, breaksEnabled);
    if m.None? then [s]
    else [s[..m.value.0]] + BreakTexts(s[m.value.1..], breaksEnabled)
  }

  /** The kept texts as text elements with a break and a line feed between each two. */
  function Interleave(texts: seq<string>): (r: seq<Element>)
    requires |texts| >= 1
    ensures |r| == 3 * |texts| - 2 && r[0] == TextNode(texts[0]) && r[|r| - 1] == TextNode(texts[|texts| - 1])
  {
    if |texts| == 1 then [TextNode(texts[0])]
    else [TextNode(texts[0]), Br, Newline] + Interleave(texts[1..])
  }

  /** pregReplaceElements with the break pattern and the replacement `br`, `"\n"`. */
  function BreakPieces(s: string, breaksEnabled: bool): (r: seq<Element>)
    ensures |r| >= 1
  {
    Interleave(BreakTexts(s, breaksEnabled))
  }

  /** inlineText: an unnamed element holding the pieces of the text. */
  function InlineText(s: string, cfg: Config): (r: Element)
    ensures r.name.None? && r.attributes == [] && r.autobreak.None?
    ensures r.content == Children(BreakPieces(s, cfg.breaksEnabled))
  {
    Group(BreakPieces(s, cfg.breaksEnabled))
  }

  /** The lines of a text with the spaces before each line feed dropped; the last line keeps its spaces. */
  function TrimmedLines(lines: seq<string>): (r: seq<string>)
    requires |lines| >= 1
    ensures |r| == |lines| && r[|r| - 1] == lines[|lines| - 1]
  {
    if |lines| == 1 then lines
    else [RTrim(lines[0], {' '})] + TrimmedLines(lines[1..])
  }

  /**
   * With breaks enabled every line feed is a break: the kept texts are the
   * lines of the text, each stripped of the spaces before its line feed.
   */
  lemma {:induction false} BreaksAtEveryLine(s: string)
    ensures BreakTexts(s, true) == TrimmedLines(Split(s, '\n'))
    decreases |s|
  {
    if '\n' in s {
      var n := IndexOf(s, '\n');
      BreaksAtEveryLine(s[n + 1..]);
      LineBreakTexts(s, n);
      LineTrimmedLines(s, n);
    }
  }

  /** With breaks enabled, the first kept text is the first line without its trailing spaces. */
  lemma LineBreakTexts(s: string, n: nat)
    requires n < |s| && s[n] == '\n' && '\n' !in s[..n]
    ensures BreakTexts(s, true) == [RTrim(s[..n], {' '})] + BreakTexts(s[n + 1..], true)
  {
    var m := |RTrim(s[..n], {' '})|;
    FirstBreakAtLine(s, n);
    assert s[..m] == RTrim(s[..n], {' '});
  }

  /** The trimmed lines of a text are its first line trimmed, then the trimmed lines of the rest. */
  lemma LineTrimmedLines(s: string, n: nat)
    requires n < |s| && s[n] == '\n' && '\n' !in s[..n]
    ensures TrimmedLines(Split(s, '\n')) == [RTrim(s[..n], {' '})] + TrimmedLines(Split(s[n + 1..], '\n'))
  {
    SplitAt(s, '\n', n);
    var parts := Split(s, '\n');
    assert parts[1..] == Split(s[n + 1..], '\n');
  }

  /** The first break with breaks enabled starts where the spaces before the first line feed start. */
  lemma FirstBreakAtLine(s: string, n: nat)
    requires n < |s| && s[n] == '\n' && '\n' !in s[..n]
    ensures FirstBreak(s, 0, true) == Some((|RTrim(s[..n], {' '})|, n + 1))
  {
    var line := s[..n];
    var m := |RTrim(line, {' '})|;
    assert forall k :: m <= k < n ==> s[k] == line[k];
    SpanExact(s, m, n, {' '});
    forall k | 0 <= k < m
      ensures BreakEnd(s, k, true).None?
    {
      var j := k + Span(s, k, {' '});
      assert s[m - 1] == line[m - 1];
      assert j < m;
      assert s[j] == line[j];
    }
    FirstBreakIs(s, 0, m, n + 1, true);
  }

  /** The leftmost match: no position before `m` matches and `m` does. */
  lemma FirstBreakIs(s: string, from: nat, m: nat, e: nat, breaksEnabled: bool)
    requires from <= m <= |s| && BreakEnd(s, m, breaksEnabled) == Some(e)
    requires forall k :: from <= k < m ==> BreakEnd(s, k, breaksEnabled).None?
    ensures FirstBreak(s, from, breaksEnabled) == Some((m, e))
  {
    var r := FirstBreak(s, from, breaksEnabled);
    assert r.Some? && r.value.0 == m;
  }

  /**
   * With breaks disabled a text with no space and no backslash has no
   * break: its line feeds stay inside the one text element.
   */
  lemma PlainLineFeeds(s: string)
    requires ' ' !in s && '\\' !in s
    ensures BreakTexts(s, false) == [s]
    ensures BreakPieces(s, false) == [TextNode(s)]
  {
    forall k | 0 <= k <= |s|
      ensures BreakEnd(s, k, false).None?
    {
      assert k < |s| ==> s[k] in s;
      assert Span(s, k, {' '}) == 0;
      if k + 1 < |s| {
        assert s[k] in s;
      }
    }
  }

  /**
   * With breaks disabled a backslash or two spaces right before a line
   * feed make a hard break, and the marks are dropped with the line feed.
   */
  lemma HardBreak(a: string, mark: string, b: string)
    requires ' ' !in a && '\\' !in a
    requires mark == "\\\n" || mark == "  \n"
    ensures BreakTexts(a + mark + b, false) == [a] + BreakTexts(b, false)
  {
    var s := a + mark + b;
    forall k | 0 <= k < |a|
      ensures BreakEnd(s, k, false).None?
    {
      assert s[k] == a[k] && a[k] in a;
      assert Span(s, k, {' '}) == 0;
      if k + 1 < |s| {
        assert s[k] == a[k];
      }
    }
    if mark == "\\\n" {
      assert s[|a|] == '\\' && s[|a| + 1] == '\n';
      assert Span(s, |a|, {' '}) == 0;
    } else {
      assert s[|a|] == ' ' && s[|a| + 1] == ' ' && s[|a| + 2] == '\n';
      SpanExact(s, |a|, |a| + 2, {' '});
    }
    FirstBreakIs(s, 0, |a|, |a| + |mark|, false);
    assert s[..|a|] == a && s[|a| + |mark|..] == b;
  }

  // ----- the scan -----

  /** inlineMarkerList: the bytes at which an inline may start. */
  const MarkerList: set<char> := {'!', '*', '_', '&', '[', ':', '<', '`', '~', '\\'}

  /** What one turn of the scan emits: text flushed as it is, or an inline recognised from its source bytes. */
  datatype Piece =
    | Plain(text: string)
    | Matched(source: string, kind: InlineKind, element: Element)

  /** The bytes a piece was made from. */
  function Source(p: Piece): string {
    match p
    case Plain(t) => t
    case Matched(s, _, _) => s
  }

  /** The bytes of the pieces, in order. */
  function Sources(ps: seq<Piece>): string {
    if ps == [] then [] else Source(ps[0]) + Sources(ps[1..])
  }

  /**
   * The handlers, by kind: what `inline<Kind>` makes of an excerpt.  The
   * scanner reaches them by name, so the scan is stated for any handlers
   * that consume at least one byte and no more than they are given.
   */
  type Recogniser = (InlineKind, string) -> Option<Inline>

  ghost predicate WellBehaved(rec: Recogniser) {
    forall k: InlineKind, t: string :: rec(k, t).Some? ==> 1 <= rec(k, t).value.extent <= |t|
  }

  /** The handlers of this parser, over a reference table and settings. */
  function Handlers(defs: map<string, Definition>, cfg: Config): (rec: Recogniser)
    ensures WellBehaved(rec)
    ensures forall k: InlineKind, t: string :: |t| > 0 ==> rec(k, t) == TryKind(k, t, defs, cfg)
  {
    (k: InlineKind, t: string) => if |t| > 0 then TryKind(k, t, defs, cfg) else None
  }

  /**
   * The index of the first kind, in order, that is not excluded and whose
   * handler recognises the excerpt, with what it recognised.
   */
  function FirstAccepting(kinds: seq<InlineKind>, t: string, nn: set<InlineKind>,
                          rec: Recogniser, cfg: Config): (r: Option<(nat, Inline)>)
    ensures r.Some? ==> (r.value.0 < |kinds| && kinds[r.value.0] !in nn
      && rec(kinds[r.value.0], t) == Some(r.value.1))
    ensures r.Some? ==> forall j :: 0 <= j < r.value.0 ==> kinds[j] in nn || rec(kinds[j], t).None?
    ensures r.None? ==> forall j :: 0 <= j < |kinds| ==> kinds[j] in nn || rec(kinds[j], t).None?
  {
    if kinds == [] then None
    else if kinds[0] !in nn && rec(kinds[0], t).Some? then
      Some((0, rec(kinds[0], t).value))
    else
      var rest := FirstAccepting(kinds[1..], t, nn, rec, cfg);
      if rest.None? then None else Some((rest.value.0 + 1, rest.value.1))
  }

  /** The produced element inherits the scan's exclusions on top of its own. */
  function Inherit(e: Element, nn: set<InlineKind>): (r: Element)
    ensures r.nonNestables == e.nonNestables + nn
  {
    e.(nonNestables := e.nonNestables + nn)
  }

  /**
   * What a scan may emit: a flushed text whose only marker byte, if any,
   * is its last; or an inline that starts at a marker, was tried for that
   * marker, is not excluded and carries the exclusions on.
   */
  predicate Sound(p: Piece, nn: set<InlineKind>, cfg: Config) {
    match p
    case Plain(t) => forall j :: 0 <= j < |t| - 1 ==> t[j] !in MarkerList
    case Matched(s, k, e) =>
      s != [] && s[0] in MarkerList && k in InlineTypes(s[0], cfg) && k !in nn && nn <= e.nonNestables
  }

  predicate MarkerFree(t: string) {
    forall j :: 0 <= j < |t| ==> t[j] !in MarkerList
  }

  /**
   * One turn of the loop of lineElements, on the text still to scan, which
   * holds a marker: what it emits and how many bytes it consumes.
   */
  function Turn(text: string, nn: set<InlineKind>, rec: Recogniser, cfg: Config): (r: (seq<Piece>, nat))
    requires WellBehaved(rec) && SpanNot(text, 0, MarkerList) < |text|
    ensures 0 < r.1 <= |text| && |r.0| >= 1
  {
    var p := SpanNot(text, 0, MarkerList);
    var kinds := InlineTypes(text[p], cfg);
    var found := FirstAccepting(kinds, text[p..], nn, rec, cfg);
    if found.Some? then
      var n := found.value.1.extent;
      ([Plain(text[..p]), Matched(text[p..p + n], kinds[found.value.0], Inherit(found.value.1.element, nn))], p + n)
    else
      ([Plain(text[..p + 1])], p + 1)
  }

  /** A turn emits exactly the bytes it consumes. */
  lemma TurnSources(text: string, nn: set<InlineKind>, rec: Recogniser, cfg: Config)
    requires WellBehaved(rec) && SpanNot(text, 0, MarkerList) < |text|
    ensures var r := Turn(text, nn, rec, cfg); Sources(r.0) == text[..r.1]
  {
    var p := SpanNot(text, 0, MarkerList);
    if FirstAccepting(InlineTypes(text[p], cfg), text[p..], nn, rec, cfg).Some? {
      TurnSourcesMatch(text, nn, rec, cfg);
    } else {
      TurnSourcesMiss(text, nn, rec, cfg);
    }
  }

  /** A turn at a marker no handler takes emits the text up to and with the marker. */
  lemma TurnSourcesMiss(text: string, nn: set<InlineKind>, rec: Recogniser, cfg: Config)
    requires WellBehaved(rec) && SpanNot(text, 0, MarkerList) < |text|
    requires var p := SpanNot(text, 0, MarkerList);
      FirstAccepting(InlineTypes(text[p], cfg), text[p..], nn, rec, cfg).None?
    ensures var r := Turn(text, nn, rec, cfg); Sources(r.0) == text[..r.1]
  {
    var p := SpanNot(text, 0, MarkerList);
    SourcesOne(Plain(text[..p + 1]));
  }

  /** A turn that recognises an inline emits the text before it and the inline's own bytes. */
  lemma TurnSourcesMatch(text: string, nn: set<InlineKind>, rec: Recogniser, cfg: Config)
    requires WellBehaved(rec) && SpanNot(text, 0, MarkerList) < |text|
    requires var p := SpanNot(text, 0, MarkerList);
      FirstAccepting(InlineTypes(text[p], cfg), text[p..], nn, rec, cfg).Some?
    ensures var r := Turn(text, nn, rec, cfg); Sources(r.0) == text[..r.1]
  {
    var p := SpanNot(text, 0, MarkerList);
    var kinds := InlineTypes(text[p], cfg);
    var found := FirstAccepting(kinds, text[p..], nn, rec, cfg);
    var n := found.value.1.extent;
    var y := Matched(text[p..p + n], kinds[found.value.0], Inherit(found.value.1.element, nn));
    var r := Turn(text, nn, rec, cfg);
    assert r == ([Plain(text[..p]), y], p + n);
    MatchSources(text, p, n, y);
  }

  /** The text before a marker, then an inline made from the bytes from the marker on. */
  lemma MatchSources(text: string, p: nat, n: nat, y: Piece)
    requires p + n <= |text| && y.Matched? && y.source == text[p..p + n]
    ensures Sources([Plain(text[..p]), y]) == text[..p + n]
  {
    SourcesPair(Plain(text[..p]), y);
    assert text[..p + n] == text[..p] + text[p..p + n];
  }

  /** The bytes of two pieces. */
  lemma SourcesPair(x: Piece, y: Piece)
    ensures Sources([x, y]) == Source(x) + Source(y)
  {
    assert [x, y][1..] == [y];
    SourcesOne(y);
  }

  /** Everything a turn emits is sound. */
  lemma TurnSound(text: string, nn: set<InlineKind>, rec: Recogniser, cfg: Config)
    requires WellBehaved(rec) && SpanNot(text, 0, MarkerList) < |text|
    ensures var r := Turn(text, nn, rec, cfg); forall i :: 0 <= i < |r.0| ==> Sound(r.0[i], nn, cfg)
  {
    var p := SpanNot(text, 0, MarkerList);
    var kinds := InlineTypes(text[p], cfg);
    var found := FirstAccepting(kinds, text[p..], nn, rec, cfg);
    if found.Some? {
      assert kinds[found.value.0] in kinds;
    }
  }

  /** The loop of lineElements: turns until no marker is left, then the rest flushed whole. */
  function Scan(text: string, nn: set<InlineKind>, rec: Recogniser, cfg: Config): (r: seq<Piece>)
    requires WellBehaved(rec)
    ensures |r| >= 1
    decreases |text|
  {
    if SpanNot(text, 0, MarkerList) == |text| then [Plain(text)]
    else
      var turn := Turn(text, nn, rec, cfg);
      turn.0 + Scan(text[turn.1..], nn, rec, cfg)
  }

  /**
   * Every piece of a scan is sound, and the last is the text after the
   * last marker, flushed whole.
   */
  /**
   * A run of pieces a scan may leave: every piece sound, and the last one
   * the text after the last marker, flushed whole.
   */
  predicate SoundRun(r: seq<Piece>, nn: set<InlineKind>, cfg: Config) {
    |r| >= 1 && r[|r| - 1].Plain? && MarkerFree(r[|r| - 1].text)
    && forall i :: 0 <= i < |r| ==> Sound(r[i], nn, cfg)
  }

  lemma SoundRunAppend(a: seq<Piece>, b: seq<Piece>, nn: set<InlineKind>, cfg: Config)
    requires forall i :: 0 <= i < |a| ==> Sound(a[i], nn, cfg)
    requires SoundRun(b, nn, cfg)
    ensures SoundRun(a + b, nn, cfg)
  {
    var r := a + b;
    assert r[|r| - 1] == b[|b| - 1];
    forall i | 0 <= i < |r|
      ensures Sound(r[i], nn, cfg)
    {
      if i >= |a| {
        assert r[i] == b[i - |a|];
      }
    }
  }

  /** Every scan leaves a sound run. */
  lemma {:induction false} ScanSound(text: string, nn: set<InlineKind>, rec: Recogniser, cfg: Config)
    requires WellBehaved(rec)
    ensures SoundRun(Scan(text, nn, rec, cfg), nn, cfg)
    decreases |text|
  {
    if SpanNot(text, 0, MarkerList) == |text| {
      var r := [Plain(text)];
      assert Scan(text, nn, rec, cfg) == r;
      assert MarkerFree(r[0].text);
    } else {
      var turn := Turn(text, nn, rec, cfg);
      var rest := Scan(text[turn.1..], nn, rec, cfg);
      ScanSound(text[turn.1..], nn, rec, cfg);
      TurnSound(text, nn, rec, cfg);
      SoundRunAppend(turn.0, rest, nn, cfg);
    }
  }

  lemma SourcesOne(x: Piece)
    ensures Sources([x]) == Source(x)
  {
    assert [x][1..] == [];
  }

  /** The bytes of two runs of pieces are the bytes of the first, then of the second. */
  lemma {:induction false} SourcesAppend(a: seq<Piece>, b: seq<Piece>)
    ensures Sources(a + b) == Sources(a) + Sources(b)
  {
    if a != [] {
      assert (a + b)[1..] == a[1..] + b;
      SourcesAppend(a[1..], b);
    } else {
      assert a + b == b;
    }
  }

  /** The flushed texts and the recognised inlines partition the text: no byte is dropped or repeated. */
  lemma {:induction false} ScanPartition(text: string, nn: set<InlineKind>, rec: Recogniser, cfg: Config)
    requires WellBehaved(rec)
    ensures Sources(Scan(text, nn, rec, cfg)) == text
    decreases |text|
  {
    if SpanNot(text, 0, MarkerList) == |text| {
      assert Scan(text, nn, rec, cfg) == [Plain(text)];
      assert [Plain(text)][1..] == [];
    } else {
      var turn := Turn(text, nn, rec, cfg);
      var rest := text[turn.1..];
      ScanPartition(rest, nn, rec, cfg);
      TurnSources(text, nn, rec, cfg);
      SourcesSplit(turn.0, Scan(rest, nn, rec, cfg), text, turn.1);
    }
  }

  /** Pieces made from a prefix and pieces made from the rest make the whole. */
  lemma SourcesSplit(a: seq<Piece>, b: seq<Piece>, text: string, n: nat)
    requires n <= |text| && Sources(a) == text[..n] && Sources(b) == text[n..]
    ensures Sources(a + b) == text
  {
    SourcesAppend(a, b);
    assert text == text[..n] + text[n..];
  }

  /**
   * A marker whose kinds all decline, or are excluded, is flushed with the
   * text before it as literal text, and scanning resumes one byte later.
   */
  lemma ScanMiss(text: string, p: nat, nn: set<InlineKind>, rec: Recogniser, cfg: Config)
    requires WellBehaved(rec)
    requires p < |text| && text[p] in MarkerList && MarkerFree(text[..p])
    requires forall k :: k in InlineTypes(text[p], cfg) && k !in nn ==> rec(k, text[p..]).None?
    ensures Scan(text, nn, rec, cfg) == [Plain(text[..p + 1])] + Scan(text[p + 1..], nn, rec, cfg)
  {
    ScanMarkerAt(text, p);
    var kinds := InlineTypes(text[p], cfg);
  }

  /**
   * When the first kind that recognises the excerpt at the first marker
   * is the `i`-th, the text before the marker is flushed, the inline is
   * emitted with the scan's exclusions added, and scanning resumes after
   * its extent.
   */
  lemma ScanMatch(text: string, p: nat, i: nat, nn: set<InlineKind>, rec: Recogniser, cfg: Config)
    requires WellBehaved(rec)
    requires p < |text| && text[p] in MarkerList && MarkerFree(text[..p])
    requires i < |InlineTypes(text[p], cfg)|
    requires var k := InlineTypes(text[p], cfg)[i]; k !in nn && rec(k, text[p..]).Some?
    requires forall j :: 0 <= j < i ==> var k := InlineTypes(text[p], cfg)[j];
      k in nn || rec(k, text[p..]).None?
    ensures var k := InlineTypes(text[p], cfg)[i];
      var inline := rec(k, text[p..]).value;
      Scan(text, nn, rec, cfg) == [Plain(text[..p]), Matched(text[p..p + inline.extent], k, Inherit(inline.element, nn))]
        + Scan(text[p + inline.extent..], nn, rec, cfg)
  {
    ScanMarkerAt(text, p);
    var kinds := InlineTypes(text[p], cfg);
    var found := FirstAccepting(kinds, text[p..], nn, rec, cfg);
    assert found.Some? && found.value.0 == i;
    var inline := rec(kinds[i], text[p..]).value;
    var turn := Turn(text, nn, rec, cfg);
    assert turn.1 == p + inline.extent;
    assert turn.0 == [Plain(text[..p]), Matched(text[p..p + inline.extent], kinds[i], Inherit(inline.element, nn))];
  }

  /** strpbrk finds the marker at `p` when none comes before it. */
  lemma ScanMarkerAt(text: string, p: nat)
    requires p < |text| && text[p] in MarkerList && MarkerFree(text[..p])
    ensures SpanNot(text, 0, MarkerList) == p
  {
    assert forall k :: 0 <= k < p ==> text[k] == text[..p][k];
    SpanNotExact(text, 0, p, MarkerList);
  }

  /** Text without a marker byte is flushed whole. */
  lemma ScanPlain(text: string, nn: set<InlineKind>, rec: Recogniser, cfg: Config)
    requires WellBehaved(rec)
    requires MarkerFree(text)
    ensures Scan(text, nn, rec, cfg) == [Plain(text)]
  {
    SpanNotExact(text, 0, |text|, MarkerList);
  }

  /**
   * The exclusions are respected all the way down: no piece of a scan
   * whose exclusions hold Link is a link, whatever the text.
   */
  lemma NoLinkInLink(text: string, nn: set<InlineKind>, rec: Recogniser, cfg: Config)
    requires WellBehaved(rec)
    requires Link in nn
    ensures forall p :: p in Scan(text, nn, rec, cfg) && p.Matched? ==> p.kind != Link && Link in p.element.nonNestables
  {
    var r := Scan(text, nn, rec, cfg);
    ScanSound(text, nn, rec, cfg);
    forall p | p in r && p.Matched?
      ensures p.kind != Link && Link in p.element.nonNestables
    {
      var i :| 0 <= i < |r| && r[i] == p;
      assert Sound(r[i], nn, cfg);
    }
  }

  // ----- the elements of a line -----

  /** The default every produced element gets: no autobreak hint means autobreak false. */
  function Finalise(e: Element): (r: Element)
    ensures r.autobreak.Some?
    ensures e.autobreak.Some? ==> r == e
    ensures e.autobreak.None? ==> r == e.(autobreak := Some(false))
  {
    if e.autobreak.None? then e.(autobreak := Some(false)) else e
  }

  /** The element a piece stands for. */
  function PieceElement(p: Piece, cfg: Config): Element {
    match p
    case Plain(t) => InlineText(t, cfg)
    case Matched(_, _, e) => e
  }

  /** The elements of the pieces, with the autobreak default applied. */
  function PieceElements(ps: seq<Piece>, cfg: Config): (r: seq<Element>)
    ensures |r| == |ps| && forall i :: 0 <= i < |ps| ==> r[i] == Finalise(PieceElement(ps[i], cfg))
  {
    seq(|ps|, i requires 0 <= i < |ps| => Finalise(PieceElement(ps[i], cfg)))
  }

  /**
   * lineElements: line breaks standardised, the text scanned, every
   * element given the autobreak default.  Each flushed text is an unnamed
   * element that never breaks around itself, and the last element is one.
   */
  function LineElements(text: string, nn: set<InlineKind>, defs: map<string, Definition>, cfg: Config): (r: seq<Element>)
    ensures |r| >= 1 && forall i :: 0 <= i < |r| ==> r[i].autobreak.Some?
  {
    PieceElements(Scan(StandardizeBreaks(text), nn, Handlers(defs, cfg), cfg), cfg)
  }

  /** Text without a line feed has no break in it, whatever the setting. */
  lemma NoBreakWithoutNewline(s: string, b: bool)
    requires '\n' !in s
    ensures BreakPieces(s, b) == [TextNode(s)]
  {
    assert BreakTexts(s, b) == [s];
  }

  /**
   * A line with no marker byte and no line break becomes one unnamed
   * element holding the text, which never breaks around itself.
   */
  lemma PlainLine(text: string, nn: set<InlineKind>, defs: map<string, Definition>, cfg: Config)
    requires MarkerFree(text) && '\n' !in text && '\r' !in text
    ensures LineElements(text, nn, defs, cfg) == [Group([TextNode(text)]).(autobreak := Some(false))]
  {
    StandardizeBreaksIdentity(text);
    ScanPlain(text, nn, Handlers(defs, cfg), cfg);
    NoBreakWithoutNewline(text, cfg.breaksEnabled);
  }
}
