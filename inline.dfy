/**
 * The inline handlers (SourceParser.php, inline<Kind>).  Each is given the
 * excerpt — the text from a marker byte to the end of the line's text — and
 * either declines or returns the element it recognised together with the
 * number of bytes it covers, counted from the marker.  Every regular
 * expression of the source is written out as the scan it performs; the
 * possessive and lazy quantifiers make each one deterministic.
 */
module InlineHandlers {
  import opened Wrappers
  import opened Strings
  import opened Tree
  import opened References
  import opened Settings

  /** What a handler recognised. */
  datatype Inline = Inline(extent: nat, element: Element)

  /** A handler's answer: it recognised `element`, covering `extent` bytes. */
  predicate Recognises(r: Option<Inline>, extent: nat, element: Element) {
    r.Some? && r.value.extent == extent && r.value.element == element
  }

  /** An unnamed element whose markup is emitted as it is. */
  function RawNode(html: string): Element {
    Element(None, [], RawHtml(html), None, {})
  }

  /** The kinds tried for a marker: InlineTypes, with the liturgical kinds appended when enabled. */
  function InlineTypes(marker: char, cfg: Config): (r: seq<InlineKind>)
    ensures marker == '[' ==> |r| >= 1 && r[0] == Link
    ensures marker == '_' && !cfg.liturgicalElements ==> r == []
  {
    var base := match marker
      case '!' => [Image]
      case '&' => [SpecialCharacter]
      case '*' => [Emphasis]
      case ':' => [Url]
      case '<' => [UrlTag, EmailTag, InlineKind.Markup]
      case '[' => [Link]
      case '`' => [Code]
      case '~' => [Strikethrough]
      case '\\' => [EscapeSequence]
      case _ => [];
    var liturgical := if !cfg.liturgicalElements then [] else match marker
      case '[' => [LiturgicalCross, LiturgicalMidpoint, LiturgicalDagger, TextRed]
      case '_' => [OverUnderLine]
      case _ => [];
    base + liturgical
  }

  // ----- code spans -----

  /** `[ ]*+\n` replaced by a space: every line feed, with the spaces just before it, becomes one space. */
  function JoinCodeLines(s: string): (r: string)
    ensures '\n' !in r
    ensures '\n' !in s ==> r == s
    decreases |s|
  {
    if '\n' in s then
      var k := IndexOf(s, '\n');
      var head := RTrim(s[..k], {' '});
      assert '\n' !in head by {
        assert forall i :: 0 <= i < |head| ==> head[i] == s[..k][i];
      }
      head + " " + JoinCodeLines(s[k + 1..])
    else s
  }

  /**
   * The end of a code span tested at content end `e`: the spaces there, then
   * exactly `n` of the marker, the byte before them not a marker.
   */
  predicate CodeCloses(t: string, m: char, n: nat, e: nat)
    requires 1 <= e <= |t|
  {
    var q := e + Span(t, e, {' '});
    t[q - 1] != m && q + n <= |t| && AllIn(t[q..q + n], {m}) && (q + n == |t| || t[q + n] != m)
  }

  /** The lazy `(.+?)`: the first content end from `e` on at which the closing run matches. */
  function CodeClose(t: string, m: char, n: nat, e: nat): (r: Option<nat>)
    requires 1 <= e <= |t|
    ensures r.Some? ==> e <= r.value <= |t| && CodeCloses(t, m, n, r.value)
    ensures r.Some? ==> forall k :: e <= k < r.value ==> !CodeCloses(t, m, n, k)
    ensures r.None? ==> forall k :: e <= k <= |t| ==> !CodeCloses(t, m, n, k)
    decreases |t| - e
  {
    if CodeCloses(t, m, n, e) then Some(e)
    else if e == |t| then None
    else CodeClose(t, m, n, e + 1)
  }

  /**
   * Where the content of a code span starts and ends: after the opening run
   * and the spaces following it, up to the lazy closing point.
   */
  function CodeBounds(t: string): (r: Option<(nat, nat)>)
    requires |t| > 0
    ensures r.Some? ==> (var n := Span(t, 0, {t[0]});
      r.value.0 == n + Span(t, n, {' '}) && r.value.0 < r.value.1 <= |t|
      && CodeCloses(t, t[0], n, r.value.1))
  {
    var n := Span(t, 0, {t[0]});
    var a := n + Span(t, n, {' '});
    if a == |t| then None
    else
      match CodeClose(t, t[0], n, a + 1)
      case None => None
      case Some(e) => Some((a, e))
  }

  /**
   * inlineCode: a run of the marker, optional spaces, at least one byte of
   * content, optional spaces and a run of the same length.  The content's
   * line feeds become spaces.
   */
  function InlineCode(t: string): (r: Option<Inline>)
    requires |t| > 0
    ensures r.Some? ==> (ClosingRun(t, r.value.extent)
      && r.value.element.name == Some("code") && r.value.element.content.Text?
      && '\n' !in r.value.element.content.text)
  {
    var bounds := CodeBounds(t);
    if bounds.None? then None
    else
      var a, e := bounds.value.0, bounds.value.1;
      var n := Span(t, 0, {t[0]});
      var x := e + Span(t, e, {' '}) + n;
      CodeSpanEnd(t, a, e);
      Some(Inline(x, Named("code", [], Text(JoinCodeLines(t[a..e])))))
  }

  /**
   * A code span ends at `x`: past twice its opening run, with a run of
   * the same length just before `x` and no marker at `x`.
   */
  predicate ClosingRun(t: string, x: nat) {
    |t| > 0 && var n := Span(t, 0, {t[0]});
    2 * n < x <= |t| && AllIn(t[x - n..x], {t[0]}) && (x == |t| || t[x] != t[0])
  }

  /** The closing run of a code span whose content ends at `e` lies just past its spaces. */
  lemma CodeSpanEnd(t: string, a: nat, e: nat)
    requires |t| > 0 && Span(t, 0, {t[0]}) <= a < e <= |t| && CodeCloses(t, t[0], Span(t, 0, {t[0]}), e)
    ensures ClosingRun(t, e + Span(t, e, {' '}) + Span(t, 0, {t[0]}))
  {
  }

  /**
   * A span of `n` backticks around content that neither starts nor ends
   * with a space and holds no backtick or line feed reads back as that
   * content, covering exactly the span.
   */
  lemma CodeRoundTrip(n: nat, c: string, rest: string)
    requires n >= 1 && c != [] && c[0] != ' ' && c[|c| - 1] != ' '
    requires '`' !in c && '\n' !in c
    requires rest == [] || rest[0] != '`'
    ensures Recognises(InlineCode(Repeat('`', n) + c + Repeat('`', n) + rest), 2 * n + |c|, Named("code", [], Text(c)))
  {
    var t := Repeat('`', n) + c + Repeat('`', n) + rest;
    CodeSpanFacts(n, c, rest);
    CodeSpanAt(t, n, c);
  }

  lemma CodeSpanFacts(n: nat, c: string, rest: string)
    requires n >= 1 && c != [] && c[0] != ' ' && c[|c| - 1] != ' '
    requires '`' !in c && '\n' !in c
    requires rest == [] || rest[0] != '`'
    ensures var t := Repeat('`', n) + c + Repeat('`', n) + rest;
      n + |c| < |t| && t[0] == '`' && t[n] != ' ' && t[n + |c|] == '`' && t[n..n + |c|] == c
      && Span(t, 0, {'`'}) == n && CodeClose(t, '`', n, n + 1) == Some(n + |c|)
  {
    var t := Repeat('`', n) + c + Repeat('`', n) + rest;
    CodeSpanShape(n, c, rest);
    SpanExact(t, 0, n, {'`'});
    CodeCloseFound(t, n, n + |c|);
  }

  /** Where the parts of a code span sit in the excerpt. */
  lemma CodeSpanShape(n: nat, c: string, rest: string)
    requires n >= 1 && c != [] && c[0] != ' ' && c[|c| - 1] != ' '
    requires '`' !in c
    requires rest == [] || rest[0] != '`'
    ensures var t := Repeat('`', n) + c + Repeat('`', n) + rest;
      var last := n + |c|;
      last + n <= |t| && t[n..last] == c && t[0] == '`' && t[n] != ' ' && t[last] == '`' && t[last - 1] != ' '
      && (forall k :: 0 <= k < n ==> t[k] == '`')
      && (forall k :: n <= k < last ==> t[k] != '`')
      && (forall k :: last <= k < last + n ==> t[k] == '`')
      && (last + n == |t| || t[last + n] != '`')
  {
    var t := Repeat('`', n) + c + Repeat('`', n) + rest;
    var last := n + |c|;
    assert forall k :: n <= k < last ==> t[k] == c[k - n];
    assert t[n..last] == c;
    assert last + n == |t| || t[last + n] == rest[0];
  }

  /** The same, stated on the positions of the excerpt. */
  lemma CodeSpanAt(t: string, n: nat, c: string)
    requires 1 <= n && n + |c| < |t| && c != [] && t[0] == '`' && t[n] != ' ' && t[n + |c|] == '`'
    requires Span(t, 0, {'`'}) == n
    requires CodeClose(t, '`', n, n + 1) == Some(n + |c|)
    requires t[n..n + |c|] == c && '\n' !in c
    ensures Recognises(InlineCode(t), 2 * n + |c|, Named("code", [], Text(c)))
  {
    SpanExact(t, n, n, {' '});
    SpanExact(t, n + |c|, n + |c|, {' '});
    CodeBoundsAt(t, n, n + |c|);
    InlineCodeUnfold(t, n, n, n + |c|, c, 2 * n + |c|);
  }

  /** inlineCode once the closing point is known. */
  lemma InlineCodeUnfold(t: string, n: nat, a: nat, e: nat, c: string, x: nat)
    requires |t| > 0 && n == Span(t, 0, {t[0]})
    requires CodeBounds(t).Some? && CodeBounds(t).value.0 == a && CodeBounds(t).value.1 == e
    requires t[a..e] == c && '\n' !in c
    requires x == e + Span(t, e, {' '}) + n
    ensures Recognises(InlineCode(t), x, Named("code", [], Text(c)))
  {
    assert JoinCodeLines(t[a..e]) == c;
  }

  /** Where a code span opened by `n` markers and no space, closing at `e`, has its content. */
  lemma CodeBoundsAt(t: string, n: nat, e: nat)
    requires n < |t| && t[0] == '`' && Span(t, 0, {'`'}) == n && Span(t, n, {' '}) == 0
    requires CodeClose(t, '`', n, n + 1) == Some(e)
    ensures CodeBounds(t).Some? && CodeBounds(t).value.0 == n && CodeBounds(t).value.1 == e
  {
  }

  lemma CodeCloseFound(t: string, n: nat, last: nat)
    requires 1 <= n < last && last + n <= |t|
    requires forall k :: n <= k < last ==> t[k] != '`'
    requires t[last - 1] != ' '
    requires forall k :: last <= k < last + n ==> t[k] == '`'
    requires last + n == |t| || t[last + n] != '`'
    ensures CodeClose(t, '`', n, n + 1) == Some(last)
  {
    forall k | n + 1 <= k < last
      ensures !CodeCloses(t, '`', n, k)
    {
      CodeInterior(t, n, last, k);
    }
    assert Span(t, last, {' '}) == 0;
    assert AllIn(t[last..last + n], {'`'});
    assert CodeCloses(t, '`', n, last);
  }

  /** No content end before the last byte of content closes the span. */
  lemma CodeInterior(t: string, n: nat, last: nat, k: nat)
    requires 1 <= n && 1 <= k < last <= |t|
    requires forall j :: k <= j < last ==> t[j] != '`'
    requires t[last - 1] != ' '
    ensures !CodeCloses(t, '`', n, k)
  {
    var q := k + Span(t, k, {' '});
    assert q < last;
    if q + n <= |t| {
      assert t[q..q + n][0] == t[q];
    }
  }

  // ----- escapes and entities -----

  /** The bytes a backslash escapes (specialCharacters). */
  const SpecialCharacters: set<char> :=
    {'\\', '`', '*', '_', '{', '}', '[', ']', '(', ')', '>', '#', '+', '-', '.', '!', '|', '~'}

  /** inlineEscapeSequence: a backslash before a special character stands for that character. */
  function InlineEscapeSequence(t: string): (r: Option<Inline>)
    ensures r.Some? <==> |t| >= 2 && t[1] in SpecialCharacters
    ensures r.Some? ==> r.value == Inline(2, RawNode([t[1]]))
  {
    if |t| >= 2 && t[1] in SpecialCharacters then Some(Inline(2, RawNode([t[1]]))) else None
  }

  /** The length of the run of ASCII letters and digits from `i`. */
  function AlnumRun(s: string, i: nat): (n: nat)
    requires i <= |s|
    ensures i + n <= |s|
    ensures forall k :: i <= k < i + n ==> IsAlnum(s[k])
    ensures i + n == |s| || !IsAlnum(s[i + n])
    decreases |s| - i
  {
    if i < |s| && IsAlnum(s[i]) then 1 + AlnumRun(s, i + 1) else 0
  }

  lemma AlnumRunExact(s: string, i: nat, n: nat)
    requires i <= n <= |s|
    requires forall k :: i <= k < n ==> IsAlnum(s[k])
    requires n == |s| || !IsAlnum(s[n])
    ensures AlnumRun(s, i) == n - i
  {
  }

  /**
   * inlineSpecialCharacter: `&`, an optional `#`, letters and digits and
   * `;` are passed through as markup, so the entity is not escaped.
   */
  function InlineSpecialCharacter(t: string): (r: Option<Inline>)
    ensures r.Some? ==> (3 <= r.value.extent <= |t| && t[0] == '&' && t[r.value.extent - 1] == ';'
      && r.value.element == RawNode(t[..r.value.extent])
      && forall i :: 1 <= i < r.value.extent - 1 ==> IsAlnum(t[i]) || (i == 1 && t[i] == '#'))
  {
    if t == [] || t[0] != '&' || (|t| > 1 && t[1] == ' ') || ';' !in t then None
    else
      var h := if |t| > 1 && t[1] == '#' then 1 else 0;
      var k := AlnumRun(t, 1 + h);
      if k >= 1 && 1 + h + k < |t| && t[1 + h + k] == ';' then
        assert "&" + t[1..1 + h + k] + ";" == t[..2 + h + k];
        Some(Inline(2 + h + k, RawNode("&" + t[1..1 + h + k] + ";")))
      else None
  }

  /** A named or numeric entity followed by anything is recognised whole. */
  lemma EntityRoundTrip(numeric: bool, name: string, rest: string)
    requires name != [] && forall i :: 0 <= i < |name| ==> IsAlnum(name[i])
    ensures var e := "&" + (if numeric then "#" else "") + name + ";";
      InlineSpecialCharacter(e + rest) == Some(Inline(|e|, RawNode(e)))
  {
    var h := if numeric then 1 else 0;
    var e := "&" + (if numeric then "#" else "") + name + ";";
    var t := e + rest;
    assert t[1 + h + |name|] == ';';
    assert forall k :: 1 + h <= k < 1 + h + |name| ==> t[k] == name[k - 1 - h];
    AlnumRunExact(t, 1 + h, 1 + h + |name|);
    assert t[..|e|] == e;
  }

  // ----- strikethrough -----

  /** The end of struck-through text tested at `e`: `~~` right after a byte that is not white space. */
  predicate StrikeCloses(t: string, e: nat)
    requires 3 <= e <= |t|
  {
    t[e - 1] !in PcreSpace && e + 2 <= |t| && t[e] == '~' && t[e + 1] == '~'
  }

  /** The lazy `(.+?)` without the s flag: the first closing from `e` on, before any line feed. */
  function StrikeClose(t: string, e: nat): (r: Option<nat>)
    requires 3 <= e <= |t|
    ensures r.Some? ==> e <= r.value && r.value + 2 <= |t| && StrikeCloses(t, r.value)
    ensures r.Some? ==> forall k :: e - 1 <= k < r.value ==> t[k] != '\n'
    ensures r.Some? ==> forall k :: e <= k < r.value ==> !StrikeCloses(t, k)
    decreases |t| - e
  {
    if t[e - 1] == '\n' then None
    else if StrikeCloses(t, e) then Some(e)
    else if e == |t| then None
    else StrikeClose(t, e + 1)
  }

  /**
   * inlineStrikethrough: `~~`, text on one line that starts and ends with a
   * byte other than white space, `~~`; the text is scanned again later.
   */
  function InlineStrikethrough(t: string): (r: Option<Inline>)
    ensures r.Some? ==> (4 < r.value.extent <= |t|
      && t[..2] == "~~" && t[r.value.extent - 2..r.value.extent] == "~~"
      && r.value.element == Named("del", [], Deferred(LineHandler(t[2..r.value.extent - 2])))
      && var c := t[2..r.value.extent - 2];
      '\n' !in c && c[0] !in PcreSpace && c[|c| - 1] !in PcreSpace)
  {
    if |t| < 3 || t[0] != '~' || t[1] != '~' || t[2] in PcreSpace then None
    else
      match StrikeClose(t, 3)
      case None => None
      case Some(e) =>
        assert t[..2] == "~~" && t[e..e + 2] == "~~";
        assert forall i :: 0 <= i < |t[2..e]| ==> t[2..e][i] == t[i + 2];
        Some(Inline(e + 2, Named("del", [], Deferred(LineHandler(t[2..e])))))
  }

  lemma {:induction false} StrikeCloseAt(t: string, e: nat, target: nat)
    requires 3 <= e <= target <= |t| && StrikeCloses(t, target)
    requires forall k :: e - 1 <= k < target ==> t[k] != '\n'
    requires forall k :: e <= k < target ==> !StrikeCloses(t, k)
    ensures StrikeClose(t, e) == Some(target)
    decreases target - e
  {
    if e < target {
      StrikeCloseAt(t, e + 1, target);
    }
  }

  /** Text without a tilde or line feed, bounded by bytes other than white space, reads back whole. */
  lemma StrikethroughRoundTrip(c: string, rest: string)
    requires c != [] && c[0] !in PcreSpace && c[|c| - 1] !in PcreSpace
    requires '~' !in c && '\n' !in c
    ensures InlineStrikethrough("~~" + c + "~~" + rest)
      == Some(Inline(|c| + 4, Named("del", [], Deferred(LineHandler(c)))))
  {
    var t := "~~" + c + "~~" + rest;
    var last := 2 + |c|;
    assert forall k :: 2 <= k < last ==> t[k] == c[k - 2];
    assert t[last] == '~' && t[last + 1] == '~';
    StrikeCloseAt(t, 3, last);
    assert t[2..last] == c;
  }

  // ----- URL tags -----

  /** The length of the run of word characters from `i`. */
  function WordRun(s: string, i: nat): (n: nat)
    requires i <= |s|
    ensures i + n <= |s|
    ensures forall k :: i <= k < i + n ==> IsWordChar(s[k])
    ensures i + n == |s| || !IsWordChar(s[i + n])
    decreases |s| - i
  {
    if i < |s| && IsWordChar(s[i]) then 1 + WordRun(s, i + 1) else 0
  }

  /** `\w++:\/{2}[^ >]++`: a scheme of word characters, `://`, and a rest without a space or `>`. */
  predicate IsUrl(u: string) {
    var w := WordRun(u, 0);
    w >= 1 && w + 3 < |u| && u[w..w + 3] == "://" && ' ' !in u[w + 3..] && '>' !in u[w + 3..]
  }

  lemma WordRunExact(s: string, i: nat, n: nat)
    requires i <= n <= |s|
    requires forall k :: i <= k < n ==> IsWordChar(s[k])
    requires n == |s| || !IsWordChar(s[n])
    ensures WordRun(s, i) == n - i
  {
  }

  /** inlineUrlTag: an absolute URL between `<` and `>` becomes a link to itself. */
  function InlineUrlTag(t: string): (r: Option<Inline>)
    ensures r.Some? ==> 2 <= r.value.extent <= |t| && (var url := t[1..r.value.extent - 1];
      t[0] == '<' && t[r.value.extent - 1] == '>' && IsUrl(url)
      && r.value.element == Named("a", [Attribute("href", Some(url))], Text(url)))
  {
    if t == [] || t[0] != '<' || '>' !in t then None
    else
      var s := 1 + WordRun(t, 1);
      if s == 1 || s + 3 > |t| || t[s..s + 3] != "://" then None
      else
        var k := SpanNot(t, s + 3, {' ', '>'});
        if k == 0 || s + 3 + k == |t| || t[s + 3 + k] != '>' then None
        else
          var url := t[1..s + 3 + k];
          UrlOfTag(t, s, k);
          Some(Inline(s + 4 + k, Named("a", [Attribute("href", Some(url))], Text(url))))
  }

  /** The bytes between `<` and `>` of a URL tag form a URL. */
  lemma UrlOfTag(t: string, s: nat, k: nat)
    requires 1 < s && s + 3 + k < |t| && k > 0
    requires forall i :: 1 <= i < s ==> IsWordChar(t[i])
    requires !IsWordChar(t[s]) && t[s..s + 3] == "://"
    requires forall i :: s + 3 <= i < s + 3 + k ==> t[i] !in {' ', '>'}
    ensures IsUrl(t[1..s + 3 + k])
  {
    var url := t[1..s + 3 + k];
    assert forall i :: 0 <= i < |url| ==> url[i] == t[i + 1];
    WordRunExact(url, 0, s - 1);
    assert url[s - 1..s + 2] == t[s..s + 3];
    assert url[s + 2..] == t[s + 3..s + 3 + k];
  }

  /** A URL tag reads back as a link whose text and target are the URL. */
  lemma UrlTagRoundTrip(scheme: string, path: string, rest: string)
    requires scheme != [] && forall i :: 0 <= i < |scheme| ==> IsWordChar(scheme[i])
    requires path != [] && ' ' !in path && '>' !in path
    ensures var url := scheme + "://" + path;
      Recognises(InlineUrlTag("<" + url + ">" + rest), |url| + 2, Named("a", [Attribute("href", Some(url))], Text(url)))
  {
    var url := scheme + "://" + path;
    UrlTagShape(scheme, path, rest);
    UrlTagAt("<" + url + ">" + rest, 1 + |scheme|, |url| + 1, url);
  }

  /** Where the parts of a URL tag sit in the excerpt. */
  lemma UrlTagShape(scheme: string, path: string, rest: string)
    requires scheme != [] && forall i :: 0 <= i < |scheme| ==> IsWordChar(scheme[i])
    requires path != [] && ' ' !in path && '>' !in path
    ensures var url := scheme + "://" + path; var t := "<" + url + ">" + rest;
      var s := 1 + |scheme|; var e := |url| + 1;
      s + 3 < e < |t| && t[0] == '<' && t[e] == '>' && t[1..e] == url
      && (forall i :: 1 <= i < s ==> IsWordChar(t[i])) && t[s..s + 3] == "://"
      && (forall i :: s + 3 <= i < e ==> t[i] != ' ' && t[i] != '>')
  {
    var url := scheme + "://" + path;
    var t := "<" + url + ">" + rest;
    var s := 1 + |scheme|;
    var e := s + 3 + |path|;
    assert forall i :: 1 <= i < s ==> t[i] == scheme[i - 1];
    assert t[s..s + 3] == "://";
    assert forall i :: s + 3 <= i < e ==> t[i] == path[i - s - 3];
    assert t[e] == '>';
    assert t[1..e] == url;
  }

  /** The same, stated on the positions of the excerpt. */
  lemma UrlTagAt(t: string, s: nat, e: nat, url: string)
    requires 1 < s && s + 3 < e < |t| && t[0] == '<' && t[e] == '>'
    requires forall i :: 1 <= i < s ==> IsWordChar(t[i])
    requires t[s..s + 3] == "://"
    requires forall i :: s + 3 <= i < e ==> t[i] != ' ' && t[i] != '>'
    requires t[1..e] == url
    ensures Recognises(InlineUrlTag(t), e + 1, Named("a", [Attribute("href", Some(url))], Text(url)))
  {
    assert t[s] == ':';
    WordRunExact(t, 1, s);
    SpanNotExact(t, s + 3, e, {' ', '>'});
  }

  // ----- links and images -----

  /** `\[((?:[^][]++|(?R))*+)\]` tried at `i`: the end of a balanced bracket group, past its `]`. */
  function GroupEnd(t: string, i: nat): (r: Option<nat>)
    requires i <= |t|
    ensures r.Some? ==> i + 2 <= r.value <= |t| && t[i] == '[' && t[r.value - 1] == ']'
    decreases |t| - i, 0
  {
    if i == |t| || t[i] != '[' then None
    else
      var j := ContentEnd(t, i + 1);
      if j < |t| && t[j] == ']' then Some(j + 1) else None
  }

  /** The possessive content loop: bytes other than brackets, and nested groups, for as long as either applies. */
  function ContentEnd(t: string, j: nat): (r: nat)
    requires j <= |t|
    ensures j <= r <= |t|
    decreases |t| - j, 1
  {
    if j == |t| || t[j] == ']' then j
    else if t[j] == '[' then
      match GroupEnd(t, j)
      case Some(e) => ContentEnd(t, e)
      case None => j
    else ContentEnd(t, j + 1)
  }

  /** preg_match of the unanchored group: the leftmost start from `i` on at which a group closes. */
  function FindGroup(t: string, i: nat): (r: Option<(nat, nat)>)
    requires i <= |t|
    ensures r.Some? ==> i <= r.value.0 < |t| && GroupEnd(t, r.value.0) == Some(r.value.1)
    ensures r.Some? ==> forall k :: i <= k < r.value.0 ==> GroupEnd(t, k).None?
    decreases |t| - i
  {
    if i == |t| then None
    else
      match GroupEnd(t, i)
      case Some(e) => Some((i, e))
      case None => FindGroup(t, i + 1)
  }

  /** Content free of brackets runs up to the first `]`. */
  lemma {:induction false} ContentEndPlain(t: string, j: nat, m: nat)
    requires j <= m < |t| && t[m] == ']'
    requires forall k :: j <= k < m ==> t[k] != '[' && t[k] != ']'
    ensures ContentEnd(t, j) == m
    decreases m - j
  {
    if j < m {
      ContentEndPlain(t, j + 1, m);
    }
  }

  /** A label without brackets, at the start of the excerpt, is the group that is found. */
  lemma PlainLabel(caption: string, rest: string)
    requires '[' !in caption && ']' !in caption
    ensures FindGroup("[" + caption + "]" + rest, 0) == Some((0, |caption| + 2))
  {
    var t := "[" + caption + "]" + rest;
    assert forall k :: 1 <= k < |caption| + 1 ==> t[k] == caption[k - 1];
    ContentEndPlain(t, 1, |caption| + 1);
  }

  /** The `(destination "title")` after a label: its href, title and length. */
  datatype Destination = Destination(href: string, title: Option<string>, length: nat)

  /** `(?:[^ ()]++|[(][^ )]+[)])++` from `j`: destination bytes and parenthesised pieces. */
  function DestinationEnd(t: string, j: nat): (r: nat)
    requires j <= |t|
    ensures j <= r <= |t|
    decreases |t| - j
  {
    if j < |t| && t[j] !in {' ', '(', ')'} then DestinationEnd(t, j + 1)
    else if j < |t| && t[j] == '(' then
      var k := j + 1 + SpanNot(t, j + 1, {' ', ')'});
      if k > j + 1 && k < |t| && t[k] == ')' then DestinationEnd(t, k + 1) else j
    else j
  }

  lemma {:induction false} DestinationEndPlain(t: string, j: nat, m: nat)
    requires j <= m < |t| && t[m] in {' ', ')'}
    requires forall k :: j <= k < m ==> t[k] !in {' ', '(', ')'}
    ensures DestinationEnd(t, m) == m
    ensures DestinationEnd(t, j) == m
    decreases m - j
  {
    if j < m {
      DestinationEndPlain(t, j + 1, m);
    }
  }

  /**
   * `^[(]\s*+(destination)(?:[ ]+("…"|'…'))?\s*+[)]`: the title is taken
   * only when the closing parenthesis follows it; otherwise the match is
   * tried again without one.
   */
  function InlineDestination(t: string): (r: Option<Destination>)
    ensures r.Some? ==> (|r.value.href| > 0 && 2 + |r.value.href| <= r.value.length <= |t|
      && t[0] == '(' && t[r.value.length - 1] == ')' && ' ' !in r.value.href)
  {
    if t == [] || t[0] != '(' then None
    else
      var j := 1 + Span(t, 1, PcreSpace);
      var e := DestinationEnd(t, j);
      if e == j then None
      else
        DestinationSpaceFree(t, j, e);
        var href := t[j..e];
        var titled := TitledEnd(t, href, e);
        if titled.Some? then titled else UntitledEnd(t, href, e)
  }

  /** `[ ]+("[^"]*+"|'[^']*+')\s*+[)]` from `e`: spaces, a quoted title, the closing parenthesis. */
  function TitledEnd(t: string, href: string, e: nat): (r: Option<Destination>)
    requires e <= |t|
    ensures r.Some? ==> (r.value.href == href && r.value.title.Some?
      && e + 4 <= r.value.length <= |t| && t[r.value.length - 1] == ')')
  {
    var q := e + Span(t, e, {' '});
    if q == e || q == |t| || t[q] !in {'"', '\''} then None
    else
      var close := FindFrom(t, [t[q]], q + 1);
      if close.None? then None
      else
        var k := close.value;
        var w := Span(t, k + 1, PcreSpace);
        if k + 1 + w < |t| && t[k + 1 + w] == ')' then Some(Destination(href, Some(t[q + 1..k]), k + 2 + w))
        else None
  }

  /** `\s*+[)]` from `e`: the closing parenthesis without a title. */
  function UntitledEnd(t: string, href: string, e: nat): (r: Option<Destination>)
    requires e <= |t|
    ensures r.Some? ==> (r.value.href == href && r.value.title.None?
      && e + 1 <= r.value.length <= |t| && t[r.value.length - 1] == ')')
  {
    var w := Span(t, e, PcreSpace);
    if e + w < |t| && t[e + w] == ')' then Some(Destination(href, None, e + w + 1)) else None
  }

  /** A destination holds no space. */
  lemma DestinationSpaceFree(t: string, j: nat, e: nat)
    requires j <= |t| && e == DestinationEnd(t, j)
    ensures ' ' !in t[j..e]
  {
    DestinationBytes(t, j, e);
    var href := t[j..e];
    assert forall i :: 0 <= i < |href| ==> href[i] == t[j + i];
  }

  /** The bytes a destination scan passes over. */
  lemma {:induction false} DestinationBytes(t: string, j: nat, e: nat)
    requires j <= |t| && e == DestinationEnd(t, j)
    ensures forall k :: j <= k < e ==> t[k] != ' '
    decreases |t| - j
  {
    if j < |t| && t[j] !in {' ', '(', ')'} {
      DestinationBytes(t, j + 1, e);
    } else if j < |t| && t[j] == '(' {
      var k := j + 1 + SpanNot(t, j + 1, {' ', ')'});
      if k > j + 1 && k < |t| && t[k] == ')' {
        DestinationBytes(t, k + 1, e);
      }
    }
  }

  /** `^\s*\[(.*?)\]`: a second pair of brackets on the same line, its text and the length through it. */
  function ReferenceLabel(t: string): (r: Option<(string, nat)>)
    ensures r.Some? ==> 2 + |r.value.0| <= r.value.1 <= |t| && t[r.value.1 - 1] == ']'
    ensures r.Some? ==> ']' !in r.value.0 && '\n' !in r.value.0
  {
    var w := Span(t, 0, PcreSpace);
    if w < |t| && t[w] == '[' then
      var k := w + 1 + SpanNot(t, w + 1, {']', '\n'});
      if k < |t| && t[k] == ']' then
        var id := t[w + 1..k];
        assert forall i :: 0 <= i < |id| ==> id[i] == t[w + 1 + i];
        Some((id, k + 1))
      else None
    else None
  }

  /** The link element: a target and a title, its label scanned later without links or URLs. */
  function LinkElement(caption: string, href: string, title: Option<string>): Element {
    Element(Some("a"), [Attribute("href", Some(href)), Attribute("title", title)],
      Deferred(LineHandler(caption)), None, {Url, Link})
  }

  /** The shape every link element has. */
  predicate IsLink(e: Element) {
    e.name == Some("a") && |e.attributes| == 2
    && e.attributes[0].key == "href" && e.attributes[0].value.Some? && e.attributes[1].key == "title"
    && e.content.Deferred? && e.content.handler.LineHandler?
    && {Url, Link} <= e.nonNestables
  }

  /** The key a link without an inline destination looks up (lower-cased), and the extent through it. */
  function ReferenceKey(caption: string, rest: string, extent: nat): (r: (string, nat))
    ensures ReferenceLabel(rest).None? ==> r == (Lower(caption), extent)
  {
    match ReferenceLabel(rest)
    case Some((id, n)) => (Lower(if |id| > 0 then id else caption), extent + n)
    case None => (Lower(caption), extent)
  }

  /**
   * inlineLink: the first balanced bracket group anywhere in the excerpt is
   * the label, and its length is the extent so far (the group need not start
   * at the marker).  An inline destination gives href and title; otherwise
   * the reference table is consulted, and an undefined id declines.
   */
  function InlineLink(t: string, defs: map<string, Definition>): (r: Option<Inline>)
    ensures r.Some? ==> 2 <= r.value.extent <= |t| && IsLink(r.value.element)
  {
    match FindGroup(t, 0)
    case None => None
    case Some((i, e)) =>
      var caption := t[i + 1..e - 1];
      var extent := e - i;
      var rest := t[extent..];
      match InlineDestination(rest)
      case Some(d) => Some(Inline(extent + d.length, LinkElement(caption, d.href, d.title)))
      case None =>
        var (key, n) := ReferenceKey(caption, rest, extent);
        if key in defs then Some(Inline(n, LinkElement(caption, defs[key].url, defs[key].title)))
        else None
  }

  /** A label without brackets at the marker is the label, and what follows it is the remainder. */
  lemma LabelAt(caption: string, rest: string)
    requires '[' !in caption && ']' !in caption
    ensures var t := "[" + caption + "]" + rest;
      FindGroup(t, 0) == Some((0, |caption| + 2)) && t[1..|caption| + 1] == caption && t[|caption| + 2..] == rest
  {
    PlainLabel(caption, rest);
    var t := "[" + caption + "]" + rest;
    assert t[1..|caption| + 1] == caption;
    assert t[|caption| + 2..] == rest;
  }

  /** inlineLink once the label is known to sit at the marker and an inline destination follows it. */
  lemma LinkWithDestination(t: string, caption: string, rest: string, href: string, title: Option<string>, length: nat,
                             defs: map<string, Definition>)
    requires FindGroup(t, 0) == Some((0, |caption| + 2))
    requires t[1..|caption| + 1] == caption && t[|caption| + 2..] == rest
    requires InlineDestination(rest) == Some(Destination(href, title, length))
    ensures Recognises(InlineLink(t, defs), |caption| + 2 + length, LinkElement(caption, href, title))
  {
  }

  /** inlineLink once the label is known to sit at the marker and no inline destination follows it. */
  lemma LinkWithReference(t: string, caption: string, rest: string, defs: map<string, Definition>)
    requires FindGroup(t, 0) == Some((0, |caption| + 2))
    requires t[1..|caption| + 1] == caption && t[|caption| + 2..] == rest
    requires InlineDestination(rest).None?
    ensures var (key, n) := ReferenceKey(caption, rest, |caption| + 2);
      if key in defs then Recognises(InlineLink(t, defs), n, LinkElement(caption, defs[key].url, defs[key].title))
      else InlineLink(t, defs).None?
  {
  }

  /**
   * `[label]` alone is a reference to the label's own id, lower-cased: it
   * links when that id is defined and declines otherwise.
   */
  lemma ShortcutReference(caption: string, rest: string, defs: map<string, Definition>)
    requires '[' !in caption && ']' !in caption
    requires rest == [] || rest[0] !in PcreSpace + {'(', '['}
    ensures var key := Lower(caption);
      if key in defs then Recognises(InlineLink("[" + caption + "]" + rest, defs), |caption| + 2,
        LinkElement(caption, defs[key].url, defs[key].title))
      else InlineLink("[" + caption + "]" + rest, defs).None?
  {
    LabelAt(caption, rest);
    assert Span(rest, 0, PcreSpace) == 0;
    LinkWithReference("[" + caption + "]" + rest, caption, rest, defs);
  }

  /** `[id]` after white space is the second pair of brackets of a full reference. */
  lemma ReferenceLabelOf(id: string, rest: string)
    requires ']' !in id && '\n' !in id
    ensures ReferenceLabel("[" + id + "]" + rest) == Some((id, |id| + 2))
  {
    var t := "[" + id + "]" + rest;
    assert Span(t, 0, PcreSpace) == 0;
    assert forall i :: 1 <= i < |id| + 1 ==> t[i] == id[i - 1];
    SpanNotExact(t, 1, |id| + 1, {']', '\n'});
    assert t[1..|id| + 1] == id;
  }

  /**
   * `[label][id]` looks up the id, or the label when the id is empty; the
   * extent runs through the second pair of brackets.
   */
  lemma FullReference(caption: string, id: string, rest: string, defs: map<string, Definition>)
    requires '[' !in caption && ']' !in caption && ']' !in id && '\n' !in id
    ensures var key := Lower(if id == [] then caption else id);
      if key in defs then Recognises(InlineLink("[" + caption + "]" + ("[" + id + "]" + rest), defs),
        |caption| + |id| + 4, LinkElement(caption, defs[key].url, defs[key].title))
      else InlineLink("[" + caption + "]" + ("[" + id + "]" + rest), defs).None?
  {
    var tail := "[" + id + "]" + rest;
    LabelAt(caption, tail);
    ReferenceLabelOf(id, rest);
    assert InlineDestination(tail).None?;
    LinkWithReference("[" + caption + "]" + tail, caption, tail, defs);
  }

  /** `[label](url)` links to the url, with no title, whatever the reference table holds. */
  lemma InlineLinkRoundTrip(caption: string, url: string, rest: string, defs: map<string, Definition>)
    requires '[' !in caption && ']' !in caption
    requires url != [] && url[0] !in PcreSpace
    requires forall i :: 0 <= i < |url| ==> url[i] !in {' ', '(', ')'}
    ensures Recognises(InlineLink("[" + caption + "]" + ("(" + url + ")" + rest), defs),
      |caption| + |url| + 4, LinkElement(caption, url, None))
  {
    DestinationOf(url, rest);
    LabelThenDestination(caption, "(" + url + ")" + rest, url, None, |url| + 2, defs);
  }

  /** A plain label at the marker followed by an inline destination links to that destination. */
  lemma LabelThenDestination(caption: string, tail: string, href: string, title: Option<string>, length: nat,
                             defs: map<string, Definition>)
    requires '[' !in caption && ']' !in caption
    requires InlineDestination(tail) == Some(Destination(href, title, length))
    ensures Recognises(InlineLink("[" + caption + "]" + tail, defs), |caption| + 2 + length, LinkElement(caption, href, title))
  {
    LabelAt(caption, tail);
    LinkWithDestination("[" + caption + "]" + tail, caption, tail, href, title, length, defs);
  }

  lemma DestinationOf(url: string, rest: string)
    requires url != [] && url[0] !in PcreSpace
    requires forall i :: 0 <= i < |url| ==> url[i] !in {' ', '(', ')'}
    ensures InlineDestination("(" + url + ")" + rest) == Some(Destination(url, None, |url| + 2))
  {
    var t := "(" + url + ")" + rest;
    var e := |url| + 1;
    assert forall k :: 1 <= k < e ==> t[k] == url[k - 1];
    assert t[1..e] == url;
    DestinationEndPlain(t, 1, e);
    SpanExact(t, 1, 1, PcreSpace);
    DestinationUnfold(t, e, url);
    SpanExact(t, e, e, {' '});
    SpanExact(t, e, e, PcreSpace);
  }

  /** inlineDestination once the destination bytes are known to run from 1 to `e`. */
  lemma DestinationUnfold(t: string, e: nat, href: string)
    requires |t| > 0 && t[0] == '(' && Span(t, 1, PcreSpace) == 0
    requires 1 < e <= |t| && DestinationEnd(t, 1) == e && t[1..e] == href
    ensures InlineDestination(t) == if TitledEnd(t, href, e).Some? then TitledEnd(t, href, e) else UntitledEnd(t, href, e)
  {
  }

  /** `[label](url "title")` carries the title without its quotes. */
  lemma TitledLinkRoundTrip(caption: string, url: string, title: string, rest: string, defs: map<string, Definition>)
    requires '[' !in caption && ']' !in caption && '"' !in title
    requires url != [] && url[0] !in PcreSpace
    requires forall i :: 0 <= i < |url| ==> url[i] !in {' ', '(', ')'}
    ensures Recognises(InlineLink("[" + caption + "]" + ("(" + url + " \"" + title + "\")" + rest), defs),
      |caption| + |url| + |title| + 7, LinkElement(caption, url, Some(title)))
  {
    TitledDestination(url, title, rest);
    LabelThenDestination(caption, "(" + url + " \"" + title + "\")" + rest, url, Some(title), |url| + |title| + 5, defs);
  }

  lemma TitledDestination(url: string, title: string, rest: string)
    requires '"' !in title
    requires url != [] && url[0] !in PcreSpace
    requires forall i :: 0 <= i < |url| ==> url[i] !in {' ', '(', ')'}
    ensures InlineDestination("(" + url + " \"" + title + "\")" + rest)
      == Some(Destination(url, Some(title), |url| + |title| + 5))
  {
    var t := "(" + url + " \"" + title + "\")" + rest;
    var e := |url| + 1;
    var k := e + 2 + |title|;
    var d := Destination(url, Some(title), |url| + |title| + 5);
    assert TitledEnd(t, url, e) == Some(d) && DestinationEnd(t, 1) == e && Span(t, 1, PcreSpace) == 0 && t[1..e] == url by {
      TitledShape(url, title, rest);
      DestinationEndPlain(t, 1, e);
      SpanExact(t, 1, 1, PcreSpace);
      TitledAt(t, url, e, k, title, |url| + |title| + 5);
    }
    DestinationUnfold(t, e, url);
  }

  /** Where the parts of a titled destination sit in the excerpt. */
  lemma TitledShape(url: string, title: string, rest: string)
    requires '"' !in title
    requires url != [] && url[0] !in PcreSpace
    requires forall i :: 0 <= i < |url| ==> url[i] !in {' ', '(', ')'}
    ensures var t := "(" + url + " \"" + title + "\")" + rest;
      var e := |url| + 1; var k := e + 2 + |title|;
      k + 1 < |t| && t[0] == '(' && t[1] == url[0] && t[1..e] == url && t[e + 2..k] == title
      && t[e] == ' ' && t[e + 1] == '"' && t[k] == '"' && t[k + 1] == ')'
      && (forall i :: 1 <= i < e ==> t[i] !in {' ', '(', ')'})
      && (forall i :: e + 2 <= i < k ==> t[i] != '"')
  {
    var t := "(" + url + " \"" + title + "\")" + rest;
    var e := |url| + 1;
    var k := e + 2 + |title|;
    assert forall i :: 1 <= i < e ==> t[i] == url[i - 1];
    assert forall i :: e + 2 <= i < k ==> t[i] == title[i - e - 2];
    assert t[1..e] == url;
    assert t[e + 2..k] == title;
  }

  /** A quoted title right after one space, then `)`, is taken. */
  lemma TitledAt(t: string, href: string, e: nat, k: nat, title: string, length: nat)
    requires e + 2 <= k && k + 1 < |t| && length == k + 2
    requires t[e] == ' ' && t[e + 1] in {'"', '\''} && t[k] == t[e + 1] && t[k + 1] == ')'
    requires forall j :: e + 2 <= j < k ==> t[j] != t[e + 1]
    requires t[e + 2..k] == title
    ensures TitledEnd(t, href, e) == Some(Destination(href, Some(title), length))
  {
    SpanExact(t, e, e + 1, {' '});
    QuoteCloses(t, e + 1, k);
    SpanExact(t, k + 1, k + 1, PcreSpace);
    TitledEndIs(t, href, e, e + 1, k, 0, length);
  }

  /** titledEnd once the opening quote, the closing quote and the spaces before `)` are known. */
  lemma TitledEndIs(t: string, href: string, e: nat, q: nat, k: nat, w: nat, length: nat)
    requires e <= |t| && q == e + Span(t, e, {' '}) && e < q < |t| && t[q] in {'"', '\''}
    requires FindFrom(t, [t[q]], q + 1) == Some(k) && w == Span(t, k + 1, PcreSpace)
    requires k + 1 + w < |t| && t[k + 1 + w] == ')' && length == k + 2 + w
    ensures TitledEnd(t, href, e) == Some(Destination(href, Some(t[q + 1..k]), length))
  {
  }

  /** The closing quote of a title is the first byte equal to the opening one. */
  lemma QuoteCloses(t: string, q: nat, k: nat)
    requires q < k < |t| && t[k] == t[q]
    requires forall j :: q + 1 <= j < k ==> t[j] != t[q]
    ensures FindFrom(t, [t[q]], q + 1) == Some(k)
  {
    forall j | q + 1 <= j < k
      ensures !OccursAt(t, [t[q]], j)
    {
      assert t[j..j + 1] == [t[j]];
    }
    assert t[k..k + 1] == [t[q]];
    FindFirst(t, [t[q]], q + 1, k);
  }

  /**
   * The label need not start at the marker: in `[x [y]` the first balanced
   * group is `[y]`, its length is taken as the extent from the marker, and
   * the remainder starts at `[y]` again, so the reference `y` is looked
   * up and the six bytes `[x [y]` become one link labelled `y`.
   */
  lemma LabelAnywhere(defs: map<string, Definition>)
    requires "y" in defs
    ensures Recognises(InlineLink("[x [y]", defs), 6, LinkElement("y", defs["y"].url, defs["y"].title))
  {
    var t := "[x [y]";
    assert GroupEnd(t, 3) == Some(6) by {
      assert ContentEnd(t, 5) == 5;
      assert ContentEnd(t, 4) == 5;
    }
    assert ContentEnd(t, 1) == 6 by {
      assert ContentEnd(t, 6) == 6;
      assert ContentEnd(t, 3) == 6;
      assert ContentEnd(t, 2) == 6;
    }
    assert FindGroup(t, 0) == Some((3, 6)) by {
      assert GroupEnd(t, 0).None? && GroupEnd(t, 1).None? && GroupEnd(t, 2).None?;
      assert FindGroup(t, 3) == Some((3, 6));
      assert FindGroup(t, 2) == Some((3, 6));
      assert FindGroup(t, 1) == Some((3, 6));
    }
    assert t[4..5] == "y" && t[3..] == "[y]";
    ReferenceLabelOf("y", "");
    assert "[" + "y" + "]" + "" == "[y]";
    assert InlineDestination("[y]").None?;
    assert Lower("y") == "y";
    assert ReferenceKey("y", "[y]", 3) == ("y", 6);
  }

  /**
   * inlineImage: `!` before a link.  The link's target becomes the source,
   * its label the alternative text and its title the title; an image ends
   * its line for the purpose of automatic breaks.
   */
  function InlineImage(t: string, defs: map<string, Definition>): (r: Option<Inline>)
    ensures r.Some? <==> |t| >= 2 && t[1] == '[' && InlineLink(t[1..], defs).Some?
    ensures r.Some? ==> (var link := InlineLink(t[1..], defs).value;
      r.value.extent == link.extent + 1 && r.value.extent <= |t|
      && r.value.element == ImageElement(link.element))
  {
    if |t| < 2 || t[1] != '[' then None
    else
      match InlineLink(t[1..], defs)
      case None => None
      case Some(link) => Some(Inline(link.extent + 1, ImageElement(link.element)))
  }

  /** The image made from a link: src, alt and title in that order, and no content. */
  function ImageElement(link: Element): (r: Element)
    requires IsLink(link)
    ensures r.name == Some("img") && r.content.NoContent? && r.autobreak == Some(true)
    ensures r.attributes == [Attribute("src", link.attributes[0].value),
      Attribute("alt", Some(link.content.handler.text)), Attribute("title", link.attributes[1].value)]
  {
    Element(Some("img"), [Attribute("src", link.attributes[0].value),
      Attribute("alt", Some(link.content.handler.text)), Attribute("title", link.attributes[1].value)],
      NoContent, Some(true), {})
  }

  /** `![alt](url)` is an image of the url with that alternative text. */
  lemma ImageRoundTrip(alt: string, url: string, rest: string, defs: map<string, Definition>)
    requires '[' !in alt && ']' !in alt
    requires url != [] && url[0] !in PcreSpace
    requires forall i :: 0 <= i < |url| ==> url[i] !in {' ', '(', ')'}
    ensures Recognises(InlineImage("!" + ("[" + alt + "]" + ("(" + url + ")" + rest)), defs), |alt| + |url| + 5,
      Element(Some("img"), [Attribute("src", Some(url)), Attribute("alt", Some(alt)), Attribute("title", None)],
        NoContent, Some(true), {}))
  {
    var link := "[" + alt + "]" + ("(" + url + ")" + rest);
    assert ("!" + link)[1..] == link;
    InlineLinkRoundTrip(alt, url, rest, defs);
  }

  // ----- liturgical symbols and red text -----

  /** A symbol: a span of the given class when liturgical HTML is on, the bare markup otherwise. */
  function Symbol(html: string, className: string, cfg: Config): (r: Element)
    ensures r.content == RawHtml(html)
    ensures cfg.liturgicalHTML <==> r.name.Some?
    ensures cfg.liturgicalHTML ==> r == Element(Some("span"), [Attribute("class", Some(className))], RawHtml(html), None, {})
  {
    if cfg.liturgicalHTML then Element(Some("span"), [Attribute("class", Some(className))], RawHtml(html), None, {})
    else RawNode(html)
  }

  /**
   * The three symbols: the token is searched for anywhere in the excerpt,
   * and wherever it is found the three bytes from the marker are consumed.
   */
  function InlineToken(t: string, token: string, symbol: Element): (r: Option<Inline>)
    requires |token| == 3
    ensures r.Some? <==> exists k :: OccursAt(t, token, k)
    ensures r.Some? ==> r.value == Inline(3, symbol) && 3 <= |t|
  {
    if FindFrom(t, token, 0).Some? then Some(Inline(3, symbol)) else None
  }

  /** inlineLiturgicalCross: `[+]` becomes the cross ✛. */
  function InlineLiturgicalCross(t: string, cfg: Config): Option<Inline> {
    InlineToken(t, "[+]", Symbol("&#10011;", "symbol-cross", cfg))
  }

  /** inlineLiturgicalMidpoint: `[*]` becomes the mid-point star. */
  function InlineLiturgicalMidpoint(t: string, cfg: Config): Option<Inline> {
    InlineToken(t, "[*]", Symbol("*", "symbol-star", cfg))
  }

  /** inlineLiturgicalDagger: `[t]` becomes the dagger †. */
  function InlineLiturgicalDagger(t: string, cfg: Config): Option<Inline> {
    InlineToken(t, "[t]", Symbol("&#8224;", "symbol-dagger", cfg))
  }

  /**
   * The token need not be at the marker: an excerpt that starts with some
   * other bracketed text and holds the token later still gives the symbol,
   * and the three bytes consumed are the ones at the marker.
   */
  lemma TokenAnywhere(t: string, token: string, k: nat, symbol: Element)
    requires |token| == 3 && OccursAt(t, token, k)
    ensures InlineToken(t, token, symbol) == Some(Inline(3, symbol))
  {
  }

  /** The red text element: a span of class color-red, or the bare text when liturgical HTML is off. */
  function RedText(text: string, cfg: Config): (r: Element)
    ensures r.content == Text(text)
    ensures cfg.liturgicalHTML <==> r.name.Some?
  {
    if cfg.liturgicalHTML then Element(Some("span"), [Attribute("class", Some("color-red"))], Text(text), None, {})
    else TextNode(text)
  }

  /** inlineTextRed: `[red]`, any text including line feeds, and the first `[/red]` after it. */
  function InlineTextRed(t: string, cfg: Config): (r: Option<Inline>)
    ensures r.Some? ==> (11 <= r.value.extent <= |t| && t[..5] == "[red]"
      && OccursAt(t, "[/red]", r.value.extent - 6)
      && (forall k :: 5 <= k < r.value.extent - 6 ==> !OccursAt(t, "[/red]", k))
      && r.value.element == RedText(t[5..r.value.extent - 6], cfg))
  {
    if |t| < 5 || t[..5] != "[red]" then None
    else
      match FindFrom(t, "[/red]", 5)
      case None => None
      case Some(k) => Some(Inline(k + 6, RedText(t[5..k], cfg)))
  }

  /** Text without a bracket between the tags is the red text, the tags consumed with it. */
  lemma TextRedRoundTrip(c: string, rest: string, cfg: Config)
    requires '[' !in c
    ensures InlineTextRed("[red]" + c + "[/red]" + rest, cfg) == Some(Inline(|c| + 11, RedText(c, cfg)))
  {
    var t := "[red]" + c + "[/red]" + rest;
    var k := 5 + |c|;
    assert t[..5] == "[red]";
    forall j | 5 <= j < k
      ensures !OccursAt(t, "[/red]", j)
    {
      assert t[j] == c[j - 5];
      if j + 6 <= |t| {
        assert t[j..j + 6][0] == t[j];
      }
    }
    assert t[k..k + 6] == "[/red]";
    FindFirst(t, "[/red]", 5, k);
    assert t[5..k] == c;
  }

  // ----- dispatch -----

  /**
   * The handler of a kind.  Emphasis, EmailTag and OverUnderLine are not
   * modelled and decline; Markup declines because HTML is escaped and Url
   * because automatic linking is never switched on.
   */
  function TryKind(kind: InlineKind, t: string, defs: map<string, Definition>, cfg: Config): (r: Option<Inline>)
    requires |t| > 0
    ensures r.Some? ==> 1 <= r.value.extent <= |t|
    ensures kind in {Emphasis, EmailTag, InlineKind.Markup, Url, OverUnderLine} ==> r.None?
  {
    match kind
    case Code => InlineCode(t)
    case EmailTag => None
    case Emphasis => None
    case EscapeSequence => InlineEscapeSequence(t)
    case Image => InlineImage(t, defs)
    case Link => InlineLink(t, defs)
    case Markup => None
    case SpecialCharacter => InlineSpecialCharacter(t)
    case Strikethrough => InlineStrikethrough(t)
    case Url => None
    case UrlTag => InlineUrlTag(t)
    case LiturgicalCross => InlineLiturgicalCross(t, cfg)
    case LiturgicalMidpoint => InlineLiturgicalMidpoint(t, cfg)
    case LiturgicalDagger => InlineLiturgicalDagger(t, cfg)
    case TextRed => InlineTextRed(t, cfg)
    case OverUnderLine => None
  }
}
