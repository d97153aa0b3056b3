/**
 * Reference definitions `[id]: url "title"` (SourceParser.php, blockReference).
 * The pattern
 *   ^\[(.+?)\]:[ ]*+<?(\S+?)>?(?:[ ]+["'(](.+)["')])?[ ]*+$
 * is written out as the backtracking search PCRE performs: the shortest id
 * first, with the optional `<` first, then the shortest url, with the optional
 * `>` first, then the title group before its absence.
 */
module References {
  import opened Wrappers
  import opened Strings

  datatype Definition = Definition(url: string, title: Option<string>)

  /** A parsed definition; the id is already lowercased, as DefinitionData keys are. */
  datatype RefDef = RefDef(id: string, definition: Definition)

  const TitleOpeners: set<char> := {'"', '\'', '('}
  const TitleClosers: set<char> := {'"', '\'', ')'}

  /** `$` without the m flag: the end of the subject, or just before a final line feed. */
  predicate AtEnd(t: string, i: nat) {
    i == |t| || (i + 1 == |t| && t[i] == '\n')
  }

  /**
   * What follows the url, from `e`: the title group `[ ]+["'(](.+)["')]` and
   * then `[ ]*+$`, or `[ ]*+$` alone.  Some(Some(title)), Some(None) for no
   * title, None when neither fits.  The greedy title ends at the last
   * non-space character, which must be a closer.
   */
  function Tail(t: string, e: nat): (r: Option<Option<string>>)
    requires e <= |t| && '\n' !in t
    ensures r == Some(None) <==> AllIn(t[e..], {' '})
    ensures r.Some? && r.value.Some? ==>
      var f := e + Span(t, e, {' '});
      f > e && f < |t| && t[f] in TitleOpeners && f + 1 + |r.value.value| < |t|
      && t[f + 1..f + 1 + |r.value.value|] == r.value.value
  {
    var sp := Span(t, e, {' '});
    var f := e + sp;
    var last := |RTrim(t, {' '})|;
    if sp >= 1 && f < |t| && t[f] in TitleOpeners && last >= f + 3 && t[last - 1] in TitleClosers then
      assert !AllIn(t[e..], {' '}) by { assert t[e..][sp] == t[f]; }
      Some(Some(t[f + 1..last - 1]))
    else if AllIn(t[e..], {' '}) then Some(None)
    else None
  }

  /**
   * `(\S+?)>?` and the tail, for the url started at `c` and currently ending
   * at `d`: the `>` is tried first, and a longer url only when both fail.
   */
  function UrlFrom(t: string, c: nat, d: nat): (r: Option<(string, Option<string>)>)
    requires c < d <= |t| && '\n' !in t
    ensures r.Some? ==> |r.value.0| >= d - c && c + |r.value.0| <= |t| && r.value.0 == t[c..c + |r.value.0|]
    decreases |t| - d
  {
    var withGt := if d < |t| && t[d] == '>' then Tail(t, d + 1) else None;
    var tail := if withGt.Some? then withGt else Tail(t, d);
    if tail.Some? then Some((t[c..d], tail.value))
    else if d < |t| && t[d] !in PcreSpace then UrlFrom(t, c, d + 1)
    else None
  }

  /** The url part from `c`: it needs at least one non-space character. */
  function UrlAt(t: string, c: nat): Option<(string, Option<string>)>
    requires c <= |t| && '\n' !in t
  {
    if c < |t| && t[c] !in PcreSpace then UrlFrom(t, c, c + 1) else None
  }

  /** The lazy id `t[1..a]`, tried for a = 2, 3, … until the rest of the pattern fits. */
  function IdFrom(t: string, a: nat): (r: Option<RefDef>)
    requires 2 <= a <= |t| && '\n' !in t
    decreases |t| - a
  {
    if a + 1 >= |t| then None
    else if t[a] == ']' && t[a + 1] == ':' then
      var b := a + 2 + Span(t, a + 2, {' '});
      var withLt := if b < |t| && t[b] == '<' then UrlAt(t, b + 1) else None;
      var url := if withLt.Some? then withLt else UrlAt(t, b);
      if url.Some? then Some(RefDef(Lower(t[1..a]), Definition(url.value.0, url.value.1)))
      else IdFrom(t, a + 1)
    else IdFrom(t, a + 1)
  }

  /**
   * blockReference's test on the dedented line text.  None of the pattern's
   * parts matches a line feed, so one can only stand at the very end.
   */
  function ParseReference(text: string): (r: Option<RefDef>)
    ensures r.Some? ==> ']' in text && |text| >= 1 && text[0] == '['
    ensures r.Some? ==> forall i :: 0 <= i < |r.value.id| ==> !('A' <= r.value.id[i] <= 'Z')
    ensures r.Some? ==> |r.value.id| >= 1 && r.value.definition.url != []
  {
    var t := if |text| > 0 && text[|text| - 1] == '\n' then text[..|text| - 1] else text;
    if ']' !in text || '\n' in t || |t| < 2 || t[0] != '[' then None
    else
      var r := IdFrom(t, 2);
      IdFromShape(t, 2);
      r
  }

  lemma {:induction false} IdFromShape(t: string, a: nat)
    requires 2 <= a <= |t| && '\n' !in t
    ensures var r := IdFrom(t, a);
      r.Some? ==> (|r.value.id| >= 1 && r.value.definition.url != []
        && forall i :: 0 <= i < |r.value.id| ==> !('A' <= r.value.id[i] <= 'Z'))
    decreases |t| - a
  {
    if a + 1 < |t| && !(t[a] == ']' && t[a + 1] == ':') {
      IdFromShape(t, a + 1);
    } else if a + 1 < |t| {
      var b := a + 2 + Span(t, a + 2, {' '});
      var withLt := if b < |t| && t[b] == '<' then UrlAt(t, b + 1) else None;
      var url := if withLt.Some? then withLt else UrlAt(t, b);
      if url.None? {
        IdFromShape(t, a + 1);
      }
    }
  }

  /** The line a definition is written as: `[id]: url` or `[id]: url "title"`. */
  function Format(id: string, url: string, title: Option<string>): string {
    "[" + id + "]: " + url + (if title.Some? then " \"" + title.value + "\"" else "")
  }

  /** What makes a definition writable in that form and read back unchanged. */
  predicate Writable(id: string, url: string, title: Option<string>) {
    && id != [] && ']' !in id && '\n' !in id
    && url != [] && (forall i :: 0 <= i < |url| ==> url[i] !in PcreSpace)
    && url[0] != '<' && url[|url| - 1] != '>'
    && (title.Some? ==> title.value != [] && '\n' !in title.value)
  }

  /** Candidate ids that do not end at `]:` are skipped. */
  lemma {:induction false} IdFromSkip(t: string, a: nat, target: nat)
    requires 2 <= a <= target < |t| - 1 && '\n' !in t
    requires forall k :: a <= k < target ==> t[k] != ']'
    ensures IdFrom(t, a) == IdFrom(t, target)
    decreases target - a
  {
    if a < target {
      IdFromSkip(t, a + 1, target);
    }
  }

  /** The tail never fits where a non-space character stands. */
  lemma TailAtNonSpace(t: string, e: nat)
    requires e < |t| && '\n' !in t && t[e] !in PcreSpace
    ensures Tail(t, e).None?
  {
    assert Span(t, e, {' '}) == 0;
    assert t[e..][0] == t[e];
  }

  /** Url ends inside a url without spaces and without a `>` before its last character never fit. */
  lemma {:induction false} UrlFromSkip(t: string, c: nat, d: nat, target: nat)
    requires c < d <= target < |t| && '\n' !in t
    requires forall k :: d <= k <= target ==> t[k] !in PcreSpace
    requires t[target] != '>'
    ensures UrlFrom(t, c, d) == UrlFrom(t, c, target + 1)
    decreases target + 1 - d
  {
    TailAtNonSpace(t, d);
    if t[d] == '>' {
      assert d + 1 <= target;
      TailAtNonSpace(t, d + 1);
    }
    if d < target {
      UrlFromSkip(t, c, d + 1, target);
    }
  }

  /** The search succeeds at the first `]:` when the url after it ends where the tail fits. */
  lemma ParseAt(t: string, a: nat, d: nat, title: Option<string>)
    requires '\n' !in t && 2 <= a && a + 3 < d <= |t| && t[0] == '['
    requires forall k :: 2 <= k < a ==> t[k] != ']'
    requires t[a] == ']' && t[a + 1] == ':' && t[a + 2] == ' '
    requires forall k :: a + 3 <= k < d ==> t[k] !in PcreSpace
    requires t[a + 3] != '<' && t[d - 1] != '>'
    requires d == |t| || t[d] != '>'
    requires Tail(t, d) == Some(title)
    ensures IdFrom(t, 2) == Some(RefDef(Lower(t[1..a]), Definition(t[a + 3..d], title)))
  {
    var c := a + 3;
    IdFromSkip(t, 2, a);
    IdAt(t, a, d, title);
  }

  lemma IdAt(t: string, a: nat, d: nat, title: Option<string>)
    requires '\n' !in t && 2 <= a && a + 3 < d <= |t|
    requires t[a] == ']' && t[a + 1] == ':' && t[a + 2] == ' '
    requires forall k :: a + 3 <= k < d ==> t[k] !in PcreSpace
    requires t[a + 3] != '<' && t[d - 1] != '>'
    requires d == |t| || t[d] != '>'
    requires Tail(t, d) == Some(title)
    ensures IdFrom(t, a) == Some(RefDef(Lower(t[1..a]), Definition(t[a + 3..d], title)))
  {
    var c := a + 3;
    var sp := Span(t, a + 2, {' '});
    assert sp == 1 by {
      assert t[a + 2] == ' ';
      assert t[c] !in PcreSpace;
    }
    UrlAtEnd(t, c, d, title);
  }

  lemma UrlAtEnd(t: string, c: nat, d: nat, title: Option<string>)
    requires '\n' !in t && c < d <= |t|
    requires forall k :: c <= k < d ==> t[k] !in PcreSpace
    requires t[d - 1] != '>'
    requires d == |t| || t[d] != '>'
    requires Tail(t, d) == Some(title)
    ensures UrlAt(t, c) == Some((t[c..d], title))
  {
    if c + 1 < d {
      UrlFromSkip(t, c, c + 1, d - 1);
    }
    assert UrlFrom(t, c, d) == Some((t[c..d], title));
  }

  /** A quoted title after one space is read back as the title. */
  lemma TailTitle(t: string, d: nat, s: string)
    requires '\n' !in t && d <= |t| && s != []
    requires t[d..] == " \"" + s + "\""
    ensures Tail(t, d) == Some(Some(s))
  {
    assert |t| == d + |s| + 3;
    assert t[d] == ' ' && t[d + 1] == '"' && t[|t| - 1] == '"';
    assert Span(t, d, {' '}) == 1 by {
      assert Span(t, d + 1, {' '}) == 0;
    }
    assert |RTrim(t, {' '})| == |t|;
    assert t[d + 2..|t| - 1] == s by {
      forall i | 0 <= i < |s|
        ensures t[d + 2 + i] == s[i]
      {
        assert t[d + 2 + i] == t[d..][2 + i];
      }
    }
  }

  /** The characters of a written definition, as the search meets them. */
  lemma FormatChars(id: string, url: string, title: Option<string>)
    requires Writable(id, url, title)
    ensures var t := Format(id, url, title);
      var a := 1 + |id|;
      var d := a + 3 + |url|;
      && d <= |t| && '\n' !in t && t[0] == '[' && t[|t| - 1] != '\n' && ']' in t
      && (forall k :: 2 <= k < a ==> t[k] != ']')
      && t[a] == ']' && t[a + 1] == ':' && t[a + 2] == ' '
      && (forall k :: a + 3 <= k < d ==> t[k] !in PcreSpace)
      && t[a + 3] != '<' && t[d - 1] != '>' && (d == |t| || t[d] != '>')
      && t[1..a] == id && t[a + 3..d] == url
      && t[d..] == (if title.Some? then " \"" + title.value + "\"" else "")
  {
    var head := "[" + id + "]: ";
    var rest := if title.Some? then " \"" + title.value + "\"" else "";
    var t := Format(id, url, title);
    assert t == head + url + rest;
    var a := 1 + |id|;
    var d := a + 3 + |url|;
    assert t[..a] == "[" + id;
    assert t[a..d] == "]: " + url;
    assert t[d..] == rest;
    assert '\n' !in url by {
      forall k | 0 <= k < |url| ensures url[k] != '\n' { }
    }
    assert '\n' !in rest;
    assert '\n' !in head;
    forall k | 2 <= k < a ensures t[k] != ']' {
      assert t[k] == id[k - 1];
      assert id[k - 1] in id;
    }
    forall k | a + 3 <= k < d ensures t[k] !in PcreSpace {
      assert t[k] == url[k - a - 3];
    }
  }

  /** A definition written out as `[id]: url "title"` parses back to itself, with its id lowercased. */
  lemma ParseFormat(id: string, url: string, title: Option<string>)
    requires Writable(id, url, title)
    ensures ParseReference(Format(id, url, title)) == Some(RefDef(Lower(id), Definition(url, title)))
  {
    var t := Format(id, url, title);
    var a := 1 + |id|;
    var d := a + 3 + |url|;
    FormatChars(id, url, title);
    if title.None? {
      assert Tail(t, d) == Some(None);
    } else {
      TailTitle(t, d, title.value);
    }
    ParseAt(t, a, d, title);
  }
}
