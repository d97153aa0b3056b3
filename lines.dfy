/**
 * Line normalisation (SourceParser.php, textElements and the top of the
 * linesElements loop): line breaks are standardised, the document is cut
 * into lines, tabs are expanded to four-column stops, and each line gets
 * its indent (the run of leading spaces) and its dedented text.
 */
module Lines {
  import opened Strings

  /** How many spaces a tab found at column `col` stands for. */
  function TabWidth(col: nat): nat { 4 - col % 4 }

  /**
   * Tab expansion as a left-to-right scan: `out` is what has been emitted on
   * the line so far and a tab pads it to the next multiple of four columns.
   */
  function ExpandInto(s: string, out: string): string
    decreases |s|
  {
    if s == [] then out
    else if s[0] == '\t' then ExpandInto(s[1..], out + Repeat(' ', TabWidth(|out|)))
    else ExpandInto(s[1..], out + [s[0]])
  }

  /** The line with every tab expanded. */
  function Expanded(s: string): string { ExpandInto(s, []) }

  lemma {:induction false} ExpandIntoNoTabs(s: string, out: string)
    requires '\t' !in out
    ensures '\t' !in ExpandInto(s, out)
    decreases |s|
  {
    if s != [] {
      if s[0] == '\t' {
        ExpandIntoNoTabs(s[1..], out + Repeat(' ', TabWidth(|out|)));
      } else {
        ExpandIntoNoTabs(s[1..], out + [s[0]]);
      }
    }
  }

  /** After expansion no tab is left. */
  lemma ExpandedHasNoTabs(s: string)
    ensures '\t' !in Expanded(s)
  {
    ExpandIntoNoTabs(s, []);
  }

  /** A tab-free stretch is copied through unchanged. */
  lemma {:induction false} ExpandIntoTabFree(p: string, q: string, out: string)
    requires '\t' !in p
    ensures ExpandInto(p + q, out) == ExpandInto(q, out + p)
    decreases |p|
  {
    if p != [] {
      assert p[0] in p;
      assert forall c :: c in p[1..] ==> c in p;
      var out' := out + [p[0]];
      assert (p + q)[0] == p[0] && (p + q)[1..] == p[1..] + q;
      assert ExpandInto(p + q, out) == ExpandInto(p[1..] + q, out');
      ExpandIntoTabFree(p[1..], q, out');
      assert out' + p[1..] == out + p;
    } else {
      assert p + q == q && out + p == out;
    }
  }

  /** A line without tabs is its own expansion. */
  lemma ExpandedTabFree(s: string)
    requires '\t' !in s
    ensures Expanded(s) == s
  {
    ExpandIntoTabFree(s, [], []);
    assert s + [] == s;
  }

  /**
   * The rewriting step of the source's tab loop is sound: replacing the first
   * tab by the spaces that reach the next four-column stop leaves the
   * expansion unchanged, and in the expansion the former tab ends on a
   * multiple of four.
   */
  lemma {:induction false} TabStep(p: string, q: string)
    requires '\t' !in p
    ensures Expanded(p + ['\t'] + q) == Expanded(p + Repeat(' ', TabWidth(|p|)) + q)
    ensures |Expanded(p + ['\t'] + q)| >= |p| + TabWidth(|p|)
    ensures Expanded(p + ['\t'] + q)[..|p| + TabWidth(|p|)] == p + Repeat(' ', TabWidth(|p|))
    ensures (|p| + TabWidth(|p|)) % 4 == 0
  {
    var sp := Repeat(' ', TabWidth(|p|));
    assert p + ['\t'] + q == p + (['\t'] + q);
    ExpandIntoTabFree(p, ['\t'] + q, []);
    assert [] + p == p;
    assert (['\t'] + q)[1..] == q;
    assert ExpandInto(['\t'] + q, p) == ExpandInto(q, p + sp);
    assert '\t' !in sp;
    assert '\t' !in p + sp;
    assert p + sp + q == (p + sp) + q;
    ExpandIntoTabFree(p + sp, q, []);
    assert [] + (p + sp) == p + sp;
    ExpandIntoPrefix(q, p + sp);
  }

  /** Expansion only appends to what has been emitted. */
  lemma {:induction false} ExpandIntoPrefix(s: string, out: string)
    ensures |out| <= |ExpandInto(s, out)| && ExpandInto(s, out)[..|out|] == out
    decreases |s|
  {
    if s != [] {
      var next := if s[0] == '\t' then out + Repeat(' ', TabWidth(|out|)) else out + [s[0]];
      ExpandIntoPrefix(s[1..], next);
      assert next[..|out|] == out;
    }
  }

  /** A character other than a tab survives expansion. */
  lemma {:induction false} ExpandIntoKeeps(s: string, out: string, c: char)
    requires c != '\t' && (c in s || c in out)
    ensures c in ExpandInto(s, out)
    decreases |s|
  {
    if s != [] {
      if s[0] == '\t' {
        assert c in s ==> c in s[1..];
        ExpandIntoKeeps(s[1..], out + Repeat(' ', TabWidth(|out|)), c);
      } else {
        assert c in s ==> c in s[1..] || c == s[0];
        ExpandIntoKeeps(s[1..], out + [s[0]], c);
      }
    }
  }

  /**
   * The source's loop (linesElements, the `while strstr($line, "\t")`):
   * repeatedly replace the first tab by spaces up to the next four-column stop.
   */
  method ExpandTabs(raw: string) returns (line: string)
    ensures line == Expanded(raw)
    ensures '\t' !in line
  {
    line := raw;
    while '\t' in line
      invariant Expanded(line) == Expanded(raw)
      decreases multiset(line)['\t']
    {
      var k := IndexOf(line, '\t');
      var before := line[..k];
      var shortage := 4 - |before| % 4;
      var after := line[k + 1..];
      assert line == before + ['\t'] + after;
      TabStep(before, after);
      assert '\t' !in Repeat(' ', shortage);
      line := before + Repeat(' ', shortage) + after;
    }
    ExpandedTabFree(line);
  }

  /** The record the block parser works on: the expanded line, its indent and its dedented text. */
  datatype Line = Line(body: string, indent: nat, text: string)

  /** `indent` is the count of leading spaces and `text` is the body after them. */
  function MakeLine(body: string): (l: Line)
    ensures l.body == body
    ensures l.indent <= |body| && l.text == body[l.indent..]
    ensures forall i :: 0 <= i < l.indent ==> body[i] == ' '
    ensures l.indent == |body| || body[l.indent] != ' '
  {
    var n := Span(body, 0, {' '});
    Line(body, n, body[n..])
  }

  /** chop($line) === '': the line holds only whitespace. */
  predicate IsBlank(raw: string) { AllIn(raw, TrimChars) }

  /** A line that is not blank keeps a non-empty dedented text, so its first character exists. */
  lemma NonBlankHasText(raw: string)
    requires !IsBlank(raw)
    ensures |MakeLine(Expanded(raw)).text| > 0
  {
    var j :| 0 <= j < |raw| && raw[j] !in TrimChars;
    var c := raw[j];
    ExpandIntoKeeps(raw, [], c);
    var body := Expanded(raw);
    var l := MakeLine(body);
    var k :| 0 <= k < |body| && body[k] == c;
    assert k >= l.indent;
  }

  /** str_replace(["\r\n", "\r"], "\n", $s): every CRLF and every lone CR becomes LF. */
  function StandardizeBreaks(s: string): (r: string)
    ensures '\r' !in r
    ensures |r| <= |s|
  {
    if s == [] then []
    else if s[0] == '\r' then
      if |s| > 1 && s[1] == '\n' then "\n" + StandardizeBreaks(s[2..])
      else "\n" + StandardizeBreaks(s[1..])
    else [s[0]] + StandardizeBreaks(s[1..])
  }

  /** Text without a carriage return is left alone. */
  lemma {:induction false} StandardizeBreaksIdentity(s: string)
    requires '\r' !in s
    ensures StandardizeBreaks(s) == s
  {
    if s != [] {
      assert s[0] in s;
      assert forall c :: c in s[1..] ==> c in s;
      StandardizeBreaksIdentity(s[1..]);
    }
  }

  /** textElements: standardise breaks, trim surrounding line feeds and cut into lines. */
  function DocumentLines(text: string): (lines: seq<string>)
    ensures |lines| >= 1
    ensures forall l :: l in lines ==> '\n' !in l && '\r' !in l
  {
    var t := Trim(StandardizeBreaks(text), {'\n'});
    var lines := Split(t, '\n');
    assert forall l :: l in lines ==> '\r' !in l by {
      JoinSplit(t, '\n');
      forall l | l in lines ensures '\r' !in l {
        JoinHolds(lines, '\n', l);
      }
    }
    lines
  }

  /** Every piece is a part of the joined text. */
  lemma {:induction false} JoinHolds(parts: seq<string>, sep: char, p: string)
    requires p in parts
    ensures forall c :: c in p ==> c in Join(parts, sep)
  {
    if |parts| > 1 {
      if p != parts[0] {
        assert p in parts[1..];
        JoinHolds(parts[1..], sep, p);
      }
    }
  }
}
