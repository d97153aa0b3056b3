/**
 * Pipe tables (SourceParser.php, blockTable and blockTableContinue): a
 * paragraph line followed by a divider line becomes the header, and the
 * lines after it become rows until a line without a pipe (for a table of
 * more than one column) or a blank line.
 */
module Tables {
  import opened Wrappers
  import opened Strings
  import opened Lines
  import opened Blocks

  /** The only characters a divider line may hold. */
  const DividerChars: set<char> := {' ', '-', ':', '|'}

  /** A divider cell's alignment: `:x` left, `x:` right, both center, neither none. */
  function Alignment(cell: string): (r: Option<Align>)
    requires cell != []
  {
    var left := cell[0] == ':';
    if cell[|cell| - 1] == ':' then Some(if left then Center else Right)
    else if left then Some(Left) else None
  }

  /** The alignments of the divider cells, each trimmed; an empty cell rejects the table. */
  function Alignments(cells: seq<string>): (r: Option<seq<Option<Align>>>)
    ensures r.Some? <==> forall i :: 0 <= i < |cells| ==> Trim(cells[i], TrimChars) != []
    ensures r.Some? ==> (|r.value| == |cells|
      && forall i :: 0 <= i < |cells| ==> r.value[i] == Alignment(Trim(cells[i], TrimChars)))
  {
    if cells == [] then Some([])
    else
      var c := Trim(cells[0], TrimChars);
      if c == [] then None
      else match Alignments(cells[1..])
        case None => None
        case Some(rest) => Some([Alignment(c)] + rest)
  }

  /** The cells of a header or divider line: trimmed, outer pipes dropped, split at every pipe. */
  function PipeCells(s: string): (r: seq<string>)
    ensures |r| >= 1
  {
    Split(Trim(Trim(s, TrimChars), {'|'}), '|')
  }

  function TrimEach(cells: seq<string>): (r: seq<string>)
    ensures |r| == |cells| && forall i :: 0 <= i < |cells| ==> r[i] == Trim(cells[i], TrimChars)
  {
    seq(|cells|, i requires 0 <= i < |cells| => Trim(cells[i], TrimChars))
  }

  /**
   * blockTable, after a paragraph still open.  The guard is
   * `(no | in the paragraph and no | or : in the line) or a line feed in
   * the paragraph`, as PHP's `and` binds tighter than `or`.
   */
  function TableStart(line: Line, current: Option<Block>): (r: Option<Block>)
    ensures r.Some? ==> (OpenParagraph(current) && AllIn(line.text, DividerChars)
      && '\n' !in current.value.data.text)
    ensures r.Some? ==> (r.value.interrupted == 0 && r.value.data.TableData? && r.value.data.rows == []
      && |r.value.data.alignments| == |r.value.data.header| >= 1
      && r.value.data.header == TrimEach(PipeCells(current.value.data.text))
      && Alignments(PipeCells(line.text)) == Some(r.value.data.alignments))
  {
    if !OpenParagraph(current) then None
    else
      var p := current.value.data.text;
      var t := line.text;
      if ('|' !in p && '|' !in t && ':' !in t) || '\n' in p then None
      else if !AllIn(t, DividerChars) then None
      else match Alignments(PipeCells(t))
        case None => None
        case Some(al) =>
          var header := PipeCells(p);
          if |header| != |al| then None
          else Some(Block(TableData(al, TrimEach(header), []), 0))
  }

  /**
   * One token of the row pattern `(?:(\\[|])|[^|`]|`[^`]++`|`)++`: an
   * escaped pipe, a character other than a pipe or backtick, a code span
   * (which may hold pipes), or a lone backtick.  0 at an unescaped pipe.
   */
  function TokenLength(s: string, j: nat): (n: nat)
    requires j < |s|
    ensures n <= |s| - j
    ensures n == 0 <==> s[j] == '|'
  {
    if s[j] == '\\' && j + 1 < |s| && s[j + 1] == '|' then 2
    else if s[j] != '|' && s[j] != '`' then 1
    else if s[j] == '`' then
      if j + 1 < |s| && s[j + 1] != '`' then
        match FindFrom(s, "`", j + 1)
        case Some(k) => assert s[k] == s[k..k + 1][0]; k - j + 1
        case None => 1
      else 1
    else 0
  }

  /** The end of the maximal run of tokens from `j`. */
  function RunEnd(s: string, j: nat): (e: nat)
    requires j <= |s|
    ensures j <= e <= |s|
    ensures j < |s| && s[j] != '|' ==> e > j
    ensures e == |s| || s[e] == '|'
    decreases |s| - j
  {
    if j < |s| && TokenLength(s, j) > 0 then RunEnd(s, j + TokenLength(s, j)) else j
  }

  /** preg_match_all of the row pattern from `i`: every maximal run of tokens, in order. */
  function CellsFrom(s: string, i: nat): (r: seq<string>)
    requires i <= |s|
    ensures forall k :: 0 <= k < |r| ==> r[k] != []
    decreases |s| - i
  {
    if i == |s| then []
    else if s[i] == '|' then CellsFrom(s, i + 1)
    else
      var e := RunEnd(s, i);
      [s[i..e]] + CellsFrom(s, e)
  }

  /** The row's cells: trimmed, outer pipes dropped, then the runs of the row pattern. */
  function RowCells(text: string): seq<string> {
    CellsFrom(Trim(Trim(text, TrimChars), {'|'}), 0)
  }

  /** At most `n` of the cells (array_slice). */
  function Take(cells: seq<string>, n: nat): (r: seq<string>)
    ensures |r| <= n && |r| <= |cells| && r == cells[..|r|]
    ensures |cells| <= n ==> r == cells
  {
    if |cells| <= n then cells else cells[..n]
  }

  /**
   * blockTableContinue: without a blank line between, a line holding a
   * pipe (any line, for a one-column table) adds a row of at most as many
   * cells as the table has columns.  `strpos` finding the pipe at position
   * 0 is falsy, which the test of the first character covers.
   */
  function TableContinue(line: Line, b: Block): (r: Option<Block>)
    requires b.data.TableData?
    ensures r.Some? <==> b.interrupted == 0 && (|b.data.alignments| == 1 || '|' in line.text)
    ensures r.Some? ==> (r.value.interrupted == 0 && r.value.data.TableData?
      && r.value.data.alignments == b.data.alignments && r.value.data.header == b.data.header
      && |r.value.data.rows| == |b.data.rows| + 1 && r.value.data.rows[..|b.data.rows|] == b.data.rows
      && |r.value.data.rows[|b.data.rows|]| <= |b.data.alignments|
      && r.value.data.rows[|b.data.rows|] == TrimEach(Take(RowCells(line.text), |b.data.alignments|)))
  {
    if b.interrupted > 0 then None
    else if |b.data.alignments| == 1 || (|line.text| > 0 && line.text[0] == '|') || '|' in line.text then
      var row := TrimEach(Take(RowCells(line.text), |b.data.alignments|));
      Some(Block(b.data.(rows := b.data.rows + [row]), 0))
    else None
  }

  /** The pieces that are not empty, in order. */
  function NonEmpty(parts: seq<string>): (r: seq<string>)
    ensures forall k :: 0 <= k < |r| ==> r[k] != []
  {
    if parts == [] then []
    else if parts[0] == [] then NonEmpty(parts[1..])
    else [parts[0]] + NonEmpty(parts[1..])
  }

  /** Without backticks and backslashes a run of tokens ends at the next pipe. */
  lemma {:induction false} PlainRunEnd(s: string, j: nat)
    requires j <= |s| && '`' !in s && '\\' !in s
    ensures RunEnd(s, j) == j + SpanNot(s, j, {'|'})
    decreases |s| - j
  {
    if j < |s| && s[j] != '|' {
      assert s[j] in s;
      assert TokenLength(s, j) == 1;
      PlainRunEnd(s, j + 1);
    }
  }

  /**
   * Without backticks and backslashes the row's cells are exactly the
   * non-empty pieces between pipes (explode, with empty pieces dropped).
   */
  lemma {:induction false} PlainCells(s: string, i: nat)
    requires i <= |s| && '`' !in s && '\\' !in s
    ensures CellsFrom(s, i) == NonEmpty(Split(s[i..], '|'))
    decreases |s| - i
  {
    if i == |s| {
      PlainCellsEnd(s);
    } else if s[i] == '|' {
      PlainCells(s, i + 1);
      PlainCellsPipe(s, i);
    } else {
      var e := i + SpanNot(s, i, {'|'});
      if e < |s| {
        PlainCells(s, e + 1);
        PlainCellsCons(s, i, e);
      } else {
        PlainCellsLast(s, i);
      }
    }
  }

  /** Past the end there are no cells. */
  lemma PlainCellsEnd(s: string)
    ensures CellsFrom(s, |s|) == NonEmpty(Split(s[|s|..], '|'))
  {
    var rest := s[|s|..];
    assert rest == [];
    assert Split(rest, '|') == [[]];
    assert NonEmpty([[]]) == NonEmpty([]);
  }

  /** A pipe at `i` only separates: the cells are those after it. */
  lemma PlainCellsPipe(s: string, i: nat)
    requires i < |s| && s[i] == '|'
    ensures CellsFrom(s, i) == CellsFrom(s, i + 1)
    ensures NonEmpty(Split(s[i..], '|')) == NonEmpty(Split(s[i + 1..], '|'))
  {
    var rest := s[i..];
    SplitAt(rest, '|', 0);
    assert rest[1..] == s[i + 1..] && rest[..0] == [];
    NonEmptySkip(Split(s[i + 1..], '|'));
  }

  /** A run from `i` up to the next pipe is one cell, and the cells after the pipe follow it. */
  lemma PlainCellsRun(s: string, i: nat, e: nat)
    requires i < e < |s| && s[i] != '|' && '`' !in s && '\\' !in s
    requires e == i + SpanNot(s, i, {'|'})
    ensures CellsFrom(s, i) == [s[i..e]] + CellsFrom(s, e + 1)
    ensures NonEmpty(Split(s[i..], '|')) == [s[i..e]] + NonEmpty(Split(s[e + 1..], '|'))
  {
    PlainRunEnd(s, i);
    RunCell(s, i, e);
    PiecesRun(s, i, e);
  }

  /** The cells from `i` are the run up to the next pipe followed by the cells after it. */
  lemma PlainCellsCons(s: string, i: nat, e: nat)
    requires i < e < |s| && s[i] != '|' && '`' !in s && '\\' !in s
    requires e == i + SpanNot(s, i, {'|'})
    requires CellsFrom(s, e + 1) == NonEmpty(Split(s[e + 1..], '|'))
    ensures CellsFrom(s, i) == NonEmpty(Split(s[i..], '|'))
  {
    PlainCellsRun(s, i, e);
  }

  lemma RunCell(s: string, i: nat, e: nat)
    requires i < e < |s| && s[i] != '|' && RunEnd(s, i) == e
    ensures CellsFrom(s, i) == [s[i..e]] + CellsFrom(s, e + 1)
  {
    assert CellsFrom(s, i) == [s[i..e]] + CellsFrom(s, e);
    PlainCellsPipe(s, e);
  }

  lemma PiecesRun(s: string, i: nat, e: nat)
    requires i < e < |s| && s[e] == '|'
    requires forall k :: i <= k < e ==> s[k] != '|'
    ensures NonEmpty(Split(s[i..], '|')) == [s[i..e]] + NonEmpty(Split(s[e + 1..], '|'))
  {
    var rest := s[i..];
    var n := e - i;
    assert rest[..n] == s[i..e];
    assert rest[n + 1..] == s[e + 1..];
    assert '|' !in rest[..n];
    SplitAt(rest, '|', n);
    NonEmptyCons(s[i..e], Split(s[e + 1..], '|'));
  }

  /** A run from `i` to the end is the last cell. */
  lemma PlainCellsLast(s: string, i: nat)
    requires i < |s| && s[i] != '|' && '`' !in s && '\\' !in s
    requires i + SpanNot(s, i, {'|'}) == |s|
    ensures CellsFrom(s, i) == [s[i..]] && NonEmpty(Split(s[i..], '|')) == [s[i..]]
  {
    PlainRunEnd(s, i);
    var rest := s[i..];
    assert '|' !in rest;
    assert Split(rest, '|') == [rest];
    NonEmptyCons(rest, []);
    assert CellsFrom(s, |s|) == [];
    assert s[i..|s|] == rest;
  }

  lemma NonEmptyCons(p: string, ps: seq<string>)
    requires p != []
    ensures NonEmpty([p] + ps) == [p] + NonEmpty(ps)
  {
    assert ([p] + ps)[1..] == ps;
  }

  lemma NonEmptySkip(ps: seq<string>)
    ensures NonEmpty([[]] + ps) == NonEmpty(ps)
  {
    assert ([[]] + ps)[1..] == ps;
  }

  /** The divider cell that writes an alignment. */
  function DividerCell(a: Option<Align>): (r: string)
    ensures r != [] && r[0] != '|' && r[|r| - 1] != '|' && '|' !in r
    ensures AllIn(r, DividerChars)
  {
    match a
    case None => "-"
    case Some(Left) => ":-"
    case Some(Right) => "-:"
    case Some(Center) => ":-:"
  }

  /** A divider line for the given alignments, with outer pipes: `|:-|-:|`. */
  function Divider(al: seq<Option<Align>>): string
    requires |al| >= 1
  {
    "|" + Join(DividerCells(al), '|') + "|"
  }

  function DividerCells(al: seq<Option<Align>>): (r: seq<string>)
    ensures |r| == |al| && forall i :: 0 <= i < |al| ==> r[i] == DividerCell(al[i])
  {
    if al == [] then [] else [DividerCell(al[0])] + DividerCells(al[1..])
  }

  /** Joined pieces that each start and end with something other than the separator start and end so too. */
  lemma {:induction false} JoinEnds(parts: seq<string>, sep: char)
    requires |parts| >= 1
    requires forall k :: 0 <= k < |parts| ==> parts[k] != [] && parts[k][0] != sep && parts[k][|parts[k]| - 1] != sep
    ensures var j := Join(parts, sep);
      (j != [] && j[0] == parts[0][0] && j[|j| - 1] == parts[|parts| - 1][|parts[|parts| - 1]| - 1])
  {
    if |parts| > 1 {
      var tail := parts[1..];
      assert forall k :: 0 <= k < |tail| ==> tail[k] == parts[k + 1];
      JoinEnds(tail, sep);
      var r := Join(tail, sep);
      var j := parts[0] + [sep] + r;
      assert Join(parts, sep) == j;
      assert j[0] == parts[0][0];
      assert j[|j| - 1] == r[|r| - 1];
      assert tail[|tail| - 1] == parts[|parts| - 1];
    }
  }

  /** Every character of a join is a separator or a character of a piece. */
  lemma {:induction false} JoinChars(parts: seq<string>, sep: char, cs: set<char>)
    requires sep in cs
    requires forall k :: 0 <= k < |parts| ==> AllIn(parts[k], cs)
    ensures AllIn(Join(parts, sep), cs)
  {
    if |parts| > 1 {
      JoinChars(parts[1..], sep, cs);
      var j := Join(parts, sep);
      assert j == parts[0] + [sep] + Join(parts[1..], sep);
      forall i | 0 <= i < |j| ensures j[i] in cs {
        if i < |parts[0]| {
          assert j[i] == parts[0][i];
        } else if i > |parts[0]| {
          assert j[i] == Join(parts[1..], sep)[i - |parts[0]| - 1];
        }
      }
    }
  }

  /** A divider cell is its own trim and reads back as its alignment. */
  lemma DividerCellAlignment(a: Option<Align>)
    ensures DividerCell(a) != [] && Trim(DividerCell(a), TrimChars) == DividerCell(a)
    ensures Alignment(DividerCell(a)) == a
  {
    var c := DividerCell(a);
    assert c[0] in {'-', ':'} && c[|c| - 1] in {'-', ':'};
    TrimKeeps(c, TrimChars);
  }

  /** The divider cells of some alignments read back, cell by cell, as those alignments. */
  lemma AlignmentsOfCells(al: seq<Option<Align>>)
    ensures Alignments(DividerCells(al)) == Some(al)
  {
    var cells := DividerCells(al);
    forall k | 0 <= k < |cells|
      ensures Trim(cells[k], TrimChars) != [] && Alignment(Trim(cells[k], TrimChars)) == al[k]
    {
      DividerCellAlignment(al[k]);
    }
    var r := Alignments(cells);
    assert r.Some?;
    assert r.value == al;
  }

  /** A divider line opens with a pipe and holds only divider characters. */
  lemma DividerShape(al: seq<Option<Align>>)
    requires |al| >= 1
    ensures Divider(al) != [] && Divider(al)[0] == '|' && AllIn(Divider(al), DividerChars)
  {
    JoinChars(DividerCells(al), '|', DividerChars);
  }

  /**
   * A divider line written from alignments reads back as those
   * alignments: the divider's cells and its alignment rules invert each
   * other.
   */
  lemma DividerRoundTrip(al: seq<Option<Align>>)
    requires |al| >= 1
    ensures AllIn(Divider(al), DividerChars) && '|' in Divider(al)
    ensures Alignments(PipeCells(Divider(al))) == Some(al)
  {
    var cells := DividerCells(al);
    DividerShape(al);
    DividerTrim(al);
    forall p | p in cells ensures '|' !in p { }
    SplitJoin(cells, '|');
    assert PipeCells(Divider(al)) == cells;
    AlignmentsOfCells(al);
  }

  lemma DividerCellEnds(al: seq<Option<Align>>)
    ensures var cells := DividerCells(al);
      forall k :: 0 <= k < |cells| ==> cells[k] != [] && cells[k][0] != '|' && cells[k][|cells[k]| - 1] != '|'
  {
    var cells := DividerCells(al);
    forall k | 0 <= k < |cells| ensures cells[k] != [] && cells[k][0] != '|' && cells[k][|cells[k]| - 1] != '|' {
      assert cells[k] == DividerCell(al[k]);
    }
  }

  /** Trimming a divider line and its outer pipes leaves the joined cells. */
  lemma DividerTrim(al: seq<Option<Align>>)
    requires |al| >= 1
    ensures Trim(Trim(Divider(al), TrimChars), {'|'}) == Join(DividerCells(al), '|')
  {
    DividerForm(al);
    TrimPiped(Join(DividerCells(al), '|'));
  }

  /** Between two pipes, a text that neither starts nor ends with one is what trimming leaves. */
  lemma TrimPiped(j: string)
    requires j != [] && j[0] != '|' && j[|j| - 1] != '|'
    ensures Trim(Trim("|" + (j + "|"), TrimChars), {'|'}) == j
  {
    var d := "|" + (j + "|");
    assert d[0] == '|' && d[|d| - 1] == '|';
    TrimKeeps(d, TrimChars);
    LTrimRun("|", j + "|", '|');
    RTrimRun(j, "|", '|');
    assert Trim(d, {'|'}) == RTrim(LTrim(d, {'|'}), {'|'});
  }

  /** A divider line is its joined cells between two pipes; the join neither starts nor ends with one. */
  lemma DividerForm(al: seq<Option<Align>>)
    requires |al| >= 1
    ensures var j := Join(DividerCells(al), '|');
      && j != [] && j[0] != '|' && j[|j| - 1] != '|'
      && Divider(al) == "|" + (j + "|")
  {
    var cells := DividerCells(al);
    DividerCellEnds(al);
    JoinEnds(cells, '|');
  }

  /**
   * Below an open one-line paragraph whose pipe cells match the divider's
   * count, the divider written from alignments starts a table with those
   * alignments and the paragraph's cells, trimmed, as its header.
   */
  lemma TableFromDivider(p: string, al: seq<Option<Align>>)
    requires |al| >= 1 && '\n' !in p && |PipeCells(p)| == |al|
    ensures var t := Divider(al);
      TableStart(MakeLine(t), Some(Block(ParagraphData(p), 0)))
        == Some(Block(TableData(al, TrimEach(PipeCells(p)), []), 0))
  {
    var t := Divider(al);
    DividerRoundTrip(al);
    var line := MakeLine(t);
    assert t[0] == '|';
    assert Span(t, 0, {' '}) == 0;
    assert line.text == t;
    var cur := Some(Block(ParagraphData(p), 0));
    assert OpenParagraph(cur);
    assert !(('|' !in p && '|' !in t && ':' !in t) || '\n' in p);
    assert AllIn(t, DividerChars);
    var al' := Alignments(PipeCells(t));
    assert al' == Some(al);
  }
}
