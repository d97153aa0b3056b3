/**
 * Bullet and ordered lists (SourceParser.php, blockList, blockListContinue,
 * blockListComplete).  The source keeps the item still taking lines behind
 * a PHP reference into the list's elements; here it is the `li` field of
 * ListData and the finished items are `items`.
 */
module Lists {
  import opened Wrappers
  import opened Strings
  import opened Lines
  import opened References
  import opened Blocks

  const DecimalDigits: set<char> := {'0', '1', '2', '3', '4', '5', '6', '7', '8', '9'}

  /** What a list continuation hands back: the block, and the definition the line recorded, if any. */
  datatype Continued = Continued(block: Block, defined: Option<RefDef>)

  /** Every item of a list, the open one last. */
  function Items(d: BlockData): (r: seq<seq<string>>)
    requires d.ListData?
    ensures |r| == |d.items| + 1 && r[..|d.items|] == d.items && r[|d.items|] == d.li
  {
    d.items + [d.li]
  }

  /**
   * The length of the item marker at the start of `t`: `[*+-]` for a
   * bullet list, `[0-9]{1,9}+[.)]` for an ordered one.  The possessive
   * repetition takes at most nine digits, so a tenth digit makes the
   * pattern fail.
   */
  function MarkerLength(t: string, ul: bool): (r: Option<nat>)
    ensures r.Some? ==> 1 <= r.value <= |t| && r.value <= 10
    ensures r.Some? && ul ==> r.value == 1 && t[0] in {'*', '+', '-'}
    ensures r.Some? && !ul ==> (r.value >= 2 && t[r.value - 1] in {'.', ')'}
      && forall i :: 0 <= i < r.value - 1 ==> t[i] in DecimalDigits)
  {
    if ul then
      if |t| > 0 && t[0] in {'*', '+', '-'} then Some(1) else None
    else
      var d := Span(t, 0, DecimalDigits);
      if 1 <= d <= 9 && d < |t| && t[d] in {'.', ')'} then Some(d + 1) else None
  }

  /** ltrim($digits, '0') ?: '0': the start number of an ordered list as written, without leading zeros. */
  function ListStartNumber(digits: string): (r: string)
    ensures r != [] && (r == "0" || r[0] != '0')
  {
    var s := LTrim(digits, {'0'});
    if s == [] then "0" else s
  }

  /**
   * The marker as the list records it: the item marker and one space when
   * five or more spaces follow it (or none at all), else the item marker
   * and all its spaces.
   */
  function MarkerText(t: string, m: nat, s: nat): string
    requires m + s <= |t|
  {
    if s >= 5 then t[..m + 1] else if s == 0 then t[..m] + " " else t[..m + s]
  }

  /** The first line of the item: what follows the marker, with the spaces beyond the first kept when there are five or more. */
  function FirstLine(t: string, m: nat, s: nat): string
    requires m + s <= |t|
  {
    if s >= 5 then Repeat(' ', s - 1) + t[m + s..] else t[m + s..]
  }

  /**
   * blockList: a marker followed by spaces or by the end of the line opens
   * a list.  An ordered list whose number is not 1 cannot interrupt a
   * paragraph that is still open.  `empty()` treats the first line "0"
   * like an empty one, so the item then starts without lines.
   */
  function ListStart(line: Line, current: Option<Block>): (r: Option<Block>)
    requires |line.text| > 0
    ensures r.Some? ==> MarkerLength(line.text, line.text[0] <= '-').Some?
    ensures r.Some? ==> (var m := MarkerLength(line.text, line.text[0] <= '-').value;
      r.value == ListBlock(line, m, Span(line.text, m, {' '})))
  {
    var t := line.text;
    match MarkerLength(t, t[0] <= '-')
    case None => None
    case Some(m) =>
      var s := Span(t, m, {' '});
      if s == 0 && m < |t| then None
      else if ListNumber(t, m).Some? && OpenParagraph(current) then None
      else Some(ListBlock(line, m, s))
  }

  /** The list a marker of length `m` followed by `s` spaces opens. */
  function ListBlock(line: Line, m: nat, s: nat): (b: Block)
    requires 1 <= m && m + s <= |line.text|
    ensures b.data.ListData? && b.interrupted == 0
  {
    var t := line.text;
    Block(ListData(if t[0] <= '-' then Ul else Ol, MarkerText(t, m, s), t[m - 1], line.indent,
                   ListNumber(t, m), [], FirstLines(FirstLine(t, m, s)), false), 0)
  }

  /** The `start` attribute: only an ordered list whose number is not 1 has one. */
  function ListNumber(t: string, m: nat): (r: Option<string>)
    requires 1 <= m <= |t|
  {
    if t[0] <= '-' then None
    else
      var number := ListStartNumber(t[..m - 1]);
      if number != "1" then Some(number) else None
  }

  /** `!empty($matches[3]) ? array($matches[3]) : array()`. */
  function FirstLines(rest: string): (r: seq<string>)
    ensures r == [] <==> rest == "" || rest == "0"
    ensures r != [] ==> r == [rest]
  {
    if rest == "" || rest == "0" then [] else [rest]
  }

  /** The marker with the item's first line after it is the line itself, or the line and a space when nothing follows the marker. */
  lemma MarkerSplit(t: string, m: nat, s: nat)
    requires 1 <= m && m + s <= |t| && (s > 0 || m == |t|)
    requires forall k :: m <= k < m + s ==> t[k] == ' '
    ensures var marker := MarkerText(t, m, s);
      |marker| >= 2 && marker[|marker| - 1] == ' '
    ensures s > 0 ==> MarkerText(t, m, s) + FirstLine(t, m, s) == t
    ensures s == 0 ==> MarkerText(t, m, s) == t + " " && FirstLine(t, m, s) == ""
  {
    if s >= 5 {
      assert t[m + 1..m + s] == Repeat(' ', s - 1);
      assert t == t[..m + 1] + t[m + 1..m + s] + t[m + s..];
    } else if s > 0 {
      assert t == t[..m + s] + t[m + s..];
    } else {
      assert t[..m] == t;
    }
  }

  /**
   * The marker ends in a space, and put in front of the item's first line
   * it gives the line back; `requiredIndent` therefore counts the marker
   * and the spaces the item's text sits behind.
   */
  lemma ListStartLine(line: Line, current: Option<Block>)
    requires |line.text| > 0 && ListStart(line, current).Some?
    ensures var d := ListStart(line, current).value.data;
      && |d.marker| >= 2 && d.marker[|d.marker| - 1] == ' '
      && (d.li == [] || d.marker + d.li[0] == line.text)
  {
    var t := line.text;
    var m := MarkerLength(t, t[0] <= '-').value;
    var s := Span(t, m, {' '});
    MarkerSplit(t, m, s);
  }

  /** The open list's required indent: its own indent and the width of its marker. */
  function RequiredIndent(d: BlockData): nat
    requires d.ListData?
  {
    d.indent + |d.marker|
  }

  /**
   * `t` is `^[0-9]++<type>(?:[ ]++(.*)|$)` for an ordered list, or
   * `^<type>(?:[ ]++(.*)|$)` for a bullet list, with the marker type at
   * position `d` and `rest` the group after the spaces: a maximal run of
   * digits (none for a bullet list), the marker type, then one or more
   * spaces and `rest`, which does not start with a space, or the marker
   * type alone at the end with `rest` empty.
   */
  predicate MarkerThen(t: string, listType: ListType, markerType: char, d: nat, rest: string) {
    && d < |t| && t[d] == markerType
    && (listType == Ol <==> d >= 1)
    && (forall i :: 0 <= i < d ==> t[i] in DecimalDigits)
    && (listType == Ol ==> t[d] !in DecimalDigits)
    && |rest| < |t| - d && t[|t| - |rest|..] == rest
    && (forall i :: d < i < |t| - |rest| ==> t[i] == ' ')
    && (rest == [] || rest[0] != ' ')
    && (d + 1 < |t| - |rest| || rest == [])
  }

  /**
   * A marker of the list's own type, `^[0-9]++<type>(?:[ ]++(.*)|$)` or
   * `^<type>(?:[ ]++(.*)|$)`: the new item's first line, "" when nothing
   * follows the marker.  SameMarkerAccepts gives the converse.
   */
  function SameMarker(t: string, listType: ListType, markerType: char): (r: Option<string>)
    ensures r.Some? ==> |r.value| < |t|
    ensures r.Some? ==> exists d :: MarkerThen(t, listType, markerType, d, r.value)
  {
    var d := if listType == Ol then Span(t, 0, DecimalDigits) else 0;
    if (listType == Ol && d == 0) || d >= |t| || t[d] != markerType then None
    else
      var s := Span(t, d + 1, {' '});
      if s >= 1 then
        var rest := t[d + 1 + s..];
        assert MarkerThen(t, listType, markerType, d, rest) by {
          assert |t| - |rest| == d + 1 + s;
          assert rest != [] ==> rest[0] == t[d + 1 + s];
        }
        Some(rest)
      else if d + 1 == |t| then
        assert MarkerThen(t, listType, markerType, d, "");
        Some("")
      else None
  }

  /** Every line of the marker's shape is accepted, with the text after the spaces as the new item's line. */
  lemma SameMarkerAccepts(t: string, listType: ListType, markerType: char, d: nat, rest: string)
    requires MarkerThen(t, listType, markerType, d, rest)
    ensures SameMarker(t, listType, markerType) == Some(rest)
  {
    if listType == Ol {
      SpanExact(t, 0, d, DecimalDigits);
    }
    var k := |t| - |rest|;
    if rest == [] {
      SpanExact(t, d + 1, k, {' '});
    } else {
      assert t[k] == rest[0];
      SpanExact(t, d + 1, k, {' '});
    }
  }

  /** `preg_replace('/^[ ]{0,n}+/', '', $body)`: at most `n` leading spaces removed. */
  function DropSpaces(body: string, n: nat): (r: string)
    ensures |r| <= |body| && r == body[|body| - |r|..]
  {
    var k := Span(body, 0, {' '});
    body[(if k < n then k else n)..]
  }

  /** The open item, with the '' that marks a blank line before new content when the list was interrupted. */
  function OpenItem(b: Block): seq<string>
    requires b.data.ListData?
  {
    if b.interrupted > 0 then b.data.li + [""] else b.data.li
  }

  /**
   * blockListContinue.  In order: after a blank line an item without lines
   * ends the list; a marker of the list's type indented less than the
   * required indent starts a new item; any other list marker there ends
   * the list; a reference definition is recorded and leaves the list as it
   * is; a line indented at least the required indent joins the open item
   * past that indent; an under-indented line joins it lazily unless a blank
   * line came between, which ends the list.
   */
  function ListContinue(line: Line, b: Block): (r: Option<Continued>)
    requires b.data.ListData? && |line.text| > 0
    ensures r.Some? ==> r.value.block.data.ListData?
  {
    var d := b.data;
    if b.interrupted > 0 && d.li == [] then None
    else
      var req := RequiredIndent(d);
      var same := if line.indent < req then SameMarker(line.text, d.listType, d.markerType) else None;
      if same.Some? then
        Some(Continued(Block(d.(indent := line.indent, items := d.items + [OpenItem(b)], li := [same.value],
                                loose := d.loose || b.interrupted > 0), 0), None))
      else if line.indent < req && ListStart(line, None).Some? then None
      else if line.text[0] == '[' && ParseReference(line.text).Some? then
        Some(Continued(b, ParseReference(line.text)))
      else if line.indent >= req then
        Some(Continued(Block(d.(li := OpenItem(b) + [Substr(line.body, req)], loose := d.loose || b.interrupted > 0), 0), None))
      else if b.interrupted == 0 then
        Some(Continued(Block(d.(li := d.li + [DropSpaces(line.body, req)]), 0), None))
      else None
  }

  /** Only the open item changes, or a new one opens: the finished items are kept as they are. */
  lemma ListContinueKeepsItems(line: Line, b: Block)
    requires b.data.ListData? && |line.text| > 0 && ListContinue(line, b).Some?
    ensures var c := ListContinue(line, b).value.block;
      && c.data.ListData? && c.data.listType == b.data.listType
      && c.data.marker == b.data.marker && c.data.markerType == b.data.markerType
      && |c.data.items| >= |b.data.items| && c.data.items[..|b.data.items|] == b.data.items
      && (b.data.loose ==> c.data.loose)
  {
  }

  /**
   * A marker of the list's type indented less than the required indent
   * starts a new item holding what follows the marker; the finished item
   * gets a closing '' when a blank line came between, and the list turns loose.
   */
  lemma ListNewItem(line: Line, b: Block, first: string)
    requires b.data.ListData? && |line.text| > 0
    requires !(b.interrupted > 0 && b.data.li == [])
    requires line.indent < RequiredIndent(b.data)
    requires SameMarker(line.text, b.data.listType, b.data.markerType) == Some(first)
    ensures ListContinue(line, b) == Some(Continued(Block(b.data.(indent := line.indent,
      items := Items(b.data)[..|Items(b.data)| - 1] + [OpenItem(b)], li := [first],
      loose := b.data.loose || b.interrupted > 0), 0), None))
  {
    assert Items(b.data)[..|Items(b.data)| - 1] == b.data.items;
  }

  /** A line indented at least the required indent joins the open item past that indent. */
  lemma ListIndentedLine(line: Line, b: Block)
    requires b.data.ListData? && |line.text| > 0 && line.indent <= |line.body|
    requires !(b.interrupted > 0 && b.data.li == [])
    requires line.indent >= RequiredIndent(b.data)
    requires !(line.text[0] == '[' && ParseReference(line.text).Some?)
    ensures var req := RequiredIndent(b.data);
      ListContinue(line, b) == Some(Continued(Block(b.data.(li := OpenItem(b) + [line.body[req..]],
        loose := b.data.loose || b.interrupted > 0), 0), None))
  {
  }

  /**
   * An under-indented line that is no list marker and no definition joins
   * the open item as its dedented text when no blank line came between,
   * and ends the list otherwise.
   */
  lemma ListLazyLine(line: Line, b: Block)
    requires b.data.ListData? && |line.text| > 0 && line == MakeLine(line.body)
    requires line.indent < RequiredIndent(b.data)
    requires SameMarker(line.text, b.data.listType, b.data.markerType).None?
    requires ListStart(line, None).None?
    requires !(line.text[0] == '[' && ParseReference(line.text).Some?)
    ensures b.interrupted == 0 ==> ListContinue(line, b) == Some(Continued(Block(b.data.(li := b.data.li + [line.text]), 0), None))
    ensures b.interrupted > 0 ==> ListContinue(line, b).None?
  {
  }

  /** A definition inside a list is recorded, and the list is left exactly as it was. */
  lemma ListReferenceLine(line: Line, b: Block)
    requires b.data.ListData? && |line.text| > 0
    requires !(b.interrupted > 0 && b.data.li == [])
    requires line.indent < RequiredIndent(b.data) ==>
      SameMarker(line.text, b.data.listType, b.data.markerType).None? && ListStart(line, None).None?
    requires line.text[0] == '[' && ParseReference(line.text).Some?
    ensures ListContinue(line, b) == Some(Continued(b, ParseReference(line.text)))
  {
  }

  /** An item closed for a loose list: it ends in ''. */
  function Close(item: seq<string>): (r: seq<string>)
    ensures |r| > 0 && r[|r| - 1] == ""
    ensures r == item || r == item + [""]
    ensures r == item <==> (|item| > 0 && item[|item| - 1] == "")
  {
    if |item| > 0 && item[|item| - 1] == "" then item else item + [""]
  }

  /**
   * blockListComplete: in a loose list every item gets a final '' unless
   * it already ends with one (`end()` of an item without lines is false,
   * so that item gets one too); a tight list is left alone.
   */
  function ListComplete(b: Block): (r: Block)
    requires b.data.ListData?
    ensures r.data.ListData? && r.interrupted == b.interrupted
    ensures !b.data.loose ==> r == b
    ensures b.data.loose ==> r.data == b.data.(items := CloseAll(b.data.items), li := Close(b.data.li))
  {
    if b.data.loose then Block(b.data.(items := CloseAll(b.data.items), li := Close(b.data.li)), b.interrupted)
    else b
  }

  function CloseAll(items: seq<seq<string>>): (r: seq<seq<string>>)
    ensures |r| == |items| && forall i :: 0 <= i < |items| ==> r[i] == Close(items[i])
  {
    seq(|items|, i requires 0 <= i < |items| => Close(items[i]))
  }

  /** After completion every item of a loose list ends in '', and no item lost or changed a line. */
  lemma ListCompleteLoose(b: Block)
    requires b.data.ListData? && b.data.loose
    ensures var items := Items(ListComplete(b).data);
      && |items| == |Items(b.data)|
      && forall i :: 0 <= i < |items| ==>
        |items[i]| > 0 && items[i][|items[i]| - 1] == ""
        && items[i][..|Items(b.data)[i]|] == Items(b.data)[i]
  {
    var items := Items(ListComplete(b).data);
    forall i | 0 <= i < |items|
      ensures |items[i]| > 0 && items[i][|items[i]| - 1] == "" && |items[i]| >= |Items(b.data)[i]|
      ensures items[i][..|Items(b.data)[i]|] == Items(b.data)[i]
    {
      var old_ := Items(b.data)[i];
      assert items[i] == Close(old_);
    }
  }

  /**
   * The foreach by reference of blockListComplete: each item of the array
   * is closed in place.
   */
  method CloseItems(items: array<seq<string>>)
    modifies items
    ensures items[..] == CloseAll(old(items[..]))
  {
    for i := 0 to items.Length
      invariant forall k :: 0 <= k < i ==> items[k] == Close(old(items[k]))
      invariant forall k :: i <= k < items.Length ==> items[k] == old(items[k])
    {
      items[i] := Close(items[i]);
    }
  }
}
