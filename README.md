# SourceParser in Dafny

A model of `SourceParser`, a Parsedown-style Markdown-to-HTML converter with
liturgical extensions (cross, mid-point and dagger symbols, and red text).
The converter works in three stages. Each stage is modelled here as
specification functions, and an imperative class is proved equal to them.

* **Block stage** (`linesElements`). Each input line is read in turn:
  - a blank line marks the open block as interrupted;
  - tabs are expanded to four-column stops;
  - the line is offered to the open block's `...Continue` handler;
  - failing that, the line goes to the block starters listed for its first
    character, after the unmarked `Code` starter;
  - failing that, it joins or opens a paragraph.

  A started block that is not "identified" flushes the open block into the
  element list. Reference definitions go into the parser's definition table.
  The model is a right fold: `BlockParser.Step`, `Run` and `LinesElements`.
  `SourceParser.Parser.LinesElements` is the loop over lines, proved equal to
  the fold.
* **Inline stage** (`lineElements`). The scanner looks for the first marker
  of `!*_&[:<`~\`. It tries that marker's inline types in order and skips the
  types the context excludes. The first type that accepts emits the text
  before it and the inline. If none accepts, the text up to and including
  the marker stays plain. Plain text is split at line breaks by
  `inlineText`/`pregReplaceElements`. The model is `InlineScanner.Turn` and
  `InlineScanner.Scan`, over a recogniser that dispatches each inline type
  to its handler (`InlineHandlers.TryKind`). The class methods `ScanLine`,
  `ScanExcerpt` and `LineElements` are the loop, proved equal to it.
* **Rendering** (`handle`, `element`, `elements`). Deferred content runs its
  handler. The three handlers are `lineElements`, `linesElements` and `li`.
  Rendering writes the opening tag with its escaped attributes, then the
  children, text or raw HTML, and puts line feeds between block-like
  elements. Handlers run while rendering, so they may add to the definition
  table; the model threads the table through `Render.RenderElement` and
  `Render.RenderElements`.

Configuration (`Settings.Config`) is `breaksEnabled`, `liturgicalElements`
and `liturgicalHTML`, with the source's defaults (`Settings.Defaults`).
`markupEscaped` is fixed at its default, true, and `safeMode`, `strictMode`
and `urlsLinked` are fixed off, because the class never sets them. With
markup escaped, every raw-HTML path is closed: the comment block, the markup
block and inline markup.

## Model

| member | source | states |
|---|---|---|
| Strings.LTrim | SourceParser.php:648 | the result is the input with its leading run of trimmed characters removed: a suffix that does not start with one of them |
| Strings.RTrim | SourceParser.php:227 | `chop`: a prefix that does not end in a trimmed character, and everything cut off is a trimmed character |
| Strings.Trim | SourceParser.php:195 | `trim`: both ends are free of the trimmed characters, an input made only of them becomes empty, and no character is invented |
| Strings.RTrimEmpty | SourceParser.php:227 | a line is blank (`chop($line) === ''`) exactly when every character is whitespace |
| Strings.Lower | SourceParser.php:913 | `strtolower` keeps the length, leaves no upper-case ASCII letter and touches nothing else |
| Strings.LowerIdempotent | SourceParser.php:913 | lower-casing twice is the same as lower-casing once |
| Strings.LowerPrefix | SourceParser.php:2006 | lower-casing commutes with taking a prefix |
| Strings.Span | SourceParser.php:245 | `strspn`: the longest run of accepted characters from a position |
| Strings.SpanNot | SourceParser.php:1174 | `strpbrk` offset: the longest run of characters outside a set, which ends at the end or at a member |
| Strings.IndexOf | SourceParser.php:237 | the first occurrence of a character, with none before it |
| Strings.FindFrom | SourceParser.php:910 | `strpos` from an offset: the first occurrence at or after it, or a proof that there is none |
| Strings.Split | SourceParser.php:198 | `explode` yields at least one part, and no part contains the separator |
| Strings.JoinSplit | SourceParser.php:198 | joining the parts of `explode` with the separator gives the input back |
| Strings.SplitJoin | SourceParser.php:198 | splitting a join of separator-free parts gives those parts back |
| Strings.Substr | SourceParser.php:247 | `substr` from an offset: the suffix, or the empty string past the end |
| Strings.IndexOfUnique | SourceParser.php:237 | a position holding the character, with none before it, is the first occurrence |
| Lines.ExpandTabs | SourceParser.php:237-243 | the tab-expansion loop computes `Expanded` and leaves no tab |
| Lines.ExpandedHasNoTabs | SourceParser.php:237-243 | an expanded line holds no tab |
| Lines.ExpandedTabFree | SourceParser.php:237-243 | a line without tabs is unchanged by expansion |
| Lines.TabStep | SourceParser.php:238-242 | one tab becomes the spaces that reach the next multiple-of-four column |
| Lines.MakeLine | SourceParser.php:245-251 | a line's indent is its leading spaces, and its text is the body past them, starting with a non-space |
| Lines.NonBlankHasText | SourceParser.php:227-272 | a non-blank line has a first character to choose block types by (`$text[0]`) |
| Lines.StandardizeBreaks | SourceParser.php:1152 | standardised text holds no carriage return |
| Lines.StandardizeBreaksIdentity | SourceParser.php:1152 | text without carriage returns is unchanged |
| Lines.DocumentLines | SourceParser.php:191-198 | a document splits into at least one line, none holding a line feed or carriage return |
| Escape.Escape | SourceParser.php:1998-2000 | `htmlspecialchars` output has no angle brackets, has no quotes unless quotes are allowed, and is never shorter |
| Escape.UnescapeEscape | SourceParser.php:1998-2000 | escaping loses nothing: decoding the five entities gives the text back |
| Escape.EscapePlain | SourceParser.php:1998-2000 | text without special characters is unchanged |
| Escape.EscapeAppend | SourceParser.php:1998-2000 | escaping distributes over concatenation |
| Escape.StriAtStart | SourceParser.php:2002-2010 | a true answer needs a needle no longer than the string |
| Escape.StriAtStartPrefix | SourceParser.php:2002-2010 | the answer is case-insensitive, and holds exactly when the lower-cased string starts with the lower-cased needle |
| References.Tail | SourceParser.php:911 | the end of a definition is only spaces (no title), or a quoted title after at least one space |
| References.UrlFrom | SourceParser.php:911 | a lazily matched URL is a non-empty slice of the line starting at the URL's position |
| References.ParseReference | SourceParser.php:908-928 | a definition needs a leading `[` and a `]`; its id is lower-cased and non-empty; its URL is non-empty |
| References.ParseFormat | SourceParser.php:908-928 | round trip: parsing the written form `[id]: url "title"` gives the lower-cased id, the URL and the title |
| References.IdFromSkip | SourceParser.php:911 | the lazy `(.+?)` label tries each `]` in turn; characters that are not `]` change nothing |
| References.UrlFromSkip | SourceParser.php:911 | the lazy `(\S+?)` URL grows over non-space characters without changing the match |
| References.UrlAtEnd | SourceParser.php:911 | a URL that runs to the title or the end of the line is matched whole, with that title |
| References.TailTitle | SourceParser.php:911 | a double-quoted title after a space is read as the title |
| References.FormatChars | SourceParser.php:911 | the written form of a definition has the characters that the pattern's groups match |
| References.ParseAt | SourceParser.php:911 | a line shaped like a definition parses to it |
| References.IdAt | SourceParser.php:911 | the id ends at the first `]:` followed by the URL |
| References.TailAtNonSpace | SourceParser.php:911 | text glued to the URL is not a title |
| Blocks.ExtractElement | SourceParser.php:358-369 | a reference block extracts to the empty element, and every other block to a named one |
| Blocks.CellAttributes | SourceParser.php:1090-1095 | a cell has a `style` attribute exactly when its column has an alignment, and it reads `text-align: left;`, `center;` or `right;` |
| Blocks.Row | SourceParser.php:1076-1102 | a `tr` holding one cell per cell text, in order: cell i has the row's cell name, its column's alignment style when column i has one and none otherwise, and its text for the line handler |
| SimpleBlocks.HeaderStart | SourceParser.php:575-605 | an ATX header opens exactly when the leading `#` run is at most six long; that run's length is the level, and the text is the line trimmed of `#` at both ends and then of spaces |
| SimpleBlocks.HeaderRoundTrip | SourceParser.php:575-605 | `#`s, a space, text and optional closing `#`s give a header of that level with that text |
| SimpleBlocks.RuleStart | SourceParser.php:828-842 | a rule needs at least three of the marker character and nothing else but spaces |
| SimpleBlocks.SetextStart | SourceParser.php:847-860 | an underline of `=` or `-` turns an open, uninterrupted paragraph into a level 1 or 2 header |
| SimpleBlocks.QuoteStrip | SourceParser.php:786 | the quote text is the line past `>` and one optional space |
| SimpleBlocks.QuoteStart | SourceParser.php:784-801 | a quote opens exactly on a `>` line, holding the stripped text |
| SimpleBlocks.QuoteContinue | SourceParser.php:803-823 | a quote goes on exactly while it is uninterrupted |
| SimpleBlocks.ReferenceStart | SourceParser.php:908-928 | a reference block starts exactly when the line parses as a definition |
| SimpleBlocks.ParagraphContinue | SourceParser.php:1129-1139 | an uninterrupted paragraph takes the line after a line feed; an interrupted one ends |
| SimpleBlocks.TrimHashes | SourceParser.php:584 | trimming `#` removes exactly the opening and closing runs |
| SimpleBlocks.TrimSpaces | SourceParser.php:591 | trimming spaces removes exactly the padding |
| CodeBlocks.CodeStart | SourceParser.php:386-409 | indented code opens at four or more columns unless a paragraph is open, and keeps the body past four columns |
| CodeBlocks.CodeContinue | SourceParser.php:411-430 | indented code goes on at four or more columns, with one line feed per line that came between |
| CodeBlocks.Language | SourceParser.php:508-524 | the language is the first word of the info string, or none for an empty string |
| CodeBlocks.FencedStart | SourceParser.php:485-536 | three or more backticks or tildes open a fence unless the info string holds a backtick; the language is its first word |
| CodeBlocks.FencedContinue | SourceParser.php:538-565 | an open fence takes lines until a closing run at least as long as the opener |
| CodeProperties.FencedRoundTrip | SourceParser.php:485-570 | opener, body and closer give one code element with the language class and the body joined by line feeds |
| CodeProperties.FenceBody | SourceParser.php:538-565 | every non-closing line is appended to the open fence |
| CodeProperties.FenceClose | SourceParser.php:552-559 | a closing line completes the fence without flushing it |
| CodeProperties.CodeRoundTrip | SourceParser.php:386-435 | consecutive indented lines give one `pre`/`code` element holding their bodies past four columns |
| CodeProperties.CodeBody | SourceParser.php:411-430 | each indented line extends the open code block |
| Lists.MarkerLength | SourceParser.php:612-614 | a bullet marker is one of `*+-`; an ordered marker is one to nine digits and `.` or `)` |
| Lists.ListStartNumber | SourceParser.php:648 | the `start` attribute has no leading zeros |
| Lists.ListStart | SourceParser.php:610-677 | a list opens only on a marker of its type, holding the text after it |
| Lists.ListStartLine | SourceParser.php:610-677 | the marker text ends in a space and, with the first item line, rebuilds the line |
| Lists.MarkerSplit | SourceParser.php:614-627 | marker and first line split the text, with a space added after a bare marker |
| Lists.FirstLines | SourceParser.php:668 | the first item is empty when the rest of the line is empty or `"0"` (the `!empty` test as written) |
| Lists.SameMarker | SourceParser.php:688-697 | an accepted line is a marker of the list's type (after a maximal digit run for an ordered list), then either spaces and the returned text, which starts with no space, or nothing, with "" returned |
| Lists.SameMarkerAccepts | SourceParser.php:688-697 | conversely, every line of that shape is accepted, and the text after the spaces becomes the new item's first line |
| Lists.DropSpaces | SourceParser.php:757 | removing indentation keeps a suffix of the body |
| Lists.ListContinue | SourceParser.php:679-763 | a continued list stays a list |
| Lists.ListContinueKeepsItems | SourceParser.php:679-763 | continuing keeps the list type and marker, never drops a finished item, and keeps a loose list loose |
| Lists.ListNewItem | SourceParser.php:688-725 | a marker of the same type below the required indent starts a new item; the list turns loose after a blank |
| Lists.ListIndentedLine | SourceParser.php:737-753 | a line indented to the item joins it past the required indent, after the blanks that came between |
| Lists.ListLazyLine | SourceParser.php:755-762 | an unmarked line continues the item lazily unless the list was interrupted |
| Lists.ListReferenceLine | SourceParser.php:732-735 | a definition inside a list is recorded and leaves the list unchanged |
| Lists.Close | SourceParser.php:771-774 | completing an item ensures it ends in an empty line, adding one only when needed |
| Lists.ListComplete | SourceParser.php:765-779 | a tight list is unchanged; a loose one has every item closed |
| Lists.CloseAll | SourceParser.php:769-775 | every item is closed, in order |
| Lists.ListCompleteLoose | SourceParser.php:765-779 | in a completed loose list every item keeps its lines and ends in an empty line |
| Lists.CloseItems | SourceParser.php:769-775 | the in-place loop over the items array computes `CloseAll` |
| Tables.Alignments | SourceParser.php:961-985 | alignments exist exactly when no divider cell is blank, one per cell |
| Tables.PipeCells | SourceParser.php:991-996 | a header row always yields a cell |
| Tables.TrimEach | SourceParser.php:1003-1005 | each header cell is trimmed |
| Tables.TableStart | SourceParser.php:933-1054 | a table starts only under an open, uninterrupted paragraph, from a line of ` -:|` characters, with no rows yet |
| Tables.TokenLength | SourceParser.php:1072 | a cell token is a code span, an escape or a character other than `|` |
| Tables.RunEnd | SourceParser.php:1072 | a cell runs to the next bare `|` or the end |
| Tables.CellsFrom | SourceParser.php:1067-1072 | `preg_match_all` yields only non-empty cells |
| Tables.Take | SourceParser.php:1074 | a row keeps at most as many cells as there are alignments |
| Tables.TableContinue | SourceParser.php:1056-1108 | an uninterrupted table takes a line with a `|`, or any line when it has one column |
| Tables.PlainCells | SourceParser.php:1067-1072 | without code or escapes, the cells are the non-empty pieces between pipes |
| Tables.DividerRoundTrip | SourceParser.php:949-985 | the divider written from alignments is read back as those alignments |
| Tables.AlignmentsOfCells | SourceParser.php:961-985 | each written divider cell is read as its alignment |
| Tables.DividerCellAlignment | SourceParser.php:972-984 | `:-`, `-:`, `:-:` and `-` give left, right, center and none |
| Tables.TableFromDivider | SourceParser.php:933-1054 | under a paragraph with as many cells as alignments, the divider starts that table |
| BlockParser.Candidates | SourceParser.php:280-286 | the unmarked `Code` starter comes first, and the paragraph is never a candidate |
| BlockParser.Start | SourceParser.php:294 | the comment and markup starters never start a block while markup is escaped |
| BlockParser.ContinueBlock | SourceParser.php:255-257 | only a list continuation can define a reference |
| BlockParser.Wrap | SourceParser.php:257-263 | a continuation result is present exactly when the handler returned a block |
| BlockParser.Complete | SourceParser.php:264-267 | completing keeps the block kind and changes only lists |
| BlockParser.Settle | SourceParser.php:264-267 | settling an open block keeps its kind |
| BlockParser.Record | SourceParser.php:920 | a definition is stored under its id; no definition leaves the table alone |
| BlockParser.Flush | SourceParser.php:300-302 | flushing appends the open block's element exactly when there is one |
| BlockParser.Begin | SourceParser.php:293-334 | after a line's starters and the paragraph fallback there is always an open block |
| BlockParser.Feed | SourceParser.php:255-334 | feeding a non-blank line always leaves an open block |
| BlockParser.LineOf | SourceParser.php:237-251 | a non-blank raw line becomes a tab-free line with a first character |
| BlockProperties.BeginExtends | SourceParser.php:293-334 | starting a block only appends to the element list |
| BlockProperties.FlushExtends | SourceParser.php:300-302 | flushing only appends |
| BlockProperties.BeginSkips | SourceParser.php:293-296 | a starter that declines passes the line to the next |
| BlockProperties.BeginTakes | SourceParser.php:296-313 | the first starter that accepts decides; an identified block does not flush |
| BlockProperties.StepExtends | SourceParser.php:226-335 | one line never removes an element already produced |
| BlockProperties.StepKeepsDefinitions | SourceParser.php:226-335 | one line never removes a definition |
| BlockProperties.BeginKeepsDefinitions | SourceParser.php:293-334 | starting a block never removes a definition |
| BlockProperties.RunExtends | SourceParser.php:226-335 | the elements grow by at most one per line, keep their prefix, and definitions only accumulate |
| BlockProperties.RunAppend | SourceParser.php:226-335 | reading lines `a + b` is reading `a` and then `b` from the state `a` left |
| BlockProperties.FeedBegins | SourceParser.php:255-272 | with no continuable block open, a line goes straight to the starters |
| BlockProperties.BeginPastCode | SourceParser.php:280-293 | when `Code` declines, the marker's own starters decide |
| BlockProperties.StepStarts | SourceParser.php:293-313 | a line whose first accepting starter gives a block replaces the open block, flushing it unless identified |
| BlockProperties.SetextReplaces | SourceParser.php:847-860 | an underline replaces the open paragraph with a header of its text, flushing nothing |
| BlockProperties.TableReplaces | SourceParser.php:933-1054 | a divider under a matching paragraph replaces it with a table header, flushing nothing |
| BlockProperties.StepIdentified | SourceParser.php:299-311 | an identified block that defines nothing leaves elements and definitions alone |
| BlockProperties.ReferenceDefines | SourceParser.php:908-928 | a definition line flushes the open block and adds its lower-cased id to the table |
| BlockProperties.BeginOpensParagraph | SourceParser.php:317-334 | when every candidate declines and no open, uninterrupted paragraph takes the line, the open block is flushed and a paragraph of the line's text opens; definitions are unchanged |
| BlockProperties.BeginJoinsParagraph | SourceParser.php:317-325 | when every candidate declines under an open, uninterrupted paragraph, the line joins it after a line feed and nothing is flushed |
| BlockProperties.StepOpensParagraph | SourceParser.php:227-334 | one non-blank line that no open block continues and no candidate starts flushes the open block and opens a paragraph of that line, unless an open, uninterrupted paragraph takes it |
| BlockProperties.StepJoinsParagraph | SourceParser.php:227-325 | one non-blank line that no candidate starts joins an open, uninterrupted paragraph after a line feed, leaving elements and definitions as they were |
| BlockProperties.PlainParagraphLine | SourceParser.php:319-347 | a plain line with no block marker becomes one `p` holding that line |
| InlineHandlers.InlineTypes | SourceParser.php:98-121 | the inline types tried for a marker: `[` tries `Link` first, and `_` is literal unless liturgical elements are on |
| InlineHandlers.JoinCodeLines | SourceParser.php:1278 | inline code has its line feeds replaced by spaces |
| InlineHandlers.CodeClose | SourceParser.php:1276 | the first closing backtick run of the opener's length, or none |
| InlineHandlers.CodeBounds | SourceParser.php:1276 | the code span lies between the opening run and the first matching closing run |
| InlineHandlers.InlineCode | SourceParser.php:1273-1288 | inline code is an opening run, content and a closing run of the same length |
| InlineHandlers.CodeRoundTrip | SourceParser.php:1273-1288 | backticks around content give a `code` element with that content and extent |
| InlineHandlers.CodeSpanEnd | SourceParser.php:1276-1281 | the match ends after the closing run |
| InlineHandlers.InlineEscapeSequence | SourceParser.php:1344-1351 | a backslash escapes exactly the special characters, two characters long |
| InlineHandlers.InlineSpecialCharacter | SourceParser.php:1475-1484 | an entity runs from `&` to `;` and is passed through raw |
| InlineHandlers.EntityRoundTrip | SourceParser.php:1475-1484 | a named or numeric entity is recognised whole |
| InlineHandlers.StrikeClose | SourceParser.php:1491 | the first `~~` closing a run with no line feed before it |
| InlineHandlers.InlineStrikethrough | SourceParser.php:1486-1504 | strikethrough is `~~`, content with non-space ends, and `~~` |
| InlineHandlers.StrikethroughRoundTrip | SourceParser.php:1486-1504 | `~~content~~` gives a `del` element with that content |
| InlineHandlers.InlineUrlTag | SourceParser.php:1530-1545 | a URL tag is `<scheme://...>` and links its URL |
| InlineHandlers.UrlTagRoundTrip | SourceParser.php:1530-1545 | `<scheme://path>` gives a link to that URL |
| InlineHandlers.FindGroup | SourceParser.php:1404 | the label is the first balanced bracket group in the excerpt |
| InlineHandlers.PlainLabel | SourceParser.php:1404-1409 | a label without brackets is found whole |
| InlineHandlers.InlineDestination | SourceParser.php:1414-1421 | an inline destination is `(href "title")`, with a non-empty href |
| InlineHandlers.TitledEnd | SourceParser.php:1414-1419 | a title is quoted text followed only by spaces and `)` |
| InlineHandlers.DestinationSpaceFree | SourceParser.php:1414 | an href holds no space |
| InlineHandlers.ReferenceLabel | SourceParser.php:1423 | a reference label is bracketed and holds no `]` or line feed |
| InlineHandlers.ReferenceKey | SourceParser.php:1423-1430 | without a label after the text, the text itself is the lower-cased key |
| InlineHandlers.InlineLink | SourceParser.php:1385-1446 | an accepted link is a link element no longer than the excerpt |
| InlineHandlers.InlineLinkRoundTrip | SourceParser.php:1385-1446 | `[text](url)` gives a link to the url with that text |
| InlineHandlers.TitledLinkRoundTrip | SourceParser.php:1385-1446 | `[text](url "title")` also gives the title |
| InlineHandlers.ShortcutReference | SourceParser.php:1423-1439 | `[text]` links to the definition of its lower-cased text, if there is one |
| InlineHandlers.FullReference | SourceParser.php:1423-1439 | `[text][id]` links to the definition of `id`, or of the text when `id` is empty |
| InlineHandlers.LabelAnywhere | SourceParser.php:1404 | the label pattern is not anchored: in `[x [y]` the link is `[y]`, six characters long |
| InlineHandlers.InlineImage | SourceParser.php:1353-1383 | an image is `!` followed by a link, with the link's target as its `src` |
| InlineHandlers.ImageElement | SourceParser.php:1366-1380 | an image is a void `img` with `src` and `alt` from the link |
| InlineHandlers.ImageRoundTrip | SourceParser.php:1353-1383 | `![alt](url)` gives that image |
| InlineHandlers.Symbol | SourceParser.php:1565-1574 | a liturgical symbol is wrapped in a classed `span` exactly when HTML output is on |
| InlineHandlers.InlineToken | SourceParser.php:1577-1591 | a liturgical token is recognised when it occurs anywhere in the excerpt, and consumes three characters |
| InlineHandlers.TokenAnywhere | SourceParser.php:1580 | an occurrence of the token anywhere is enough (`strpos` as written) |
| InlineHandlers.RedText | SourceParser.php:1653-1670 | red text is a classed `span` in HTML mode, and bare text otherwise |
| InlineHandlers.InlineTextRed | SourceParser.php:1652-1680 | red text is `[red]...[/red]`, up to the first closing tag |
| InlineHandlers.TextRedRoundTrip | SourceParser.php:1652-1680 | `[red]c[/red]` gives red text `c` |
| InlineHandlers.TryKind | SourceParser.php:1187 | every handler consumes at least one character and no more than the excerpt; the unmodelled handlers decline |
| InlineScanner.BreakEnd | SourceParser.php:1262 | a break match ends with a line feed |
| InlineScanner.FirstBreak | SourceParser.php:1922 | `preg_match` finds the leftmost break, or there is none |
| InlineScanner.Interleave | SourceParser.php:1927-1936 | texts alternate with `br` and line feed pieces |
| InlineScanner.InlineText | SourceParser.php:1255-1271 | unmarked text is an unnamed group of its break pieces |
| InlineScanner.BreaksAtEveryLine | SourceParser.php:1262 | with breaks enabled, every line feed breaks, and trailing spaces before it go |
| InlineScanner.PlainLineFeeds | SourceParser.php:1262 | with breaks off, text without spaces or backslashes is one text node |
| InlineScanner.HardBreak | SourceParser.php:1262 | with breaks off, a backslash or two spaces before a line feed break the line |
| InlineScanner.Handlers | SourceParser.php:1187 | the dispatch by inline type is `TryKind` with the parser's definitions and settings |
| InlineScanner.FirstAccepting | SourceParser.php:1180-1191 | the first inline type that is not excluded and accepts; all earlier ones are excluded or decline |
| InlineScanner.Inherit | SourceParser.php:1208-1211 | an inline inherits the context's exclusions |
| InlineScanner.Turn | SourceParser.php:1174-1236 | one turn of the loop consumes at least one character and emits at least one piece |
| InlineScanner.TurnSources | SourceParser.php:1214-1236 | a turn's pieces spell exactly the text it consumed |
| InlineScanner.TurnSound | SourceParser.php:1180-1226 | a turn emits only inlines of allowed types that accepted their excerpt |
| InlineScanner.ScanSound | SourceParser.php:1174-1240 | every inline of a line is of an allowed type, accepted at its position |
| InlineScanner.ScanPartition | SourceParser.php:1174-1240 | the pieces of a line spell the line: nothing lost, nothing duplicated |
| InlineScanner.ScanMiss | SourceParser.php:1229-1236 | when no type accepts, the text through the marker stays plain |
| InlineScanner.ScanMatch | SourceParser.php:1180-1226 | the first accepting type wins, after the text before the marker |
| InlineScanner.ScanPlain | SourceParser.php:1239-1240 | a line without markers is one plain piece |
| InlineScanner.NoLinkInLink | SourceParser.php:1183-1185 | inside a link no link is recognised, and every inline passes the exclusion on |
| InlineScanner.Finalise | SourceParser.php:1242-1246 | an element without an autobreak hint gets `false`; others are unchanged |
| InlineScanner.PieceElements | SourceParser.php:1214-1246 | each piece becomes its finalised element, in order |
| InlineScanner.LineElements | SourceParser.php:1150-1249 | every element of a line carries an autobreak hint, and there is at least one |
| InlineScanner.PlainLine | SourceParser.php:1150-1249 | a plain line is one text group |
| Render.Unwrap | SourceParser.php:1905-1907 | a tight item loses the `p` name of its first block when that block is a paragraph; nothing else changes |
| Render.Li | SourceParser.php:1902-1910 | `li` is `linesElements` of the item, unwrapped when tight, with the table it leaves |
| Render.Handle | SourceParser.php:1733-1760 | the line handler is `lineElements` and leaves the table; the lines and item handlers are `linesElements` and `li` |
| Render.Expand | SourceParser.php:1733-1760 | an element with a handler gets the handler's output as children and keeps everything else; others are untouched |
| Render.TextElements | SourceParser.php:187-202 | a document's elements are `linesElements` of its standardised, trimmed lines with an empty table |
| Render.TrimBreaks | SourceParser.php:36 | the markup has no line feed at either end |
| Render.TrimBreaksIsTrim | SourceParser.php:36 | this is `trim($markup, "\n")` |
| Render.RenderText | SourceParser.php:29-39 | the document markup neither starts nor ends with a line feed |
| Render.AttributeMarkupAppend | SourceParser.php:1826-1834 | attributes are written in order, one after another |
| Render.NullAttributeSkipped | SourceParser.php:1828-1830 | a null attribute writes nothing |
| Render.AttributeValue | SourceParser.php:1832 | an attribute is ` key="value"` with the value escaped, quotes included, and recoverable |
| Render.TextElement | SourceParser.php:1839-1868 | text is escaped with quotes allowed, between tags when the element is named |
| Render.VoidElement | SourceParser.php:1869-1871 | a named element without content is self-closing; an unnamed one writes nothing |
| Render.RawElement | SourceParser.php:1844-1865 | raw HTML is written unescaped |
| Render.NonEmptyElements | SourceParser.php:1883-1885 | the elements kept are the non-empty ones |
| Render.EmptiesSkipped | SourceParser.php:1883-1885 | empty elements change neither the markup nor the line feeds |
| Render.NoBreakRun | SourceParser.php:1887-1895 | elements hinted not to break are written with no line feed between them |
| Render.BlockRun | SourceParser.php:1887-1895 | block elements each start on a new line, and a line feed ends the list |
| Render.BlankDocument | SourceParser.php:29-39 | a document of line feeds alone renders as nothing |
| Render.PlainLineMarkup | SourceParser.php:48-50 | `line` on plain text is the escaped text |
| Render.LoneElement | SourceParser.php:1887-1895 | a single inline element is written without line feeds |
| Render.UnnamedChildren | SourceParser.php:1853-1868 | an unnamed element is its children's markup |
| Render.NamedChildren | SourceParser.php:1823-1868 | a named element is its children between its opening and closing tags |
| Render.ExpandFirst | SourceParser.php:1817 | rendering runs the handler first |
| Render.ParagraphMarkup | SourceParser.php:1811-1874 | a paragraph of plain text renders as `<p>` and the escaped text |
| Render.PlainParagraph | SourceParser.php:29-39 | a one-line plain document renders as `<p>text</p>` |
| SourceParser.Parser.constructor | SourceParser.php:56-65 | a parser starts with the given settings and an empty definition table |
| SourceParser.Parser.FeedLine | SourceParser.php:255-334 | one non-blank line updates the elements, the open block and the definition table as `Feed` says |
| SourceParser.Parser.BeginLine | SourceParser.php:272-334 | the loop over a line's starters, with the paragraph fallback, does what `Begin` says |
| SourceParser.Parser.LinesElements | SourceParser.php:222-354 | the loop over lines returns the elements of `BlockParser.LinesElements` and leaves its definition table |
| SourceParser.Parser.PregReplaceElements | SourceParser.php:1919-1939 | the loop over break matches builds the break pieces of the text |
| SourceParser.Parser.InlineText | SourceParser.php:1255-1271 | `inlineText` is the unnamed group of break pieces |
| SourceParser.Parser.Finalised | SourceParser.php:1242-1246 | the by-reference loop gives every element an autobreak hint |
| SourceParser.Parser.Recognise | SourceParser.php:1180-1191 | the loop over a marker's inline types finds `FirstAccepting` |
| SourceParser.Parser.ScanExcerpt | SourceParser.php:1174-1236 | one turn of the scan loop emits the elements of `Turn` and consumes what it consumes |
| SourceParser.Parser.EmitInline | SourceParser.php:1208-1226 | a recognised inline emits the text before it and the inline, and consumes both |
| SourceParser.Parser.EmitMarker | SourceParser.php:1231-1236 | a marker no type accepts is emitted as plain text and consumed |
| SourceParser.Parser.ScanLine | SourceParser.php:1174-1240 | the scan loop emits the elements of `Scan`, in order |
| SourceParser.Parser.LineElements | SourceParser.php:1150-1249 | `lineElements` returns exactly `InlineScanner.LineElements` with the parser's definitions |
| SourceParser.Parser.Li | SourceParser.php:1902-1910 | `li` returns `Render.Li` and leaves its definition table |
| SourceParser.Parser.Handle | SourceParser.php:1733-1760 | `handle` returns `Expand` with the parser's handlers and leaves its definition table |
| SourceParser.Parser.Open | SourceParser.php:1824-1834 | the opening tag is `<`, the name and the attribute markup |
| SourceParser.Parser.Element | SourceParser.php:1811-1874 | `element` writes `RenderElement`'s markup and leaves its definition table |
| SourceParser.Parser.Elements | SourceParser.php:1877-1898 | `elements` writes `Render.Elements`' markup and leaves its definition table |
| SourceParser.Parser.TextElements | SourceParser.php:187-202 | `textElements` clears the table and returns `Render.TextElements` |
| SourceParser.Parser.Text | SourceParser.php:29-39 | `text` returns `RenderText` |
| SourceParser.Parser.Line | SourceParser.php:48-50 | `line` returns `RenderLine` with the parser's definitions |
| SourceParser.BreakStep | SourceParser.php:1922-1933 | one break match moves the text before it, `br` and a line feed to the output |
| SourceParser.PiecesFinalised | SourceParser.php:1242-1246 | finalising the scanned pieces' elements gives `PieceElements` |
| SourceParser.AttributeStep | SourceParser.php:1827-1832 | one more attribute appends its own markup |
| SourceParser.FirstAcceptingAt | SourceParser.php:1180-1191 | a type that accepts after all earlier types declined is the one found |
| SourceParser.FirstAcceptingNone | SourceParser.php:1180-1191 | when every type declines, none is found |

## Left out

- Emphasis (`inlineEmphasis`, 1315-1342), `inlineEmailTag` (1290-1313) and `inlineUrl` (1506-1528): these handlers are modelled as declining. Emphasis needs the regular-expression engine's backtracking. `inlineUrl` is off because `urlsLinked` is never set. `InlineHandlers.TryKind` states that they decline.
- `inlineOverUnderLine` (1682-1723): modelled as declining. Its `‾` key in the liturgical inline types cannot be reached, because `‾` is not in the marker list.
- `inlineMarkup`, `blockComment` and `blockMarkup` with their continuations (440-480, 865-903, 1448-1473): `markupEscaped` is fixed at its default, true, so they never produce anything. The setters (139-173) are not modelled. Settings are fixed when the parser is made.
- `supressAlleluia`, `footnotesEnabled`, `intercessionResponse` and `LiturgicalBlockTypes` (60-62, 122-129): declared but used by no parsing code.
- `safeMode`, `sanitiseElement` and `filterUnsafeUrlInAttribute` (1812-1814, 1946-1988): `safeMode` is never set.
- `var_dump` calls (274, 288, 348): debugging output, which is I/O.
- `instance()` (2012-2022): a process-wide registry of named parsers. It is global mutable state, and a parser is made with `SourceParser.Parser.constructor` instead.
- `lines()` (211-213) is `elements(linesElements(...))`. It is covered by `SourceParser.Parser.LinesElements` and `SourceParser.Parser.Elements`, and has no method of its own.
- The `elementApplyRecursive*` family (1762-1809): no caller in the modelled core.
- `handle` with a string handler (1739-1743): no block or inline of this parser builds one. A handler whose destination is `handler` is not modelled either. `Render.Handle` covers the three function handlers.
- The `position` field of an inline (1195-1203) is set only by `inlineUrl`, which declines, so every inline starts at its marker.
- `pregReplaceElements` is modelled for the one pattern family and replacement `inlineText` uses: a `br` and a line feed.
- `mb_strlen`/`mb_substr` (238, 1175): strings are sequences of characters, so the byte and character counts agree.
- `htmlspecialchars` is modelled for the five characters it replaces. Invalid UTF-8 handling is not modelled.
- Render.RenderElement: rendering carries a depth bound (`fuel`), because the mutual recursion of `element`, `elements`, `handle` and the line and lines handlers has no structural measure. At depth zero the markup is empty, so the model says nothing about documents nested deeper than the bound.
- SourceParser.Parser.Element: carries the same depth bound as `Render.RenderElement`.
- SourceParser.Parser.Elements: carries the same depth bound as `Render.RenderElement`.
- SourceParser.Parser.Text: carries the same depth bound as `Render.RenderElement`.
- SourceParser.Parser.Line: carries the same depth bound as `Render.RenderElement`.
- The dispatch `$this->{"inline$inlineType"}` is modelled as a function value passed to `SourceParser.Parser.ScanLine`. `InlineScanner.Handlers` proves that value equal to `InlineHandlers.TryKind`.
- Two properties are stated only for their shapes: `CodeProperties.FencedRoundTrip` (one fenced block) and `Render.PlainParagraph` (one plain paragraph). Round trips for whole documents with several blocks are not stated.
