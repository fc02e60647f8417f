/**
 * `MarkdownToWordConverter`: the Markdown text is split into lines and
 * each line becomes one block of the Word document (`_build_document`),
 * decided in a fixed order: code fences, blank lines, rules, headings,
 * bullets, numbered items, tables, quotes, and plain paragraphs with
 * inline formatting.  The Word document is the sequence of blocks;
 * fonts, sizes, colours and spacing are left to the styling code.
 */
module MarkdownToWord {
  import opened Text
  import opened Wrappers
  import Inline
  import Config
  import Frontmatter
  import Envelope
  import FileSafety

  /** One block added to the Word document.  A table is its grid of cell
      texts, the first row being the bold header.  A paragraph keeps the
      line it was made from; its runs are `Inline.InlineRuns` of that line
      (`ParagraphRuns`). */
  datatype Block =
    | EmptyParagraph
    | Rule
    | HeaderBox(text: string)
    | Heading(level: nat, text: string)
    | Bullet(text: string)
    | Numbered(text: string)
    | Table(grid: seq<seq<string>>)
    | Quote(text: string)
    | CodeBlock(text: string)
    | Paragraph(text: string)

  // ---------------------------------------------------------------------
  // Line tests

  /** A line opening or closing a code block. */
  predicate IsFence(line: string) {
    StartsWith(line, "```")
  }

  predicate AllChar(s: string, c: char) {
    forall i :: 0 <= i < |s| ==> s[i] == c
  }

  /** `_is_horizontal_rule`: "---", "***" or "___", or ten or more of one
      of '-', '=' and the box-drawing '─', once stripped. */
  predicate IsHorizontalRule(line: string) {
    var t := Strip(line);
    && t != []
    && (|| t == "---" || t == "***" || t == "___"
        || (|t| >= 10 && (AllChar(t, '-') || AllChar(t, '=') || AllChar(t, '\U{2500}'))))
  }

  /** Every non-space character is one of '=', '-' and '_'. */
  predicate OnlyDividerChars(t: string) {
    forall i :: 0 <= i < |t| && !IsSpace(t[i]) ==> t[i] == '=' || t[i] == '-' || t[i] == '_'
  }

  predicate IsEqualsDivider(line: string) {
    var t := Strip(line);
    |t| >= 20 && AllChar(t, '=')
  }

  /** `_is_header_box_divider`: a line of twenty or more '=', then a text
      line that is not itself a divider, then another such line. */
  predicate IsHeaderBoxDivider(line: string, lines: seq<string>, lineNum: nat) {
    && IsEqualsDivider(line)
    && lineNum + 2 < |lines|
    && Strip(lines[lineNum + 1]) != []
    && !OnlyDividerChars(Strip(lines[lineNum + 1]))
    && IsEqualsDivider(lines[lineNum + 2])
  }

  /** `s[1:]`, which is empty for the empty string. */
  function Tail(s: string): (r: string)
    ensures |r| == if s == [] then 0 else |s| - 1
  {
    if s == [] then [] else s[1..]
  }

  /** `s[n:]` with Python's clamping. */
  function From(s: string, n: nat): string {
    if n <= |s| then s[n..] else []
  }

  /** The stripped line starts with a list marker. */
  predicate BulletMarker(t: string) {
    StartsWith(t, "-") || StartsWith(t, "*") || StartsWith(t, "+")
  }

  /** The length of the match of `^\s*\d+\.` on the line, if it matches. */
  function NumberPrefix(line: string): (r: Option<nat>)
    ensures r.Some? ==> 2 <= r.value <= |line| && line[r.value - 1] == '.'
  {
    var rest := LStrip(line);
    var ws := |line| - |rest|;
    var d := |DigitPrefix(rest)|;
    if 1 <= d < |rest| && rest[d] == '.' then
      assert line[ws + d] == rest[d];
      Some(ws + d + 1)
    else None
  }

  /** A match is the leading whitespace, then one or more digits, then the
      '.' (`NumberPrefix` ensures the last). */
  lemma NumberPrefixSome(line: string)
    requires NumberPrefix(line).Some?
    ensures var n := NumberPrefix(line).value;
            var ws := |line| - |LStrip(line)|;
            && ws + 2 <= n
            && AllSpace(line[..ws])
            && forall i :: ws <= i < n - 1 ==> IsDigit(line[i])
  {
    LeadingDigits(line);
  }

  /** The digit run after the leading whitespace, read in the line itself. */
  lemma LeadingDigits(line: string)
    ensures var ws := |line| - |LStrip(line)|;
            forall i :: ws <= i < ws + |DigitPrefix(LStrip(line))| ==> IsDigit(line[i])
  {
    var rest := LStrip(line);
    var ws := |line| - |rest|;
    var d := DigitPrefix(rest);
    forall i | ws <= i < ws + |d|
      ensures IsDigit(line[i])
    {
      assert line[i] == rest[i - ws] == d[i - ws];
    }
  }

  /** No match means no whitespace-then-digits prefix `line[..b]` of the
      line is followed by '.'. */
  lemma NumberPrefixNone(line: string, a: nat, b: nat)
    requires NumberPrefix(line).None?
    requires a < b < |line|
    requires forall i :: 0 <= i < a ==> IsSpace(line[i])
    requires forall i :: a <= i < b ==> IsDigit(line[i])
    ensures line[b] != '.'
  {
    var rest := LStrip(line);
    assert forall i :: 0 <= i < a ==> line[..a][i] == line[i];
    LStripPastSpaces(line, a);
    LStripStopsAt(line, a);
    assert rest == line[a..];
    assert forall i :: 0 <= i < b - a ==> IsDigit(line[a + i]) && rest[i] == line[a + i];
    DigitPrefixLongest(rest, b - a);
    NoDotInLeadingDigits(line, b);
  }

  /** Without a match, neither the leading digit run nor the character
      after it is a '.'. */
  lemma NoDotInLeadingDigits(line: string, b: nat)
    requires NumberPrefix(line).None?
    requires |line| - |LStrip(line)| < b < |line|
    requires b <= |line| - |LStrip(line)| + |DigitPrefix(LStrip(line))|
    ensures line[b] != '.'
  {
    var rest := LStrip(line);
    var ws := |line| - |rest|;
    var d := DigitPrefix(rest);
    assert rest == line[ws..];
    assert line[b] == rest[b - ws];
    if b < ws + |d| {
      assert rest[b - ws] == d[b - ws];
    }
  }

  /** A line that starts or continues a table: it holds '|' and starts
      with '|' once stripped (`StrippedStartsWithIff`). */
  predicate IsTableLine(line: string) {
    '|' in line && StrippedStartsWith(line, '|')
  }

  /** The number of leading '#', the heading level. */
  function HeadingLevelOf(line: string): nat {
    |line| - |LStripChar(line, '#')|
  }

  // ---------------------------------------------------------------------
  // Tables

  /** `[cell.strip() for cell in line.split('|')[1:-1]]`. */
  function RowCells(line: string): (r: seq<string>)
    ensures |r| == if |Split(line, '|')| <= 2 then 0 else |Split(line, '|')| - 2
  {
    var parts := Split(line, '|');
    if |parts| <= 2 then [] else StripAll(parts[1..|parts| - 1])
  }

  /** Cell k of a row is part k + 1 of the line, stripped: the parts before
      the first bar and after the last are dropped. */
  lemma RowCellsStripped(line: string, k: nat)
    requires k < |RowCells(line)|
    ensures RowCells(line)[k] == Strip(Split(line, '|')[k + 1])
  {
    var parts := Split(line, '|');
    var inner := parts[1..|parts| - 1];
    assert inner[k] == parts[k + 1];
    assert StripAll(inner)[k] == Strip(inner[k]);
  }

  function StripAll(parts: seq<string>): (r: seq<string>)
    ensures |r| == |parts|
    ensures forall k :: 0 <= k < |parts| ==> r[k] == Strip(parts[k])
  {
    if parts == [] then [] else StripAll(parts[..|parts| - 1]) + [Strip(parts[|parts| - 1])]
  }

  /** The row a table line contributes: none for a separator line (one
      containing "---") or a line with no cells. */
  function RowOf(line: string): seq<seq<string>> {
    if Contains(line, "---") then []
    else
      var cells := RowCells(line);
      if cells == [] then [] else [cells]
  }

  /** The rows `_add_markdown_table` parses from the table lines, in order. */
  function ParseRows(tableLines: seq<string>): seq<seq<string>> {
    if tableLines == [] then []
    else ParseRows(tableLines[..|tableLines| - 1]) + RowOf(tableLines[|tableLines| - 1])
  }

  /** The cell at row `r`, column `c` of the Word table: the parsed cell, or
      empty when the row is shorter than the header row. */
  function CellText(rows: seq<seq<string>>, r: nat, c: nat): string
    requires r < |rows|
  {
    if c < |rows[r]| then rows[r][c] else ""
  }

  /** A parsed row cut or padded with empty cells to `cols` cells. */
  function PadRow(row: seq<string>, cols: nat): seq<string> {
    if cols == 0 then [] else PadRow(row, cols - 1) + [if cols - 1 < |row| then row[cols - 1] else ""]
  }

  function PadRows(rows: seq<seq<string>>, cols: nat): seq<seq<string>> {
    if rows == [] then [] else [PadRow(rows[0], cols)] + PadRows(rows[1..], cols)
  }

  /** The table `doc.add_table(len(rows), len(rows[0]))` holds once filled. */
  function Grid(rows: seq<seq<string>>): seq<seq<string>>
    requires rows != []
  {
    PadRows(rows, |rows[0]|)
  }

  lemma {:induction false} PadRowCells(row: seq<string>, cols: nat)
    ensures |PadRow(row, cols)| == cols
    ensures forall c :: 0 <= c < cols ==> PadRow(row, cols)[c] == if c < |row| then row[c] else ""
  {
    if cols > 0 {
      PadRowCells(row, cols - 1);
    }
  }

  lemma {:induction false} PadRowsRows(rows: seq<seq<string>>, cols: nat)
    ensures |PadRows(rows, cols)| == |rows|
    ensures forall r :: 0 <= r < |rows| ==> PadRows(rows, cols)[r] == PadRow(rows[r], cols)
  {
    if rows != [] {
      PadRowsRows(rows[1..], cols);
    }
  }

  /** The table has as many rows as were parsed and as many columns as the
      header row; each cell holds the parsed cell of its row, or is empty
      where that row is shorter.  Cells beyond the header's width are
      dropped. */
  lemma GridCells(rows: seq<seq<string>>)
    requires rows != []
    ensures |Grid(rows)| == |rows|
    ensures forall r :: 0 <= r < |rows| ==> |Grid(rows)[r]| == |rows[0]|
    ensures forall r, c :: 0 <= r < |rows| && 0 <= c < |rows[0]| ==> Grid(rows)[r][c] == CellText(rows, r, c)
  {
    var cols := |rows[0]|;
    PadRowsRows(rows, cols);
    forall r | 0 <= r < |rows|
      ensures |Grid(rows)[r]| == cols
      ensures forall c :: 0 <= c < cols ==> Grid(rows)[r][c] == CellText(rows, r, c)
    {
      PadRowCells(rows[r], cols);
    }
  }

  /** The lines `_build_document` collects after a table's first line:
      every following raw line while it is a table line. */
  function TableRun(lines: seq<string>, j: nat): (r: seq<string>)
    decreases |lines| - j
    ensures j + |r| <= |lines| || r == []
  {
    if j < |lines| && IsTableLine(lines[j]) then [lines[j]] + TableRun(lines, j + 1) else []
  }

  /** The blocks a collected table adds: a table when there are at least
      two lines and at least one row. */
  function TableBlocks(tableLines: seq<string>): seq<Block> {
    if |tableLines| < 2 then []
    else
      var rows := ParseRows(tableLines);
      if rows == [] then [] else [Table(Grid(rows))]
  }

  // ---------------------------------------------------------------------
  // Lines

  /** How a line outside a code block is treated.  `KindOfLine` decides it
      in the source's order; the header box test there, which comes between
      the rule and the heading, never succeeds (`HeaderBoxIsRule`), so it
      has no kind of its own. */
  datatype LineKind =
    | BlankLine
    | RuleLine
    | HeadingLine
    | BulletLine
    | NumberLine(prefix: nat)
    | TableStart
    | QuoteLine
    | PlainLine

  function KindOfLine(line: string): LineKind {
    if Strip(line) == [] then BlankLine
    else if IsHorizontalRule(line) then RuleLine
    else if StartsWith(line, "#") then HeadingLine
    else if BulletMarker(Strip(line)) then BulletLine
    else BodyKind(line)
  }

  /** The tests after the bullet test: numbered items, tables, quotes. */
  function BodyKind(line: string): LineKind {
    if NumberPrefix(line).Some? then NumberLine(NumberPrefix(line).value)
    else if IsTableLine(line) then TableStart
    else if StartsWith(Strip(line), ">") then QuoteLine
    else PlainLine
  }

  /** The blocks a line of the given kind adds; `line` is `lines[i]`
      without its trailing whitespace. */
  function BlocksFor(k: LineKind, lines: seq<string>, i: nat, line: string): seq<Block> {
    match k
    case BlankLine => [EmptyParagraph]
    case RuleLine => [Rule]
    case HeadingLine => [Heading(HeadingLevelOf(line), Strip(LStripChar(line, '#')))]
    case BulletLine => [Bullet(Strip(Tail(Strip(line))))]
    case NumberLine(n) => [Numbered(LStrip(From(line, n)))]
    case TableStart => TableBlocks([line] + TableRun(lines, i + 1))
    case QuoteLine => [Quote(Strip(Tail(Strip(line))))]
    case PlainLine => [Paragraph(line)]
  }

  function LineBlocks(lines: seq<string>, i: nat): seq<Block>
    requires i < |lines|
  {
    var line := RStrip(lines[i]);
    BlocksFor(KindOfLine(line), lines, i, line)
  }

  /** `_build_document` from line `i` on, inside a code block or not, with
      the code lines collected so far.  A code block is added when its
      closing fence is read; one never closed adds nothing. */
  function Build(lines: seq<string>, i: nat, inCode: bool, code: seq<string>): seq<Block>
    requires i <= |lines|
    decreases |lines| - i
  {
    if i == |lines| then []
    else
      var line := RStrip(lines[i]);
      if IsFence(line) then
        if inCode then [CodeBlock(Join("\n", code))] + Build(lines, i + 1, false, [])
        else Build(lines, i + 1, true, code)
      else if inCode then Build(lines, i + 1, true, code + [line])
      else LineBlocks(lines, i) + Build(lines, i + 1, false, [])
  }

  /** The blocks of a whole Markdown text. */
  function DocumentBlocks(content: string): seq<Block> {
    Build(Split(content, '\n'), 0, false, [])
  }

  // ---------------------------------------------------------------------
  // The builder

  /** The table lines: the first line, then the following raw lines while
      they are table lines. */
  method CollectTableLines(lines: seq<string>, lineNum: nat, line: string) returns (tableLines: seq<string>)
    requires lineNum < |lines|
    ensures tableLines == [line] + TableRun(lines, lineNum + 1)
  {
    tableLines := [line];
    var nextLineNum := lineNum + 1;
    while nextLineNum < |lines| && IsTableLine(lines[nextLineNum])
      invariant lineNum + 1 <= nextLineNum <= |lines|
      invariant tableLines + TableRun(lines, nextLineNum) == [line] + TableRun(lines, lineNum + 1)
      decreases |lines| - nextLineNum
    {
      TableRunStep(lines, nextLineNum);
      tableLines := tableLines + [lines[nextLineNum]];
      nextLineNum := nextLineNum + 1;
    }
  }

  lemma TableRunStep(lines: seq<string>, j: nat)
    requires j < |lines| && IsTableLine(lines[j])
    ensures TableRun(lines, j) == [lines[j]] + TableRun(lines, j + 1)
  {
  }

  /** The rows of `_add_markdown_table`: separator lines and lines without
      cells are skipped. */
  method ParseTableRows(tableLines: seq<string>) returns (rows: seq<seq<string>>)
    ensures rows == ParseRows(tableLines)
  {
    rows := [];
    for k := 0 to |tableLines|
      invariant rows == ParseRows(tableLines[..k])
    {
      assert tableLines[..k + 1][..k] == tableLines[..k];
      ParseRowsLast(tableLines[..k + 1]);
      var line := tableLines[k];
      assert tableLines[..k + 1][k] == line;
      if !Contains(line, "---") {
        var cells := RowCells(line);
        if cells != [] {
          rows := rows + [cells];
        }
      }
    }
    assert tableLines[..|tableLines|] == tableLines;
  }

  /** The table as `_add_markdown_table` fills it: each parsed cell whose
      column exists in the header row, and empty cells elsewhere. */
  method PopulateTable(rows: seq<seq<string>>) returns (grid: seq<seq<string>>)
    requires rows != []
    ensures grid == Grid(rows)
  {
    var cols := |rows[0]|;
    grid := seq(|rows|, _ => seq(cols, _ => ""));
    for rowIdx := 0 to |rows|
      invariant |grid| == |rows|
      invariant forall r :: 0 <= r < |rows| ==> |grid[r]| == cols
      invariant forall r, c :: 0 <= r < |rows| && 0 <= c < cols ==>
                  grid[r][c] == if r < rowIdx then CellText(rows, r, c) else ""
    {
      var rowData := rows[rowIdx];
      for colIdx := 0 to |rowData|
        invariant |grid| == |rows|
        invariant forall r :: 0 <= r < |rows| ==> |grid[r]| == cols
        invariant forall r, c :: 0 <= r < |rows| && r != rowIdx && 0 <= c < cols ==>
                    grid[r][c] == if r < rowIdx then CellText(rows, r, c) else ""
        invariant forall c :: 0 <= c < cols ==>
                    grid[rowIdx][c] == if c < colIdx then CellText(rows, rowIdx, c) else ""
      {
        if colIdx < cols {
          grid := grid[rowIdx := grid[rowIdx][colIdx := rowData[colIdx]]];
        }
      }
      assert forall c :: 0 <= c < cols ==> grid[rowIdx][c] == CellText(rows, rowIdx, c);
    }
    var g := Grid(rows);
    GridCells(rows);
    forall r | 0 <= r < |rows| ensures grid[r] == g[r] {
      assert |grid[r]| == |g[r]|;
    }
  }

  /** `_add_markdown_table`: no block when no row was parsed. */
  method AddMarkdownTable(tableLines: seq<string>) returns (blocks: seq<Block>)
    requires |tableLines| >= 2
    ensures blocks == TableBlocks(tableLines)
  {
    var rows := ParseTableRows(tableLines);
    if rows == [] {
      return [];
    }
    var grid := PopulateTable(rows);
    blocks := [Table(grid)];
  }

  /** A line of twenty or more '=' is already a horizontal rule, so the
      header box test after the rule test never succeeds. */
  lemma HeaderBoxIsRule(line: string, lines: seq<string>, lineNum: nat)
    ensures IsHeaderBoxDivider(line, lines, lineNum) ==> IsHorizontalRule(line)
  {
  }

  /** One line outside a code block: the tests of `_build_document` after
      the code block handling, in order. */
  method ProcessLine(lines: seq<string>, lineNum: nat) returns (out: seq<Block>)
    requires lineNum < |lines|
    ensures out == LineBlocks(lines, lineNum)
  {
    var line := RStrip(lines[lineNum]);
    HeaderBoxIsRule(line, lines, lineNum);
    var stripped := Strip(line);
    if stripped == [] {
      assert KindOfLine(line) == BlankLine;
      out := [EmptyParagraph];
    } else if IsHorizontalRule(line) {
      assert KindOfLine(line) == RuleLine;
      out := [Rule];
    } else if IsHeaderBoxDivider(line, lines, lineNum) {
      assert false;
    } else {
      out := ProcessMarkedLine(lines, lineNum);
    }
  }

  /** The heading and bullet tests, then the rest. */
  method ProcessMarkedLine(lines: seq<string>, lineNum: nat) returns (out: seq<Block>)
    requires lineNum < |lines|
    requires var line := RStrip(lines[lineNum]); Strip(line) != [] && !IsHorizontalRule(line)
    ensures out == LineBlocks(lines, lineNum)
  {
    var line := RStrip(lines[lineNum]);
    var stripped := Strip(line);
    if StartsWith(line, "#") {
      assert KindOfLine(line) == HeadingLine;
      var level := |line| - |LStripChar(line, '#')|;
      var headingText := Strip(LStripChar(line, '#'));
      out := [Heading(level, headingText)];
    } else if StartsWith(stripped, "-") || StartsWith(stripped, "*") || StartsWith(stripped, "+") {
      assert KindOfLine(line) == BulletLine;
      out := [Bullet(Strip(Tail(stripped)))];
    } else {
      out := ProcessBodyLine(lines, lineNum);
    }
  }

  /** The tests of `_build_document` after the bullet test: numbered
      items, tables, quotes, and plain paragraphs. */
  method ProcessBodyLine(lines: seq<string>, lineNum: nat) returns (out: seq<Block>)
    requires lineNum < |lines|
    requires var line := RStrip(lines[lineNum]);
             && Strip(line) != [] && !IsHorizontalRule(line) && !StartsWith(line, "#") && !BulletMarker(Strip(line))
    ensures out == LineBlocks(lines, lineNum)
  {
    var line := RStrip(lines[lineNum]);
    var stripped := Strip(line);
    if NumberPrefix(line).Some? {
      var n := NumberPrefix(line).value;
      assert KindOfLine(line) == NumberLine(n);
      NumberedBlock(lines, lineNum, line, n);
      out := [Numbered(LStrip(line[n..]))];
    } else if IsTableLine(line) {
      assert KindOfLine(line) == TableStart;
      var tableLines := CollectTableLines(lines, lineNum, line);
      if |tableLines| >= 2 {
        out := AddMarkdownTable(tableLines);
      } else {
        out := [];
      }
      assert out == BlocksFor(KindOfLine(line), lines, lineNum, line);
    } else if StartsWith(stripped, ">") {
      assert KindOfLine(line) == QuoteLine;
      out := [Quote(Strip(Tail(stripped)))];
      assert out == BlocksFor(KindOfLine(line), lines, lineNum, line);
    } else {
      assert KindOfLine(line) == PlainLine;
      out := [Paragraph(line)];
      assert out == BlocksFor(KindOfLine(line), lines, lineNum, line);
    }
  }

  lemma NumberedBlock(lines: seq<string>, i: nat, line: string, n: nat)
    requires n <= |line|
    ensures BlocksFor(NumberLine(n), lines, i, line) == [Numbered(LStrip(line[n..]))]
  {
  }

  /** `_build_document` over the lines of the Markdown text. */
  method BuildDocument(content: string) returns (blocks: seq<Block>)
    ensures blocks == DocumentBlocks(content)
  {
    var lines := Split(content, '\n');
    blocks := [];
    var inCodeBlock := false;
    var codeBlockContent: seq<string> := [];
    for lineNum := 0 to |lines|
      invariant !inCodeBlock ==> codeBlockContent == []
      invariant blocks + Build(lines, lineNum, inCodeBlock, codeBlockContent) == Build(lines, 0, false, [])
    {
      var line := RStrip(lines[lineNum]);
      if StartsWith(line, "```") {
        if inCodeBlock {
          var block := CodeBlock(Join("\n", codeBlockContent));
          BuildCloseFence(lines, lineNum, codeBlockContent);
          Shift(blocks, [block], Build(lines, lineNum + 1, false, []));
          blocks := blocks + [block];
          codeBlockContent := [];
          inCodeBlock := false;
        } else {
          BuildOpenFence(lines, lineNum, codeBlockContent);
          inCodeBlock := true;
        }
      } else if inCodeBlock {
        BuildCodeLine(lines, lineNum, codeBlockContent);
        codeBlockContent := codeBlockContent + [line];
      } else {
        var out := ProcessLine(lines, lineNum);
        BuildLine(lines, lineNum);
        Shift(blocks, out, Build(lines, lineNum + 1, false, []));
        blocks := blocks + out;
      }
    }
    assert Build(lines, |lines|, inCodeBlock, codeBlockContent) == [];
    assert blocks + [] == blocks;
  }

  lemma BuildCloseFence(lines: seq<string>, i: nat, code: seq<string>)
    requires i < |lines| && IsFence(RStrip(lines[i]))
    ensures Build(lines, i, true, code) == [CodeBlock(Join("\n", code))] + Build(lines, i + 1, false, [])
  {
  }

  lemma BuildOpenFence(lines: seq<string>, i: nat, code: seq<string>)
    requires i < |lines| && IsFence(RStrip(lines[i]))
    ensures Build(lines, i, false, code) == Build(lines, i + 1, true, code)
  {
  }

  lemma BuildCodeLine(lines: seq<string>, i: nat, code: seq<string>)
    requires i < |lines| && !IsFence(RStrip(lines[i]))
    ensures Build(lines, i, true, code) == Build(lines, i + 1, true, code + [RStrip(lines[i])])
  {
  }

  lemma BuildLine(lines: seq<string>, i: nat)
    requires i < |lines| && !IsFence(RStrip(lines[i]))
    ensures Build(lines, i, false, []) == LineBlocks(lines, i) + Build(lines, i + 1, false, [])
  {
  }

  lemma Shift(a: seq<Block>, b: seq<Block>, c: seq<Block>)
    ensures a + (b + c) == (a + b) + c
  {
  }

  /** `_extract_header_box_text`: the stripped text line, after blanking the
      text line and the closing divider in place; None when the lines run
      out first. */
  method ExtractHeaderBoxText(lines: array<string>, lineNum: nat) returns (r: Option<string>)
    modifies lines
    ensures lineNum + 2 < lines.Length ==>
              r == Some(Strip(old(lines[lineNum + 1])))
              && lines[..] == old(lines[..])[lineNum + 1 := ""][lineNum + 2 := ""]
    ensures lineNum + 2 >= lines.Length ==> r.None? && lines[..] == old(lines[..])
  {
    if lineNum + 2 < lines.Length {
      var headerText := Strip(lines[lineNum + 1]);
      lines[lineNum + 1] := "";
      lines[lineNum + 2] := "";
      return Some(headerText);
    }
    return None;
  }

  /** The runs of a paragraph block, as `_apply_inline_formatting` adds
      them. */
  function ParagraphRuns(b: Block): seq<Inline.InlineRun>
    requires b.Paragraph?
  {
    Inline.InlineRuns(b.text)
  }

  // ---------------------------------------------------------------------
  // Styling: which settings make the styling of the document raise

  /** `Pt(v)` and `Inches(v)` compute `int(v * n)` (n = 12700 or 914400):
      a number or a bool gives a length; `int` of an infinite or NaN float
      raises; None and mappings cannot be multiplied.  A string is
      repeated n times first, and `int` of the repetition raises: it is
      either no integer literal at all or, at 12700 digits or more, past
      the 4300-digit limit of `int(str)` in Python 3.11 and later. */
  predicate LengthAccepts(v: Config.Value) {
    match v
    case Int(_) => true
    case Bool(_) => true
    case Float(literal) => forall i :: 0 <= i < |literal| ==> literal[i] != 'n' && literal[i] != 'N'
    case Str(_) => false
    case _ => false
  }

  /** `setting.get(level, default)`: a mapping gives its entry or the
      default (string keys never equal a level); anything else has no
      `get`, which raises. */
  function LevelEntry(v: Config.Value, level: int, default: int): (r: Option<Config.Value>)
    ensures r.Some? <==> v.IntKeyed? || v.StrKeyed?
    ensures v.IntKeyed? && level in v.entries ==> r == Some(v.entries[level])
    ensures (v.IntKeyed? && level !in v.entries) || v.StrKeyed? ==> r == Some(Config.Int(default))
  {
    match v
    case IntKeyed(m) => Some(if level in m then m[level] else Config.Int(default))
    case StrKeyed(_) => Some(Config.Int(default))
    case _ => None
  }

  /** `Pt(setting.get(level, default))` raises nothing. */
  predicate LevelLengthAccepts(v: Config.Value, level: int, default: int) {
    var e := LevelEntry(v, level, default);
    e.Some? && LengthAccepts(e.value)
  }

  /** The colour step of a heading: `level in heading_colors` needs a
      container and rejects a string, and the entry needs `.replace`, so
      it must be a string; the decode catches its own ValueError. */
  predicate ColourUsable(v: Config.Value, level: int) {
    match v
    case IntKeyed(m) => level in m ==> m[level].Str?
    case StrKeyed(_) => true
    case _ => false
  }

  /** `_configure_heading_style` and `_apply_custom_heading_format` for one
      level: its size, colour and spacings. */
  predicate HeadingFormatUsable(values: map<string, Config.Value>, level: int) {
    && LevelLengthAccepts(Config.Setting(values, "heading_sizes"), level, 12)
    && ColourUsable(Config.Setting(values, "heading_colors"), level)
    && LevelLengthAccepts(Config.Setting(values, "heading_spacing_before"), level, 6)
    && LevelLengthAccepts(Config.Setting(values, "heading_spacing_after"), level, 3)
  }

  /** `_setup_default_styles` raises nothing: the Normal style's lengths
      and the heading styles of levels 1 to 6. */
  predicate DefaultStylesUsable(values: map<string, Config.Value>) {
    && LengthAccepts(Config.Setting(values, "font_size"))
    && LengthAccepts(Config.Setting(values, "paragraph_spacing_after"))
    && LengthAccepts(Config.Setting(values, "paragraph_first_line_indent"))
    && forall level :: 1 <= level <= 6 ==> HeadingFormatUsable(values, level)
  }

  predicate HasCodeRun(runs: seq<Inline.InlineRun>) {
    exists i :: 0 <= i < |runs| && runs[i].code
  }

  /** Adding one block raises nothing.  `add_heading` takes levels 0 to 9
      only; a custom heading reads the heading settings of its level; code
      blocks and inline code runs are sized by `code_size`. */
  predicate BlockUsable(values: map<string, Config.Value>, b: Block) {
    match b
    case Heading(level, _) =>
      if Config.Truthy(Config.Setting(values, "use_builtin_styles")) then level <= 9
      else HeadingFormatUsable(values, level)
    case CodeBlock(_) => LengthAccepts(Config.Setting(values, "code_size"))
    case Paragraph(_) => HasCodeRun(ParagraphRuns(b)) ==> LengthAccepts(Config.Setting(values, "code_size"))
    case _ => true
  }

  /** The styling and building steps of `convert_md_to_docx` raise
      nothing: the default styles, set up only when no template is used,
      and every block. */
  predicate BuildSucceeds(values: map<string, Config.Value>, template: bool, blocks: seq<Block>) {
    && (!template ==> DefaultStylesUsable(values))
    && forall i :: 0 <= i < |blocks| ==> BlockUsable(values, blocks[i])
  }

  /** The default settings style every heading level from 1 to 6. */
  lemma DefaultStylesOfDefaults()
    ensures DefaultStylesUsable(Config.Defaults)
  {
    DefaultSizes();
    DefaultColours();
    DefaultSpacingBefore();
    DefaultSpacingAfter();
    DefaultLengthSettings();
    forall level | 1 <= level <= 6 ensures HeadingFormatUsable(Config.Defaults, level) {
      DefaultHeadingFormat(Config.Defaults, level);
    }
  }

  /** The default heading settings style each of the levels 1 to 6. */
  lemma DefaultHeadingFormat(values: map<string, Config.Value>, level: int)
    requires 1 <= level <= 6
    requires Config.Setting(values, "heading_sizes") == Config.IntKeyed(Config.DefaultHeadingSizes)
    requires Config.Setting(values, "heading_colors") == Config.IntKeyed(Config.DefaultHeadingColors)
    requires Config.Setting(values, "heading_spacing_before") == Config.IntKeyed(Config.DefaultSpacingBefore)
    requires Config.Setting(values, "heading_spacing_after") == Config.IntKeyed(Config.DefaultSpacingAfter)
    ensures HeadingFormatUsable(values, level)
  {
    assert level in Config.DefaultHeadingColors;
    assert level in Config.DefaultHeadingSizes;
    assert level in Config.DefaultSpacingBefore;
    assert level in Config.DefaultSpacingAfter;
  }

  lemma DefaultSizes()
    ensures Config.Setting(Config.Defaults, "heading_sizes") == Config.IntKeyed(Config.DefaultHeadingSizes)
  {
  }

  lemma DefaultColours()
    ensures Config.Setting(Config.Defaults, "heading_colors") == Config.IntKeyed(Config.DefaultHeadingColors)
  {
  }

  lemma DefaultSpacingBefore()
    ensures Config.Setting(Config.Defaults, "heading_spacing_before") == Config.IntKeyed(Config.DefaultSpacingBefore)
  {
  }

  lemma DefaultSpacingAfter()
    ensures Config.Setting(Config.Defaults, "heading_spacing_after") == Config.IntKeyed(Config.DefaultSpacingAfter)
  {
  }

  lemma DefaultLengthSettings()
    ensures Config.Setting(Config.Defaults, "font_size") == Config.Int(11)
    ensures Config.Setting(Config.Defaults, "paragraph_spacing_after") == Config.Int(6)
    ensures Config.Setting(Config.Defaults, "paragraph_first_line_indent") == Config.Float("0.0")
    ensures Config.Setting(Config.Defaults, "code_size") == Config.Int(9)
    ensures Config.Setting(Config.Defaults, "use_builtin_styles") == Config.Bool(true)
  {
  }

  /** With the default settings, styling and building fail exactly on a
      heading deeper than nine levels, as the built-in styles are used. */
  lemma DefaultsBuildIff(template: bool, blocks: seq<Block>)
    ensures BuildSucceeds(Config.Defaults, template, blocks) <==>
              forall i :: 0 <= i < |blocks| && blocks[i].Heading? ==> blocks[i].level <= 9
  {
    DefaultStylesOfDefaults();
    DefaultLengthSettings();
  }

  /** Without a template, a `heading_sizes` setting that is not a mapping
      makes the styling raise, whatever the document. */
  lemma SizesNotMappingFail(values: map<string, Config.Value>, blocks: seq<Block>)
    requires !Config.Setting(values, "heading_sizes").IntKeyed?
    requires !Config.Setting(values, "heading_sizes").StrKeyed?
    ensures !BuildSucceeds(values, false, blocks)
  {
    assert !HeadingFormatUsable(values, 1);
  }

  /** Without a template, a heading colour of levels 1 to 6 that is not a
      string makes the styling raise. */
  lemma ColourNotStringFails(values: map<string, Config.Value>, level: int, blocks: seq<Block>)
    requires 1 <= level <= 6
    requires Config.Setting(values, "heading_colors").IntKeyed?
    requires level in Config.Setting(values, "heading_colors").entries
    requires !Config.Setting(values, "heading_colors").entries[level].Str?
    ensures !BuildSucceeds(values, false, blocks)
  {
    assert !HeadingFormatUsable(values, level);
  }

  // ---------------------------------------------------------------------
  // The conversion

  /** What `json.loads` makes of the metadata text: a decode error, an
      object with these keys, or any other JSON value. */
  datatype JsonParse = NotJson | JsonObject(keys: set<string>) | JsonOther

  /** The keyword arguments `FormatMetadata(**d)` accepts. */
  const MetadataFields: set<string> := {
    "bold_ranges", "italic_ranges", "heading_levels", "lists", "tables",
    "hyperlinks", "images", "styles", "file_hash", "conversion_timestamp"
  }

  /** `_extract_metadata` returns a record: there is no metadata block,
      its text is not JSON (the empty record is used), or it is an object
      whose keys all name fields.  Otherwise `FormatMetadata(**d)` raises a
      TypeError, which ends the conversion. */
  predicate MetadataReadable(content: string, loads: string -> JsonParse) {
    match Envelope.MetadataPayload(content)
    case None => true
    case Some(p) =>
      match loads(p)
      case NotJson => true
      case JsonObject(keys) => keys <= MetadataFields
      case JsonOther => false
  }

  /** The front matter settings the conversion applies: only a non-empty
      mapping passes the `if frontmatter_config` test. */
  function AppliedFrontmatter(content: string, load: string -> Option<map<string, Config.Value>>)
    : (r: Option<map<string, Config.Value>>)
    ensures r.Some? ==> r.value != map[] && r == Frontmatter.ExtractFrontmatterConfig(content, load)
  {
    var f := Frontmatter.ExtractFrontmatterConfig(content, load);
    if f.Some? && f.value != map[] then f else None
  }

  /** The text after the front matter, which is removed only when its
      settings were applied. */
  function AfterFrontmatter(content: string, load: string -> Option<map<string, Config.Value>>): string {
    if AppliedFrontmatter(content, load).Some? then Frontmatter.StripFrontmatter(content) else content
  }

  /** The Markdown `_build_document` receives. */
  function MarkdownBody(content: string, load: string -> Option<map<string, Config.Value>>): string {
    Envelope.StripMetadata(AfterFrontmatter(content, load))
  }

  /** The settings after the conversion has read `content`. */
  function SettingsAfter(values: map<string, Config.Value>, content: string,
                         load: string -> Option<map<string, Config.Value>>): map<string, Config.Value> {
    match AppliedFrontmatter(content, load)
    case Some(d) => Config.Merged(values, d)
    case None => values
  }

  class MarkdownToWordConverter {
    const config: Config.ConversionConfig

    constructor(config: Config.ConversionConfig)
      ensures this.config == config
    {
      this.config := config;
    }

    /** `_setup_default_styles`: the Normal style, then the heading style
        of each level from 1 to 6.  The result says whether it finishes
        without raising. */
    method SetupDefaultStyles() returns (styled: bool)
      ensures styled == DefaultStylesUsable(config.values)
    {
      var values := config.values;
      styled := && LengthAccepts(Config.Setting(values, "font_size"))
                && LengthAccepts(Config.Setting(values, "paragraph_spacing_after"))
                && LengthAccepts(Config.Setting(values, "paragraph_first_line_indent"));
      if !styled {
        return;
      }
      var level := 1;
      while level < 7
        invariant 1 <= level <= 7
        invariant forall l :: 1 <= l < level ==> HeadingFormatUsable(values, l)
      {
        if !HeadingFormatUsable(values, level) {
          return false;
        }
        level := level + 1;
      }
    }

    /** `convert_md_to_docx`.  The file is read through `decode` (None: not
        UTF-8), the front matter through `load`, the metadata through
        `loads`, and the finished document is saved as `render(blocks)`.
        `template` says that a template path is set and names an existing
        file, so the default styles are not set up.  A `None` result is the
        exception of an unanswerable prompt, which the method does not
        catch.  Settings taken from the front matter stay in place even
        when a later step fails. */
    method ConvertMdToDocx(store: FileSafety.Store, digest: seq<FileSafety.byte> -> string,
                           cfg: FileSafety.SafetyConfig, source: string, target: string,
                           answer: Option<string>, copyOk: bool,
                           decode: seq<FileSafety.byte> -> Option<string>,
                           load: string -> Option<map<string, Config.Value>>,
                           loads: string -> JsonParse, template: bool,
                           render: seq<Block> -> seq<FileSafety.byte>)
      returns (ok: Option<bool>, store': FileSafety.Store)
      modifies config
      ensures source !in store ==> ok == Some(false) && store' == store && unchanged(config)
      ensures ok == Some(true) <==>
                && source in store
                && FileSafety.Approved(store, digest, cfg, source, target, answer)
                && decode(store[source]).Some?
                && MetadataReadable(AfterFrontmatter(decode(store[source]).value, load), loads)
                && BuildSucceeds(SettingsAfter(old(config.values), decode(store[source]).value, load), template,
                                 DocumentBlocks(MarkdownBody(decode(store[source]).value, load)))
      ensures ok.None? <==>
                source in store && FileSafety.PromptRaises(store, digest, cfg, source, target, answer)
      ensures !(source in store && FileSafety.Approved(store, digest, cfg, source, target, answer)) ==>
                store' == store
      ensures ok != Some(true) ==> FileSafety.OnlyBackupAdded(store, store', target)
      ensures FileSafety.WriteFrame(store, store', target)
      ensures source in store && FileSafety.Approved(store, digest, cfg, source, target, answer)
              && target in store && cfg.createBackup && copyOk ==>
                var b := FileSafety.NextBackup(store, target);
                b in store' && store'[b] == store[target]
      ensures ok == Some(true) ==>
                && target in store'
                && store'[target] == render(DocumentBlocks(MarkdownBody(decode(store[source]).value, load)))
      ensures if source in store && FileSafety.Approved(store, digest, cfg, source, target, answer)
                 && decode(store[source]).Some?
              then config.values == SettingsAfter(old(config.values), decode(store[source]).value, load)
              else unchanged(config)
    {
      if source !in store {
        return Some(false), store;
      }
      var verdict, backup, s1 := FileSafety.SafeWriteCheck(store, digest, cfg, source, target, answer, copyOk);
      if verdict.None? {
        return None, s1;
      }
      if !verdict.value.canProceed {
        return Some(false), s1;
      }
      assert s1[source] == store[source];
      var text := decode(s1[source]);
      if text.None? {
        return Some(false), s1;
      }
      var built, blocks := BuildFromText(text.value, load, loads, template);
      if !built {
        return Some(false), s1;
      }
      FileSafety.WriteAfterGate(store, s1, target, render(blocks));
      return Some(true), s1[target := render(blocks)];
    }

    /** The steps of `convert_md_to_docx` once the text is read: the front
        matter, the metadata, the default styles (without a template) and
        the document.  `built` says whether they finish without raising. */
    method BuildFromText(text: string, load: string -> Option<map<string, Config.Value>>,
                         loads: string -> JsonParse, template: bool)
      returns (built: bool, blocks: seq<Block>)
      modifies config
      ensures config.values == SettingsAfter(old(config.values), text, load)
      ensures built <==>
                && MetadataReadable(AfterFrontmatter(text, load), loads)
                && BuildSucceeds(config.values, template, DocumentBlocks(MarkdownBody(text, load)))
      ensures built ==> blocks == DocumentBlocks(MarkdownBody(text, load))
    {
      blocks := [];
      var content := ApplyFrontmatter(text, load);
      if !MetadataReadable(content, loads) {
        return false, blocks;
      }
      var markdownContent := Envelope.StripMetadata(content);
      if !template {
        var styled := SetupDefaultStyles();
        if !styled {
          return false, blocks;
        }
      }
      blocks := BuildDocument(markdownContent);
      built := forall i :: 0 <= i < |blocks| ==> BlockUsable(config.values, blocks[i]);
    }

    /** The front matter step of `convert_md_to_docx`: a non-empty mapping
        updates the settings and the front matter is cut off. */
    method ApplyFrontmatter(text: string, load: string -> Option<map<string, Config.Value>>)
      returns (content: string)
      modifies config
      ensures content == AfterFrontmatter(text, load)
      ensures config.values == SettingsAfter(old(config.values), text, load)
    {
      content := text;
      var frontmatterConfig := Frontmatter.ExtractFrontmatterConfig(content, load);
      if frontmatterConfig.Some? && frontmatterConfig.value != map[] {
        config.UpdateFromDict(frontmatterConfig.value);
        content := Frontmatter.StripFrontmatter(content);
      }
    }
  }

  /** A file that opens with front matter whose settings are applied: the
      settings are exactly the loaded mapping and the body is what follows
      the closing fence, without its metadata footer. */
  lemma FrontmatterApplied(yaml: string, rest: string, load: string -> Option<map<string, Config.Value>>)
    requires !Contains(yaml + "\n---", Frontmatter.FenceClose)
    requires load(yaml).Some? && load(yaml).value != map[]
    ensures var c := Frontmatter.FenceOpen + yaml + Frontmatter.FenceClose + rest;
            && AppliedFrontmatter(c, load) == load(yaml)
            && MarkdownBody(c, load) == Envelope.StripMetadata(rest)
  {
    Frontmatter.FrontmatterRoundTrip(yaml, rest);
  }

  /** Front matter that loads to nothing (empty YAML, say) is neither
      applied nor removed: its fences and text reach the builder. */
  lemma EmptyFrontmatterKept(content: string, load: string -> Option<map<string, Config.Value>>)
    requires Frontmatter.ExtractFrontmatterConfig(content, load) == Some(map[])
    ensures MarkdownBody(content, load) == Envelope.StripMetadata(content)
    ensures SettingsAfter(map[], content, load) == map[]
  {
  }

  /** A file written by the Word to Markdown direction, with no front
      matter: the builder receives exactly its body and no setting changes. */
  lemma ConvertedFileReadBack(body: string, json: string, load: string -> Option<map<string, Config.Value>>)
    requires |body| >= 4 && !StartsWith(body, Frontmatter.FenceOpen)
    requires !Contains(body, Envelope.StripPrefix)
    ensures MarkdownBody(Envelope.WithFooter(body, json), load) == body
    ensures forall v :: SettingsAfter(v, Envelope.WithFooter(body, json), load) == v
  {
    var c := Envelope.WithFooter(body, json);
    assert c[..4] == body[..4];
    assert !StartsWith(c, Frontmatter.FenceOpen);
    assert AfterFrontmatter(c, load) == c;
    Envelope.StripFooter(body, json);
  }

  // ---------------------------------------------------------------------
  // Facts about the line tests

  /** The raw lines a table collects are the table lines from `j` on
      (`TableRunStops` says the run is maximal). */
  lemma {:induction false} TableRunMaximal(lines: seq<string>, j: nat)
    requires j <= |lines|
    ensures j + |TableRun(lines, j)| <= |lines|
    ensures forall k :: 0 <= k < |TableRun(lines, j)| ==>
              TableRun(lines, j)[k] == lines[j + k] && IsTableLine(TableRun(lines, j)[k])
    decreases |lines| - j
  {
    if j < |lines| && IsTableLine(lines[j]) {
      TableRunMaximal(lines, j + 1);
      var r := TableRun(lines, j + 1);
      var all := [lines[j]] + r;
      assert TableRun(lines, j) == all;
      forall k | 0 <= k < |all| ensures all[k] == lines[j + k] && IsTableLine(all[k]) {
        if k > 0 {
          assert all[k] == r[k - 1];
        }
      }
    }
  }

  /** The collection of table lines stops at the end of the text or at the
      first line that is not a table line. */
  lemma {:induction false} TableRunStops(lines: seq<string>, j: nat)
    requires j <= |lines|
    ensures j + |TableRun(lines, j)| <= |lines|
    ensures j + |TableRun(lines, j)| == |lines| || !IsTableLine(lines[j + |TableRun(lines, j)|])
    decreases |lines| - j
  {
    if j < |lines| && IsTableLine(lines[j]) {
      TableRunStops(lines, j + 1);
    }
  }

  /** A line whose stripped form starts with a character other than `c`
      does not itself start with `c`, when `c` is not whitespace. */
  lemma HeadIsStripHead(line: string, c: char)
    requires Strip(line) != [] && Strip(line)[0] != c && !IsSpace(c)
    ensures !(line != [] && line[0] == c)
  {
    if line != [] && line[0] == c {
      StripKeepsHead(line);
    }
  }

  /** Rules consist of '-', '*', '_', '=' or '─'. */
  lemma NotRuleByHead(line: string)
    requires Strip(line) != []
    requires var h := Strip(line)[0]; h != '-' && h != '*' && h != '_' && h != '=' && h != '\U{2500}'
    ensures !IsHorizontalRule(line)
  {
    var t := Strip(line);
    assert !AllChar(t, '-') && !AllChar(t, '=') && !AllChar(t, '\U{2500}');
  }

  /** A numbered item starts with a digit once stripped. */
  lemma NotNumberByHead(line: string)
    requires Strip(line) != [] && !IsDigit(Strip(line)[0])
    ensures NumberPrefix(line).None?
  {
    StripHead(line);
    assert DigitPrefix(LStrip(line)) == [];
  }

  /** A code fence starts with '`' once stripped. */
  lemma FenceHead(line: string)
    requires IsFence(line)
    ensures Strip(line) != [] && Strip(line)[0] == '`'
  {
    StripKeepsHead(line);
  }

  /** A table line is a table start in the source's order of tests. */
  lemma TableLineKind(raw: string)
    requires IsTableLine(raw)
    ensures KindOfLine(RStrip(raw)) == TableStart
    ensures !IsFence(RStrip(raw))
  {
    var line := RStrip(raw);
    StrippedStartsWithIff(raw, '|');
    StripRStrip(raw);
    StrippedStartsWithIff(line, '|');
    var t := Strip(line);
    StartsWithHead(t, "|");
    StartsWithHead(line, "#");
    StartsWithHead(line, "```");
    HeadIsStripHead(line, '#');
    HeadIsStripHead(line, '`');
    StartsWithHead(t, "-");
    StartsWithHead(t, "*");
    StartsWithHead(t, "+");
    NotRuleByHead(line);
    NotNumberByHead(line);
    assert '|' in line by {
      StripHead(line);
      var l := LStrip(line);
      assert line[|line| - |l|] == l[0];
    }
  }

  /** The header box test only passes lines that are already rules. */
  lemma HeaderBoxDividerFacts(lines: seq<string>, i: nat)
    requires i < |lines| && IsHeaderBoxDivider(RStrip(lines[i]), lines, i)
    ensures KindOfLine(RStrip(lines[i])) == RuleLine
    ensures !IsFence(RStrip(lines[i]))
    ensures KindOfLine(RStrip(lines[i + 2])) == RuleLine
    ensures !IsFence(RStrip(lines[i + 2]))
  {
    var line := RStrip(lines[i]);
    if IsFence(line) {
      FenceHead(line);
    }
    var closing := RStrip(lines[i + 2]);
    StripRStrip(lines[i + 2]);
    assert IsHorizontalRule(closing);
    if IsFence(closing) {
      FenceHead(closing);
    }
  }

  // ---------------------------------------------------------------------
  // Code blocks and headings

  /** The lines a code block collects, each without trailing whitespace. */
  function RStripLines(ls: seq<string>): (r: seq<string>)
    ensures |r| == |ls|
    ensures forall k :: 0 <= k < |ls| ==> r[k] == RStrip(ls[k])
  {
    if ls == [] then [] else [RStrip(ls[0])] + RStripLines(ls[1..])
  }

  /** Inside a code block every line up to the closing fence, blank ones
      included, is collected; the fence adds them as one code block joined
      with newlines. */
  lemma {:induction false} CodeUntilFence(lines: seq<string>, i: nat, j: nat, code: seq<string>)
    requires i <= j < |lines|
    requires forall k :: i <= k < j ==> !IsFence(RStrip(lines[k]))
    requires IsFence(RStrip(lines[j]))
    ensures Build(lines, i, true, code) ==
            [CodeBlock(Join("\n", code + RStripLines(lines[i..j])))] + Build(lines, j + 1, false, [])
    decreases j - i
  {
    if i == j {
      assert code + RStripLines(lines[i..j]) == code;
      BuildCloseFence(lines, i, code);
    } else {
      BuildCodeLine(lines, i, code);
      CodeUntilFence(lines, i + 1, j, code + [RStrip(lines[i])]);
      CollectStep(lines, i, j, code);
    }
  }

  /** Collecting one more line, then the rest, collects them all. */
  lemma CollectStep(lines: seq<string>, i: nat, j: nat, code: seq<string>)
    requires i < j <= |lines|
    ensures code + [RStrip(lines[i])] + RStripLines(lines[i + 1..j]) == code + RStripLines(lines[i..j])
  {
    var ls := lines[i..j];
    assert ls[0] == lines[i] && ls[1..] == lines[i + 1..j];
    assert RStripLines(ls) == [RStrip(lines[i])] + RStripLines(lines[i + 1..j]);
  }

  /** A fenced block outside code: one code block of the lines between the
      fences, then the lines after the closing fence. */
  lemma FencedCode(lines: seq<string>, i: nat, j: nat)
    requires i < j < |lines| && IsFence(RStrip(lines[i])) && IsFence(RStrip(lines[j]))
    requires forall k :: i < k < j ==> !IsFence(RStrip(lines[k]))
    ensures Build(lines, i, false, []) ==
            [CodeBlock(Join("\n", RStripLines(lines[i + 1..j])))] + Build(lines, j + 1, false, [])
  {
    BuildOpenFence(lines, i, []);
    CodeUntilFence(lines, i + 1, j, []);
    assert [] + RStripLines(lines[i + 1..j]) == RStripLines(lines[i + 1..j]);
  }

  /** A code block that is never closed adds nothing, whatever follows. */
  lemma {:induction false} UnclosedFence(lines: seq<string>, i: nat, code: seq<string>)
    requires i <= |lines|
    requires forall k :: i <= k < |lines| ==> !IsFence(RStrip(lines[k]))
    ensures Build(lines, i, true, code) == []
    decreases |lines| - i
  {
    if i < |lines| {
      BuildCodeLine(lines, i, code);
      UnclosedFence(lines, i + 1, code + [RStrip(lines[i])]);
    }
  }

  /** A line opening with `n` '#': a heading of level `n` whose text is the
      rest of the line, stripped. */
  lemma HeadingBlock(lines: seq<string>, i: nat, n: nat)
    requires i < |lines| && 1 <= n <= |RStrip(lines[i])|
    requires forall k :: 0 <= k < n ==> RStrip(lines[i])[k] == '#'
    requires n == |RStrip(lines[i])| || RStrip(lines[i])[n] != '#'
    ensures LineBlocks(lines, i) == [Heading(n, Strip(RStrip(lines[i])[n..]))]
  {
    var line := RStrip(lines[i]);
    HashLineKind(line);
    LineBlocksOfKind(lines, i, HeadingLine);
    HeadingOfHashes(lines, i, line, n);
  }

  lemma LineBlocksOfKind(lines: seq<string>, i: nat, k: LineKind)
    requires i < |lines| && KindOfLine(RStrip(lines[i])) == k
    ensures LineBlocks(lines, i) == BlocksFor(k, lines, i, RStrip(lines[i]))
  {
  }

  lemma HeadingOfHashes(lines: seq<string>, i: nat, line: string, n: nat)
    requires 1 <= n <= |line| && forall k :: 0 <= k < n ==> line[k] == '#'
    requires n == |line| || line[n] != '#'
    ensures BlocksFor(HeadingLine, lines, i, line) == [Heading(n, Strip(line[n..]))]
  {
    LStripCharRun(line, '#', n);
    var rest := LStripChar(line, '#');
    assert |rest| == |line| - n;
    assert HeadingLevelOf(line) == n;
  }

  lemma HashLineKind(line: string)
    requires line != [] && line[0] == '#'
    ensures KindOfLine(line) == HeadingLine
  {
    StripKeepsHead(line);
    NotRuleByHead(line);
    assert StartsWith(line, "#");
  }

  // ---------------------------------------------------------------------
  // Findings: the builder as evidently intended

  /** A list marker as Markdown reads one: '-', '*' or '+' followed by
      whitespace or the end of the line. */
  predicate ListMarker(t: string) {
    BulletMarker(t) && (|t| == 1 || IsSpace(t[1]))
  }

  /** The kind of a line when only a real list marker makes a bullet. */
  function IntendedKind(line: string): LineKind {
    var k := KindOfLine(line);
    if k == BulletLine && !ListMarker(Strip(line)) then BodyKind(line) else k
  }

  /** `_build_document` as its comments describe it: a header box is
      recognised before the rule test and its three lines are consumed,
      a table consumes the lines it collected, and only a real list marker
      makes a bullet. */
  function BuildIntended(lines: seq<string>, i: nat, inCode: bool, code: seq<string>): seq<Block>
    requires i <= |lines|
    decreases |lines| - i
  {
    if i == |lines| then []
    else
      var line := RStrip(lines[i]);
      if IsFence(line) then
        if inCode then [CodeBlock(Join("\n", code))] + BuildIntended(lines, i + 1, false, [])
        else BuildIntended(lines, i + 1, true, code)
      else if inCode then BuildIntended(lines, i + 1, true, code + [line])
      else if IsHeaderBoxDivider(line, lines, i) then
        [HeaderBox(Strip(lines[i + 1]))] + BuildIntended(lines, i + 3, false, [])
      else IntendedLineBlocks(lines, i) + BuildIntended(lines, i + LinesUsed(lines, i), false, [])
  }

  function IntendedLineBlocks(lines: seq<string>, i: nat): seq<Block>
    requires i < |lines|
  {
    var line := RStrip(lines[i]);
    BlocksFor(IntendedKind(line), lines, i, line)
  }

  /** The number of lines a line outside a code block consumes: a table
      its collected lines, any other line itself. */
  function LinesUsed(lines: seq<string>, i: nat): (r: nat)
    requires i < |lines|
    ensures 1 <= r && i + r <= |lines|
  {
    if IntendedKind(RStrip(lines[i])) == TableStart then 1 + |TableRun(lines, i + 1)| else 1
  }

  /** One line outside a code block that opens no header box. */
  lemma IntendedStep(lines: seq<string>, i: nat)
    requires i < |lines| && !IsFence(RStrip(lines[i])) && !IsHeaderBoxDivider(RStrip(lines[i]), lines, i)
    ensures BuildIntended(lines, i, false, []) ==
              IntendedLineBlocks(lines, i) + BuildIntended(lines, i + LinesUsed(lines, i), false, [])
  {
  }

  function DocumentBlocksIntended(content: string): seq<Block> {
    BuildIntended(Split(content, '\n'), 0, false, [])
  }

  /** The runs of a paragraph block with a lone "***" kept as text. */
  function IntendedParagraphRuns(b: Block): seq<Inline.InlineRun>
    requires b.Paragraph?
  {
    Inline.CorrectedInlineRuns(b.text)
  }

  /** As written, a table line right after a table's first line is tested
      again on the next iteration (the skip assigns the loop variable, which
      the `for` loop overwrites), so it starts a table of its own. */
  lemma TableLinesReprocessed(lines: seq<string>, i: nat)
    requires i + 1 < |lines| && IsTableLine(lines[i]) && IsTableLine(lines[i + 1])
    ensures Build(lines, i, false, []) ==
              TableBlocks([RStrip(lines[i])] + TableRun(lines, i + 1)) + Build(lines, i + 1, false, [])
    ensures !IsFence(RStrip(lines[i + 1]))
    ensures LineBlocks(lines, i + 1) == TableBlocks([RStrip(lines[i + 1])] + TableRun(lines, i + 2))
  {
    TableLineKind(lines[i]);
    TableLineKind(lines[i + 1]);
    BuildLine(lines, i);
  }

  /** As corrected, a table adds the blocks of the lines it collected and
      consumes exactly those lines, which run up to the first line that is
      not a table line (`TableRunStops`). */
  lemma IntendedTableConsumesRun(lines: seq<string>, i: nat)
    requires i < |lines| && IsTableLine(lines[i])
    ensures IntendedLineBlocks(lines, i) == TableBlocks([RStrip(lines[i])] + TableRun(lines, i + 1))
    ensures LinesUsed(lines, i) == 1 + |TableRun(lines, i + 1)|
    ensures BuildIntended(lines, i, false, []) ==
              IntendedLineBlocks(lines, i) + BuildIntended(lines, i + LinesUsed(lines, i), false, [])
  {
    var line := RStrip(lines[i]);
    TableLineKind(lines[i]);
    HeaderBoxIsRule(line, lines, i);
    assert IntendedKind(line) == TableStart;
    IntendedStep(lines, i);
  }

  /** A table line that is the last line adds nothing on its own. */
  lemma LastTableLine(lines: seq<string>, i: nat)
    requires i + 1 == |lines| && IsTableLine(lines[i])
    ensures Build(lines, i, false, []) == []
  {
    TableLineKind(lines[i]);
    BuildLine(lines, i);
    assert TableRun(lines, i + 1) == [];
  }

  /** Consecutive lines give as many rows as their parts do. */
  lemma {:induction false} ParseRowsCount(a: seq<string>, b: seq<string>)
    ensures |ParseRows(a + b)| == |ParseRows(a)| + |ParseRows(b)|
    decreases |b|
  {
    if b == [] {
      assert a + b == a;
    } else {
      ParseRowsCount(a, b[..|b| - 1]);
      ParseRowsSnoc(a, b);
      ParseRowsSnoc([], b);
    }
  }

  /** The last line adds its own rows after those of the lines before it. */
  lemma ParseRowsSnoc(a: seq<string>, b: seq<string>)
    requires b != []
    ensures |ParseRows(a + b)| == |ParseRows(a + b[..|b| - 1])| + |RowOf(b[|b| - 1])|
  {
    var ab := a + b;
    assert ab[..|ab| - 1] == a + b[..|b| - 1];
    assert ab[|ab| - 1] == b[|b| - 1];
    ParseRowsLast(ab);
  }

  lemma ParseRowsLast(s: seq<string>)
    requires s != []
    ensures ParseRows(s) == ParseRows(s[..|s| - 1]) + RowOf(s[|s| - 1])
  {
  }

  /** When the lines after the first make a table, so do all the lines. */
  lemma SuffixTable(lines: seq<string>)
    requires |lines| >= 2 && TableBlocks(lines[1..]) != []
    ensures |TableBlocks(lines)| == 1 && |TableBlocks(lines[1..])| == 1
  {
    assert lines == [lines[0]] + lines[1..];
    ParseRowsCount([lines[0]], lines[1..]);
  }

  /** The lines a table starting at line 0 of three table lines collects. */
  lemma ThreeTableRuns(lines: seq<string>)
    requires |lines| == 3 && IsTableLine(lines[1]) && IsTableLine(lines[2])
    ensures TableRun(lines, 2) == lines[2..] && TableRun(lines, 1) == lines[1..]
  {
    TableRunStep(lines, 2);
    TableRunStep(lines, 1);
    assert lines[1..] == [lines[1]] + lines[2..];
  }

  /** Three table lines without trailing whitespace become, as written,
      the table of all three and then the table of the last two. */
  lemma ThreeLineTableBlocks(lines: seq<string>)
    requires |lines| == 3 && IsTableLine(lines[0]) && IsTableLine(lines[1]) && IsTableLine(lines[2])
    requires RStrip(lines[0]) == lines[0] && RStrip(lines[1]) == lines[1]
    ensures Build(lines, 0, false, []) == TableBlocks(lines) + TableBlocks(lines[1..])
  {
    ThreeTableRuns(lines);
    assert [RStrip(lines[0])] + TableRun(lines, 1) == lines;
    assert [RStrip(lines[1])] + TableRun(lines, 2) == lines[1..];
    LastTableLine(lines, 2);
    TableLinesReprocessed(lines, 1);
    var second := TableBlocks(lines[1..]);
    assert Build(lines, 1, false, []) == second + [];
    assert second + [] == second;
    var first := TableBlocks(lines);
    assert TableBlocks([RStrip(lines[0])] + TableRun(lines, 1)) == first;
    TableLinesReprocessed(lines, 0);
  }

  /** So when the last two lines already make a table (a separator and a
      data row, say), the three lines give two Word tables, the second
      repeating the data rows. */
  lemma ThreeLineTable(lines: seq<string>)
    requires |lines| == 3 && IsTableLine(lines[0]) && IsTableLine(lines[1]) && IsTableLine(lines[2])
    requires RStrip(lines[0]) == lines[0] && RStrip(lines[1]) == lines[1]
    requires TableBlocks(lines[1..]) != []
    ensures |Build(lines, 0, false, [])| == 2
  {
    ThreeLineTableBlocks(lines);
    SuffixTable(lines);
  }

  /** Corrected, the same three lines are one table. */
  lemma IntendedThreeLineTable(lines: seq<string>)
    requires |lines| == 3 && IsTableLine(lines[0]) && IsTableLine(lines[1]) && IsTableLine(lines[2])
    requires RStrip(lines[0]) == lines[0]
    ensures BuildIntended(lines, 0, false, []) == TableBlocks(lines)
  {
    ThreeTableRuns(lines);
    IntendedTableToEnd(lines, 0);
    assert [lines[0]] + lines[1..] == lines;
  }

  /** A table whose run reaches the last line is, as corrected, all that
      is built from its first line on. */
  lemma IntendedTableToEnd(lines: seq<string>, i: nat)
    requires i < |lines| && IsTableLine(lines[i])
    requires i + 1 + |TableRun(lines, i + 1)| == |lines|
    ensures BuildIntended(lines, i, false, []) == TableBlocks([RStrip(lines[i])] + TableRun(lines, i + 1))
  {
    IntendedTableConsumesRun(lines, i);
    assert BuildIntended(lines, |lines|, false, []) == [];
  }

  predicate NoHeaderBoxIn(blocks: seq<Block>) {
    forall b :: b in blocks ==> !b.HeaderBox?
  }

  lemma LineBlocksNoHeaderBox(lines: seq<string>, i: nat)
    requires i < |lines|
    ensures NoHeaderBoxIn(LineBlocks(lines, i))
  {
    var line := RStrip(lines[i]);
    match KindOfLine(line)
    case TableStart =>
      assert NoHeaderBoxIn(TableBlocks([line] + TableRun(lines, i + 1)));
    case _ =>
  }

  /** As written, no header box is ever added: every block `Build` yields
      is something else. */
  lemma {:induction false} NoHeaderBox(lines: seq<string>, i: nat, inCode: bool, code: seq<string>)
    requires i <= |lines|
    ensures NoHeaderBoxIn(Build(lines, i, inCode, code))
    decreases |lines| - i
  {
    if i < |lines| {
      var line := RStrip(lines[i]);
      if IsFence(line) && inCode {
        BuildCloseFence(lines, i, code);
        NoHeaderBox(lines, i + 1, false, []);
      } else if IsFence(line) {
        BuildOpenFence(lines, i, code);
        NoHeaderBox(lines, i + 1, true, code);
      } else if inCode {
        BuildCodeLine(lines, i, code);
        NoHeaderBox(lines, i + 1, true, code + [line]);
      } else {
        BuildLine(lines, i);
        NoHeaderBox(lines, i + 1, false, []);
        LineBlocksNoHeaderBox(lines, i);
      }
    }
  }

  /** As written, a header box (a divider of '=', a text line, a divider)
      comes out as a rule, the text line's own block, and another rule. */
  lemma HeaderBoxAsRules(lines: seq<string>, i: nat)
    requires i + 2 < |lines| && IsHeaderBoxDivider(RStrip(lines[i]), lines, i)
    requires !IsFence(RStrip(lines[i + 1]))
    ensures Build(lines, i, false, []) ==
              [Rule] + LineBlocks(lines, i + 1) + [Rule] + Build(lines, i + 3, false, [])
  {
    HeaderBoxDividerFacts(lines, i);
    BuildLine(lines, i);
    BuildLine(lines, i + 1);
    BuildLine(lines, i + 2);
    assert LineBlocks(lines, i) == [Rule];
    assert LineBlocks(lines, i + 2) == [Rule];
    var text := LineBlocks(lines, i + 1);
    var rest := Build(lines, i + 3, false, []);
    Shift([Rule], text, [Rule] + rest);
    Shift([Rule] + text, [Rule], rest);
  }

  /** As corrected, a header box is one block holding the stripped text
      line, which `ExtractHeaderBoxText` returns, and its three lines are
      consumed. */
  lemma IntendedHeaderBox(lines: seq<string>, i: nat)
    requires i < |lines| && IsHeaderBoxDivider(RStrip(lines[i]), lines, i)
    ensures BuildIntended(lines, i, false, []) ==
              [HeaderBox(Strip(lines[i + 1]))] + BuildIntended(lines, i + 3, false, [])
  {
    HeaderBoxDividerFacts(lines, i);
  }

  /** A line starting with "**", its own stripped and trailing-stripped form. */
  lemma BoldLeadShape(raw: string)
    requires StartsWith(raw, "**")
    ensures RStrip(raw) != [] && RStrip(raw)[0] == '*'
    ensures |Strip(raw)| >= 2 && Strip(raw)[0] == '*' && Strip(raw)[1] == '*'
    ensures Strip(RStrip(raw)) == Strip(raw)
  {
    assert raw[0] == '*' && raw[1] == '*';
    RStripKeeps(raw, 0);
    RStripKeeps(raw, 1);
    LStripNoLead(raw);
    StripRStrip(raw);
  }

  /** As written, a paragraph that opens with bold text ("**Note** ...")
      passes the bullet test and becomes a bullet whose text starts with
      the second '*'. */
  lemma BoldLeadIsBullet(lines: seq<string>, i: nat)
    requires i < |lines| && StartsWith(lines[i], "**") && !IsHorizontalRule(lines[i])
    ensures !IsFence(RStrip(lines[i]))
    ensures LineBlocks(lines, i) == [Bullet(Strip(Tail(Strip(lines[i]))))]
    ensures StartsWith(Strip(Tail(Strip(lines[i]))), "*")
  {
    BoldLeadBullet(lines[i]);
    BoldLeadShape(lines[i]);
    var line := RStrip(lines[i]);
    assert LineBlocks(lines, i) == [Bullet(Strip(Tail(Strip(line))))];
    BoldLeadBulletText(lines[i]);
  }

  lemma BoldLeadBulletText(raw: string)
    requires StartsWith(raw, "**")
    ensures StartsWith(Strip(Tail(Strip(raw))), "*")
  {
    BoldLeadShape(raw);
    var t := Strip(raw);
    var u := Tail(t);
    assert u == t[1..] && u[0] == '*';
    StripKeepsHead(u);
    HeadStartsWith(Strip(u), '*');
  }

  /** As corrected, such a line is a plain paragraph of its own. */
  lemma IntendedBoldLeadParagraph(lines: seq<string>, i: nat)
    requires i < |lines| && StartsWith(lines[i], "**") && !IsHorizontalRule(lines[i])
    ensures IntendedKind(RStrip(lines[i])) == PlainLine
    ensures BuildIntended(lines, i, false, []) == [Paragraph(RStrip(lines[i]))] + BuildIntended(lines, i + 1, false, [])
  {
    BoldLeadKind(lines[i]);
    IntendedStep(lines, i);
    assert LinesUsed(lines, i) == 1;
    assert IntendedLineBlocks(lines, i) == [Paragraph(RStrip(lines[i]))];
  }

  lemma BoldLeadKind(raw: string)
    requires StartsWith(raw, "**") && !IsHorizontalRule(raw)
    ensures IntendedKind(RStrip(raw)) == PlainLine
    ensures !IsFence(RStrip(raw)) && !IsEqualsDivider(RStrip(raw))
  {
    BoldLeadBullet(raw);
    BoldLeadBody(raw);
  }

  /** A line opening with "**" passes the bullet test without a real list
      marker. */
  lemma BoldLeadBullet(raw: string)
    requires StartsWith(raw, "**") && !IsHorizontalRule(raw)
    ensures KindOfLine(RStrip(raw)) == BulletLine && !ListMarker(Strip(RStrip(raw)))
    ensures !IsFence(RStrip(raw)) && !IsEqualsDivider(RStrip(raw))
  {
    BoldLeadKindOfLine(raw);
    BoldLeadNoMarker(raw);
  }

  lemma BoldLeadKindOfLine(raw: string)
    requires StartsWith(raw, "**") && !IsHorizontalRule(raw)
    ensures KindOfLine(RStrip(raw)) == BulletLine
  {
    var line := RStrip(raw);
    BoldLeadShape(raw);
    assert !IsHorizontalRule(line) by {
      assert Strip(line) == Strip(raw);
    }
    var t := Strip(line);
    HeadStartsWith(t, '*');
    assert BulletMarker(t);
    StartsWithHead(line, "#");
  }

  lemma BoldLeadNoMarker(raw: string)
    requires StartsWith(raw, "**")
    ensures !ListMarker(Strip(RStrip(raw)))
    ensures !IsFence(RStrip(raw)) && !IsEqualsDivider(RStrip(raw))
  {
    var line := RStrip(raw);
    BoldLeadShape(raw);
    StartsWithHead(line, "```");
  }

  lemma BoldLeadBody(raw: string)
    requires StartsWith(raw, "**")
    ensures BodyKind(RStrip(raw)) == PlainLine
  {
    var line := RStrip(raw);
    BoldLeadShape(raw);
    var t := Strip(line);
    NotNumberByHead(line);
    StrippedStartsWithIff(line, '|');
    StartsWithHead(t, "|");
    StartsWithHead(t, ">");
  }
}
