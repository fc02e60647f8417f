/**
 * The Word-to-Markdown direction (`WordToMarkdownConverter`).  A Word
 * document is given abstractly: paragraphs carry a style name, an
 * alignment and runs with their character-formatting flags; tables are rows
 * of cell texts.  The converter emits one Markdown line per non-blank
 * paragraph, then one Markdown table per non-empty table, and records line
 * indices in a metadata record that lives as long as the converter.
 */
module WordToMarkdown {
  import opened Text
  import opened Wrappers
  import opened Envelope
  import FileSafety

  // ---------------------------------------------------------------------
  // The document, as python-docx presents it

  datatype Alignment = Unset | Left | Center | Right | Justify

  /** A run: its text and the flags `_process_runs` reads.  `hyperlink` says
      whether the run's element contains a `w:hyperlink`. */
  datatype Run = Run(text: string, bold: bool, italic: bool, underline: bool, strike: bool,
                     superscript: bool, subscript: bool, hyperlink: bool)

  datatype Paragraph = Paragraph(style: string, alignment: Alignment, runs: seq<Run>)

  /** A table as rows of raw cell texts. */
  datatype Table = Table(rows: seq<seq<string>>)

  datatype Document = Document(paragraphs: seq<Paragraph>, tables: seq<Table>)

  // ---------------------------------------------------------------------
  // The metadata record (`FormatMetadata`)

  datatype ListInfo = ListInfo(line: nat, style: string)
  datatype TableInfo = TableInfo(line: nat, rows: nat, cols: nat, data: seq<seq<string>>)
  datatype LinkInfo = LinkInfo(start: nat, end: nat, line: nat)

  datatype FormatMetadata = FormatMetadata(
    boldRanges: seq<(nat, nat)>,
    italicRanges: seq<(nat, nat)>,
    headingLevels: map<nat, nat>,
    lists: seq<ListInfo>,
    tables: seq<TableInfo>,
    hyperlinks: seq<LinkInfo>,
    images: seq<map<string, string>>,
    styles: map<string, string>,
    fileHash: string,
    conversionTimestamp: string)

  /** `FormatMetadata()` after `__post_init__`. */
  const EmptyMetadata := FormatMetadata([], [], map[], [], [], [], [], map[], "", "")

  // ---------------------------------------------------------------------
  // Runs

  /** `paragraph.text`: the texts of the runs, concatenated. */
  function ParagraphText(runs: seq<Run>): string {
    if runs == [] then [] else ParagraphText(runs[..|runs| - 1]) + runs[|runs| - 1].text
  }

  /** The anchor of a hyperlink run: spaces become '-', then lower case. */
  function Slug(t: string): (r: string)
    ensures |r| == |t|
    ensures ' ' !in r
    ensures forall i :: 0 <= i < |r| ==> !('A' <= r[i] <= 'Z')
    ensures forall i :: 0 <= i < |t| ==> r[i] == if t[i] == ' ' then '-' else LowerChar(t[i])
  {
    Lower(ReplaceChar(t, ' ', '-'))
  }

  /** The innermost layer: superscript, else subscript. */
  function ScriptLayer(r: Run): string {
    if r.superscript then "<sup>" + r.text + "</sup>"
    else if r.subscript then "<sub>" + r.text + "</sub>"
    else r.text
  }

  function StrikeLayer(r: Run): string {
    if r.strike then "~~" + ScriptLayer(r) + "~~" else ScriptLayer(r)
  }

  function UnderlineLayer(r: Run): string {
    if r.underline then "<u>" + StrikeLayer(r) + "</u>" else StrikeLayer(r)
  }

  /** The run's text with its formatting applied, innermost first:
      superscript (else subscript), strike, underline, then emphasis. */
  function Wrapped(r: Run): string {
    var t := UnderlineLayer(r);
    if r.bold && r.italic then "***" + t + "***"
    else if r.bold then "**" + t + "**"
    else if r.italic then "*" + t + "*"
    else t
  }

  /** A run's Markdown: a hyperlink run is replaced outright by a link to
      its slug. */
  function RunMarkdown(r: Run): string {
    if r.hyperlink then "[" + r.text + "](#" + Slug(r.text) + ")" else Wrapped(r)
  }

  /** The result string of `_process_runs`. */
  function RunsMarkdown(runs: seq<Run>): string {
    if runs == [] then [] else RunsMarkdown(runs[..|runs| - 1]) + RunMarkdown(runs[|runs| - 1])
  }

  /** The hyperlink records `_process_runs` appends: the raw-text offsets of
      each hyperlink run and the current line. */
  function RunLinks(runs: seq<Run>, line: nat): seq<LinkInfo> {
    if runs == [] then []
    else
      var init := runs[..|runs| - 1];
      RunLinks(init, line) + RunLink(runs[|runs| - 1], |ParagraphText(init)|, line)
  }

  /** The record one run adds when its text starts at `start`: one for a
      hyperlink run, none otherwise. */
  function RunLink(r: Run, start: nat, line: nat): seq<LinkInfo> {
    if r.hyperlink then [LinkInfo(start, start + |r.text|, line)] else []
  }

  // ---------------------------------------------------------------------
  // Paragraphs

  predicate IsHeadingStyle(style: string) {
    StartsWith(style, "Heading") || StartsWith(style, "Title")
  }

  predicate IsListStyle(style: string) {
    Contains(style, "List") || Contains(style, "Bullet") || Contains(style, "Number")
  }

  predicate IsBulletStyle(style: string) {
    Contains(style, "Bullet") || Contains(style, "bullet")
  }

  /** `re.findall(r'\d+', s)[0]`, or None when the list is empty. */
  function FirstDigits(s: string): (r: Option<string>)
    ensures r.None? <==> forall i :: 0 <= i < |s| ==> !IsDigit(s[i])
    ensures r.Some? ==> r.value != [] && forall i :: 0 <= i < |r.value| ==> IsDigit(r.value[i])
  {
    if s == [] then None
    else if IsDigit(s[0]) then Some(DigitPrefix(s))
    else
      var r := FirstDigits(s[1..]);
      assert forall i :: 1 <= i < |s| ==> s[i] == s[1..][i - 1];
      r
  }

  /** The heading level of a heading style: 1 for "Title", otherwise the
      first run of digits in the name, or 1 when there is none. */
  function HeadingLevel(style: string): nat {
    if style == "Title" then 1
    else match FirstDigits(style)
      case Some(d) => DecimalValue(d)
      case None => 1
  }

  /** How `_process_paragraph` treats a paragraph, decided in the source's
      order: blank text, then a heading style, then a list style. */
  datatype Kind = Blank | HeadingKind(level: nat) | ListKind(bullet: bool) | PlainKind

  function KindOf(p: Paragraph): Kind {
    if Strip(ParagraphText(p.runs)) == [] then Blank
    else if IsHeadingStyle(p.style) then HeadingKind(HeadingLevel(p.style))
    else if IsListStyle(p.style) then ListKind(IsBulletStyle(p.style))
    else PlainKind
  }

  function LineForKind(k: Kind, p: Paragraph): string {
    match k
    case Blank => []
    case HeadingKind(level) => Repeat('#', level) + " " + ParagraphText(p.runs)
    case ListKind(bullet) => (if bullet then "- " else "1. ") + ParagraphText(p.runs)
    case PlainKind => RunsMarkdown(p.runs)
  }

  function MetadataForKind(m: FormatMetadata, line: nat, k: Kind, p: Paragraph): FormatMetadata {
    match k
    case Blank => m
    case HeadingKind(level) => m.(headingLevels := m.headingLevels[line := level])
    case ListKind(_) => m.(lists := m.lists + [ListInfo(line, p.style)])
    case PlainKind =>
      var m1 := m.(hyperlinks := m.hyperlinks + RunLinks(p.runs, line));
      if p.alignment == Center then m1.(styles := m1.styles[NatToString(line) := "center"])
      else if p.alignment == Right then m1.(styles := m1.styles[NatToString(line) := "right"])
      else m1
  }

  /** What `_process_paragraph` returns. */
  function ParagraphLine(p: Paragraph): string {
    LineForKind(KindOf(p), p)
  }

  /** The metadata after `_process_paragraph` at line `line`. */
  function ParagraphMetadata(m: FormatMetadata, line: nat, p: Paragraph): FormatMetadata {
    MetadataForKind(m, line, KindOf(p), p)
  }

  // ---------------------------------------------------------------------
  // Tables

  /** `[cell.text.strip() for cell in row.cells]`. */
  function StripRow(row: seq<string>): (r: seq<string>)
    ensures |r| == |row|
    ensures forall j :: 0 <= j < |row| ==> r[j] == Strip(row[j])
  {
    if row == [] then [] else StripRow(row[..|row| - 1]) + [Strip(row[|row| - 1])]
  }

  /** `table_data`: every cell stripped. */
  function TableCells(rows: seq<seq<string>>): (r: seq<seq<string>>)
    ensures |r| == |rows|
    ensures forall i :: 0 <= i < |rows| ==> r[i] == StripRow(rows[i])
  {
    if rows == [] then [] else TableCells(rows[..|rows| - 1]) + [StripRow(rows[|rows| - 1])]
  }

  /** One Markdown table row. */
  function MarkdownRow(cells: seq<string>): string {
    "| " + Join(" | ", cells) + " |"
  }

  /** `["---"] * n`. */
  function Dashes(n: nat): (r: seq<string>)
    ensures |r| == n
    ensures forall j :: 0 <= j < n ==> r[j] == "---"
  {
    if n == 0 then [] else Dashes(n - 1) + ["---"]
  }

  function RowLines(rows: seq<seq<string>>): (r: seq<string>)
    ensures |r| == |rows|
    ensures forall i :: 0 <= i < |rows| ==> r[i] == MarkdownRow(rows[i])
  {
    if rows == [] then [] else RowLines(rows[..|rows| - 1]) + [MarkdownRow(rows[|rows| - 1])]
  }

  /** The lines of the Markdown table: header row, separator, data rows. */
  function TableLines(data: seq<seq<string>>): seq<string>
    requires data != []
  {
    [MarkdownRow(data[0]), MarkdownRow(Dashes(|data[0]|))] + RowLines(data[1..])
  }

  /** What `_process_table` returns for the stripped cells `data`. */
  function TableMarkdown(data: seq<seq<string>>): string {
    if data == [] || data[0] == [] then [] else Join("\n", TableLines(data))
  }

  /** The metadata after `_process_table` at line `line`. */
  function TableMetadata(m: FormatMetadata, line: nat, t: Table): FormatMetadata {
    var d := TableCells(t.rows);
    if d == [] || d[0] == [] then m
    else m.(tables := m.tables + [TableInfo(line, |d|, |d[0]|, d)])
  }

  // ---------------------------------------------------------------------
  // The whole document (`_extract_content_and_metadata`)

  /** The state of the emitter: the lines so far, the metadata and
      `current_line`. */
  datatype Emission = Emission(lines: seq<string>, meta: FormatMetadata, line: nat)

  function StepParagraph(e: Emission, p: Paragraph): Emission {
    var md := ParagraphLine(p);
    var emits := Strip(md) != [];
    Emission(if emits then e.lines + [md] else e.lines,
             ParagraphMetadata(e.meta, e.line, p),
             if emits then e.line + 1 else e.line)
  }

  function EmitParagraphs(e: Emission, ps: seq<Paragraph>): Emission {
    if ps == [] then e else StepParagraph(EmitParagraphs(e, ps[..|ps| - 1]), ps[|ps| - 1])
  }

  lemma StepParagraphOutcome(e: Emission, p: Paragraph, md: string, m: FormatMetadata)
    requires md == ParagraphLine(p) && m == ParagraphMetadata(e.meta, e.line, p)
    ensures Strip(md) != [] ==> StepParagraph(e, p) == Emission(e.lines + [md], m, e.line + 1)
    ensures Strip(md) == [] ==> StepParagraph(e, p) == Emission(e.lines, m, e.line)
  {
  }

  lemma EmitParagraphsWhole(e: Emission, ps: seq<Paragraph>)
    ensures EmitParagraphs(e, ps[..|ps|]) == EmitParagraphs(e, ps)
  {
    assert ps[..|ps|] == ps;
  }

  lemma EmitParagraphsSnoc(e: Emission, ps: seq<Paragraph>, i: nat)
    requires i < |ps|
    ensures EmitParagraphs(e, ps[..i + 1]) == StepParagraph(EmitParagraphs(e, ps[..i]), ps[i])
  {
    var q := ps[..i + 1];
    assert q[..|q| - 1] == ps[..i];
    assert q[|q| - 1] == ps[i];
  }

  function StepTable(e: Emission, t: Table): Emission {
    var md := TableMarkdown(TableCells(t.rows));
    Emission(if md != [] then e.lines + [md] else e.lines,
             TableMetadata(e.meta, e.line, t),
             if md != [] then e.line + CountChar(md, '\n') else e.line)
  }

  function EmitTables(e: Emission, ts: seq<Table>): Emission {
    if ts == [] then e else StepTable(EmitTables(e, ts[..|ts| - 1]), ts[|ts| - 1])
  }

  lemma EmitTablesWhole(e: Emission, ts: seq<Table>)
    ensures EmitTables(e, ts[..|ts|]) == EmitTables(e, ts)
  {
    assert ts[..|ts|] == ts;
  }

  lemma EmitTablesSnoc(e: Emission, ts: seq<Table>, i: nat)
    requires i < |ts|
    ensures EmitTables(e, ts[..i + 1]) == StepTable(EmitTables(e, ts[..i]), ts[i])
  {
    var q := ts[..i + 1];
    assert q[..|q| - 1] == ts[..i];
    assert q[|q| - 1] == ts[i];
  }

  /** The emitter's state after the paragraphs, then the tables, starting
      from the converter's metadata `m` and line 0. */
  function Extraction(m: FormatMetadata, doc: Document): Emission {
    EmitTables(EmitParagraphs(Emission([], m, 0), doc.paragraphs), doc.tables)
  }

  // ---------------------------------------------------------------------
  // The converter object

  /** The list comprehension of `_process_table` over all rows. */
  method StripCells(rows: seq<seq<string>>) returns (tableData: seq<seq<string>>)
    ensures tableData == TableCells(rows)
  {
    tableData := [];
    for i := 0 to |rows|
      invariant tableData == TableCells(rows[..i])
    {
      assert rows[..i + 1][..i] == rows[..i];
      tableData := tableData + [StripRow(rows[i])];
    }
    assert rows[..|rows|] == rows;
  }

  /** The `markdown_table` list of `_process_table`. */
  method MarkdownTableLines(tableData: seq<seq<string>>) returns (markdownTable: seq<string>)
    requires tableData != []
    ensures markdownTable == TableLines(tableData)
  {
    markdownTable := [MarkdownRow(tableData[0]), MarkdownRow(Dashes(|tableData[0]|))];
    for i := 1 to |tableData|
      invariant |markdownTable| == i + 1
      invariant markdownTable[0] == MarkdownRow(tableData[0])
      invariant markdownTable[1] == MarkdownRow(Dashes(|tableData[0]|))
      invariant forall k :: 2 <= k <= i ==> markdownTable[k] == MarkdownRow(tableData[k - 1])
    {
      markdownTable := markdownTable + [MarkdownRow(tableData[i])];
    }
  }

  /** The formatting steps of `_process_runs` for one run, each layer
      wrapping what the previous ones produced. */
  method ApplyFormatting(run: Run) returns (text: string)
    ensures text == Wrapped(run)
  {
    text := run.text;
    text := if run.superscript then "<sup>" + text + "</sup>"
            else if run.subscript then "<sub>" + text + "</sub>"
            else text;
    text := if run.strike then "~~" + text + "~~" else text;
    text := if run.underline then "<u>" + text + "</u>" else text;
    text := if run.bold && run.italic then "***" + text + "***"
            else if run.bold then "**" + text + "**"
            else if run.italic then "*" + text + "*"
            else text;
  }

  lemma RunsWhole(runs: seq<Run>, line: nat)
    ensures RunsMarkdown(runs[..|runs|]) == RunsMarkdown(runs)
    ensures ParagraphText(runs[..|runs|]) == ParagraphText(runs)
    ensures RunLinks(runs[..|runs|], line) == RunLinks(runs, line)
  {
    assert runs[..|runs|] == runs;
  }

  /** One more run extends the text, the Markdown and the hyperlink
      records by that run's part. */
  lemma RunsSnoc(runs: seq<Run>, i: nat, line: nat)
    requires i < |runs|
    ensures RunsMarkdown(runs[..i + 1]) == RunsMarkdown(runs[..i]) + RunMarkdown(runs[i])
    ensures ParagraphText(runs[..i + 1]) == ParagraphText(runs[..i]) + runs[i].text
    ensures RunLinks(runs[..i + 1], line) == RunLinks(runs[..i], line) + RunLink(runs[i], |ParagraphText(runs[..i])|, line)
  {
    assert runs[..i + 1][..i] == runs[..i];
  }

  class WordToMarkdownConverter {
    var metadata: FormatMetadata
    var currentLine: nat

    constructor()
      ensures metadata == EmptyMetadata && currentLine == 0
    {
      metadata := EmptyMetadata;
      currentLine := 0;
    }

    /** `_process_runs`. */
    method ProcessRuns(runs: seq<Run>) returns (result: string)
      modifies this
      ensures result == RunsMarkdown(runs)
      ensures metadata == old(metadata).(hyperlinks := old(metadata).hyperlinks + RunLinks(runs, currentLine))
      ensures currentLine == old(currentLine)
    {
      result := "";
      var charPosition := 0;
      for i := 0 to |runs|
        invariant result == RunsMarkdown(runs[..i])
        invariant charPosition == |ParagraphText(runs[..i])|
        invariant metadata == old(metadata).(hyperlinks := old(metadata).hyperlinks + RunLinks(runs[..i], currentLine))
        invariant currentLine == old(currentLine)
      {
        RunsSnoc(runs, i, currentLine);
        AppendAssoc(old(metadata).hyperlinks, RunLinks(runs[..i], currentLine), RunLink(runs[i], charPosition, currentLine));
        var text := ProcessRun(runs[i], charPosition);
        result := result + text;
        charPosition := charPosition + |runs[i].text|;
      }
      RunsWhole(runs, currentLine);
    }

    /** One pass of the run loop of `_process_runs`: the run's formatted
        text, or its link, and its hyperlink record at `startPos`. */
    method ProcessRun(run: Run, startPos: nat) returns (text: string)
      modifies this
      ensures text == RunMarkdown(run)
      ensures metadata == old(metadata).(hyperlinks := old(metadata).hyperlinks + RunLink(run, startPos, currentLine))
      ensures currentLine == old(currentLine)
    {
      var endPos := startPos + |run.text|;
      text := ApplyFormatting(run);
      if run.hyperlink {
        metadata := metadata.(hyperlinks := metadata.hyperlinks + [LinkInfo(startPos, endPos, currentLine)]);
        text := "[" + run.text + "](#" + Slug(run.text) + ")";
      } else {
        assert metadata.hyperlinks + [] == metadata.hyperlinks;
      }
    }

    /** `_process_paragraph` at the current line. */
    method ProcessParagraph(p: Paragraph) returns (md: string)
      modifies this
      ensures md == ParagraphLine(p)
      ensures metadata == ParagraphMetadata(old(metadata), old(currentLine), p)
      ensures currentLine == old(currentLine)
    {
      var text := ParagraphText(p.runs);
      if Strip(text) == [] {
        assert KindOf(p) == Blank;
        return "";
      }
      if StartsWith(p.style, "Heading") || StartsWith(p.style, "Title") {
        var level := HeadingLevel(p.style);
        assert KindOf(p) == HeadingKind(level);
        metadata := metadata.(headingLevels := metadata.headingLevels[currentLine := level]);
        return Repeat('#', level) + " " + text;
      }
      if Contains(p.style, "List") || Contains(p.style, "Bullet") || Contains(p.style, "Number") {
        assert KindOf(p) == ListKind(IsBulletStyle(p.style));
        metadata := metadata.(lists := metadata.lists + [ListInfo(currentLine, p.style)]);
        if Contains(p.style, "Bullet") || Contains(p.style, "bullet") {
          return "- " + text;
        }
        return "1. " + text;
      }
      assert KindOf(p) == PlainKind;
      md := ProcessPlainParagraph(p);
    }

    /** The tail of `_process_paragraph` for a paragraph that is neither
        blank, a heading nor a list item: the runs' Markdown, and the
        alignment recorded under the current line. */
    method ProcessPlainParagraph(p: Paragraph) returns (md: string)
      modifies this
      ensures md == LineForKind(PlainKind, p)
      ensures metadata == MetadataForKind(old(metadata), old(currentLine), PlainKind, p)
      ensures currentLine == old(currentLine)
    {
      md := ProcessRuns(p.runs);
      if p.alignment == Center {
        metadata := metadata.(styles := metadata.styles[NatToString(currentLine) := "center"]);
      } else if p.alignment == Right {
        metadata := metadata.(styles := metadata.styles[NatToString(currentLine) := "right"]);
      }
    }

    /** `_process_table` at the current line. */
    method ProcessTable(t: Table) returns (md: string)
      modifies this
      ensures md == TableMarkdown(TableCells(t.rows))
      ensures metadata == TableMetadata(old(metadata), old(currentLine), t)
      ensures currentLine == old(currentLine)
    {
      if |t.rows| == 0 {
        return "";
      }
      var tableData := StripCells(t.rows);
      if |tableData| == 0 || |tableData[0]| == 0 {
        return "";
      }
      metadata := metadata.(tables := metadata.tables + [TableInfo(currentLine, |tableData|, |tableData[0]|, tableData)]);
      var markdownTable := MarkdownTableLines(tableData);
      md := Join("\n", markdownTable);
    }

    /** One pass of the paragraph loop of `_extract_content_and_metadata`:
        a line that is not blank is kept and advances the line counter. */
    method EmitParagraph(p: Paragraph, lines: seq<string>) returns (contentLines: seq<string>)
      modifies this
      ensures Emission(contentLines, metadata, currentLine) ==
              StepParagraph(Emission(lines, old(metadata), old(currentLine)), p)
    {
      ghost var before := Emission(lines, metadata, currentLine);
      var lineContent := ProcessParagraph(p);
      StepParagraphOutcome(before, p, lineContent, metadata);
      contentLines := lines;
      if Strip(lineContent) != [] {
        contentLines := contentLines + [lineContent];
        currentLine := currentLine + 1;
        assert Emission(contentLines, metadata, currentLine) == Emission(before.lines + [lineContent], metadata, before.line + 1);
      } else {
        assert Emission(contentLines, metadata, currentLine) == Emission(before.lines, metadata, before.line);
      }
    }

    /** The paragraph loop of `_extract_content_and_metadata`. */
    method ProcessParagraphs(ps: seq<Paragraph>, lines: seq<string>) returns (contentLines: seq<string>)
      modifies this
      ensures Emission(contentLines, metadata, currentLine) ==
              EmitParagraphs(Emission(lines, old(metadata), old(currentLine)), ps)
    {
      contentLines := lines;
      var start := Emission(lines, metadata, currentLine);
      for i := 0 to |ps|
        invariant Emission(contentLines, metadata, currentLine) == EmitParagraphs(start, ps[..i])
      {
        EmitParagraphsSnoc(start, ps, i);
        contentLines := EmitParagraph(ps[i], contentLines);
      }
      EmitParagraphsWhole(start, ps);
    }

    /** One pass of the table loop of `_extract_content_and_metadata`: a
        table with Markdown adds it as one entry and advances the line by
        its newlines. */
    method EmitTable(t: Table, lines: seq<string>) returns (contentLines: seq<string>)
      modifies this
      ensures Emission(contentLines, metadata, currentLine) ==
              StepTable(Emission(lines, old(metadata), old(currentLine)), t)
    {
      var tableMd := ProcessTable(t);
      contentLines := lines;
      if tableMd != [] {
        contentLines := contentLines + [tableMd];
        currentLine := currentLine + CountChar(tableMd, '\n');
      }
    }

    /** The table loop of `_extract_content_and_metadata`. */
    method ProcessTables(ts: seq<Table>, lines: seq<string>) returns (contentLines: seq<string>)
      modifies this
      ensures Emission(contentLines, metadata, currentLine) ==
              EmitTables(Emission(lines, old(metadata), old(currentLine)), ts)
    {
      contentLines := lines;
      var start := Emission(lines, metadata, currentLine);
      for i := 0 to |ts|
        invariant Emission(contentLines, metadata, currentLine) == EmitTables(start, ts[..i])
      {
        EmitTablesSnoc(start, ts, i);
        contentLines := EmitTable(ts[i], contentLines);
      }
      EmitTablesWhole(start, ts);
    }

    /** `_extract_content_and_metadata`: `current_line` restarts at 0, the
        metadata carries on from earlier conversions. */
    method ExtractContentAndMetadata(doc: Document) returns (content: string)
      modifies this
      ensures content == Join("\n", Extraction(old(metadata), doc).lines)
      ensures metadata == Extraction(old(metadata), doc).meta
      ensures currentLine == Extraction(old(metadata), doc).line
    {
      currentLine := 0;
      var contentLines := ProcessParagraphs(doc.paragraphs, []);
      contentLines := ProcessTables(doc.tables, contentLines);
      content := Join("\n", contentLines);
    }

    /** `convert_docx_to_md` over a value store.  `doc` is None when
        python-docx cannot open the source; `dumps` stands for
        `json.dumps(asdict(...), indent=2)` and `encode` for the UTF-8
        encoding of the written text.  A None result is the exception the
        confirmation prompt raises without a terminal. */
    method ConvertDocxToMd(store: FileSafety.Store, digest: seq<FileSafety.byte> -> string,
                           cfg: FileSafety.SafetyConfig, source: string, target: string,
                           answer: Option<string>, copyOk: bool, doc: Option<Document>,
                           timestamp: string, dumps: FormatMetadata -> string,
                           encode: string -> seq<FileSafety.byte>)
      returns (ok: Option<bool>, store': FileSafety.Store)
      modifies this
      ensures source !in store ==> ok == Some(false) && store' == store && unchanged(this)
      ensures ok == Some(true) <==>
                source in store && doc.Some? &&
                FileSafety.Approved(store, digest, cfg, source, target, answer)
      ensures ok == Some(true) ==>
                var e := Extraction(old(metadata), doc.value);
                && metadata == e.meta.(fileHash := digest(store[source]), conversionTimestamp := timestamp)
                && currentLine == e.line
                && target in store'
                && store'[target] == encode(WithFooter(Join("\n", e.lines), dumps(metadata)))
      ensures ok != Some(true) ==> unchanged(this)
      ensures ok.None? <==>
                source in store && FileSafety.PromptRaises(store, digest, cfg, source, target, answer)
      ensures !(source in store && FileSafety.Approved(store, digest, cfg, source, target, answer)) ==>
                store' == store
      ensures ok != Some(true) ==> FileSafety.OnlyBackupAdded(store, store', target)
      ensures FileSafety.WriteFrame(store, store', target)
      ensures source in store && FileSafety.Approved(store, digest, cfg, source, target, answer)
              && target in store && cfg.createBackup && copyOk ==>
                var b := FileSafety.NextBackup(store, target);
                b in store' && store'[b] == store[target]
    {
      if source !in store {
        return Some(false), store;
      }
      var verdict, backup, s1 := FileSafety.SafeWriteCheck(store, digest, cfg, source, target, answer, copyOk);
      if verdict.None? {
        return None, s1;
      }
      if !verdict.value.canProceed {
        return Some(false), s1;
      }
      if doc.None? {
        return Some(false), s1;
      }
      assert s1[source] == store[source];
      var markdownContent := ExtractContentAndMetadata(doc.value);
      metadata := metadata.(fileHash := FileSafety.FileHash(s1, digest, source));
      metadata := metadata.(conversionTimestamp := timestamp);
      var metadataJson := dumps(metadata);
      var fullContent := WithFooter(markdownContent, metadataJson);
      return Some(true), s1[target := encode(fullContent)];
    }
  }

  // ---------------------------------------------------------------------
  // Reading the formatting back: the wrapping order is recoverable

  /** The formatting a run's Markdown shows.  Superscript hides subscript,
      since only one of the two tags is written. */
  datatype RunStyle = RunStyle(bold: bool, italic: bool, underline: bool, strike: bool,
                               superscript: bool, subscript: bool)

  function StyleOf(r: Run): RunStyle {
    RunStyle(r.bold, r.italic, r.underline, r.strike, r.superscript, r.subscript && !r.superscript)
  }

  /** `s` without `open` at the front and `close` at the back, when both
      are there without overlapping. */
  function Peel(s: string, open: string, close: string): (r: Option<string>)
    ensures r.Some? ==> s == open + r.value + close
  {
    if |open| + |close| <= |s| && StartsWith(s, open) && EndsWith(s, close) then
      var inner := s[|open|..|s| - |close|];
      assert s == s[..|open|] + inner + s[|s| - |close|..];
      Some(inner)
    else None
  }

  /** Whether the layer was there, and what is left inside it. */
  function PeelLayer(s: string, open: string, close: string): (bool, string) {
    match Peel(s, open, close)
    case Some(inner) => (true, inner)
    case None => (false, s)
  }

  /** The emphasis markers, longest first. */
  function PeelEmphasis(s: string): (bool, bool, string) {
    if Peel(s, "***", "***").Some? then (true, true, Peel(s, "***", "***").value)
    else if Peel(s, "**", "**").Some? then (true, false, Peel(s, "**", "**").value)
    else if Peel(s, "*", "*").Some? then (false, true, Peel(s, "*", "*").value)
    else (false, false, s)
  }

  /** Reads the formatting off a wrapped run, outermost layer first. */
  function Unwrap(s: string): (RunStyle, string) {
    var e := PeelEmphasis(s);
    var u := PeelLayer(e.2, "<u>", "</u>");
    var k := PeelLayer(u.1, "~~", "~~");
    var sup := PeelLayer(k.1, "<sup>", "</sup>");
    var sub := if sup.0 then (false, sup.1) else PeelLayer(k.1, "<sub>", "</sub>");
    (RunStyle(e.0, e.1, u.0, k.0, sup.0, sub.0), sub.1)
  }

  /** Run text that does not itself begin like a markup layer. */
  predicate Clean(t: string) {
    t == [] || (t[0] != '*' && t[0] != '<' && t[0] != '~')
  }

  lemma PeelHit(open: string, x: string, close: string)
    ensures Peel(open + x + close, open, close) == Some(x)
  {
    var s := open + x + close;
    assert s[..|open|] == open;
    assert s[|s| - |close|..] == close;
    assert s[|open|..|s| - |close|] == x;
  }

  lemma PeelMiss(s: string, open: string, close: string, k: nat)
    requires k < |open| && k < |s| && s[k] != open[k]
    ensures Peel(s, open, close) == None
  {
    assert |open| <= |s| ==> s[..|open|][k] == s[k];
  }

  lemma UnwrapEmphasis(r: Run)
    requires UnderlineLayer(r) == [] || UnderlineLayer(r)[0] != '*'
    ensures PeelEmphasis(Wrapped(r)) == (r.bold, r.italic, UnderlineLayer(r))
  {
    var t := UnderlineLayer(r);
    var w := Wrapped(r);
    if r.bold && r.italic {
      PeelHit("***", t, "***");
    } else if r.bold {
      if t != [] {
        assert w[2] == t[0];
        PeelMiss(w, "***", "***", 2);
      }
      PeelHit("**", t, "**");
    } else if r.italic {
      if t != [] {
        assert w[1] == t[0];
        PeelMiss(w, "***", "***", 1);
        PeelMiss(w, "**", "**", 1);
      }
      PeelHit("*", t, "*");
    } else if t != [] {
      PeelMiss(w, "***", "***", 0);
      PeelMiss(w, "**", "**", 0);
      PeelMiss(w, "*", "*", 0);
    }
  }

  lemma UnwrapUnderline(r: Run)
    requires Clean(r.text)
    ensures PeelLayer(UnderlineLayer(r), "<u>", "</u>") == (r.underline, StrikeLayer(r))
  {
    var t := StrikeLayer(r);
    if r.underline {
      PeelHit("<u>", t, "</u>");
    } else if r.strike {
      PeelMiss(t, "<u>", "</u>", 0);
    } else if r.superscript || r.subscript {
      assert t[1] == 's';
      PeelMiss(t, "<u>", "</u>", 1);
    } else if t != [] {
      PeelMiss(t, "<u>", "</u>", 0);
    }
  }

  lemma UnwrapStrike(r: Run)
    requires Clean(r.text)
    ensures PeelLayer(StrikeLayer(r), "~~", "~~") == (r.strike, ScriptLayer(r))
  {
    var t := ScriptLayer(r);
    if r.strike {
      PeelHit("~~", t, "~~");
    } else if t != [] {
      PeelMiss(t, "~~", "~~", 0);
    }
  }

  lemma UnwrapScript(r: Run)
    requires Clean(r.text)
    ensures PeelLayer(ScriptLayer(r), "<sup>", "</sup>") ==
              (r.superscript, if r.superscript then r.text else ScriptLayer(r))
    ensures !r.superscript ==>
              PeelLayer(ScriptLayer(r), "<sub>", "</sub>") == (r.subscript, r.text)
  {
    var t := ScriptLayer(r);
    if r.superscript {
      PeelHit("<sup>", r.text, "</sup>");
    } else if r.subscript {
      assert t[3] == 'b';
      PeelMiss(t, "<sup>", "</sup>", 3);
      PeelHit("<sub>", r.text, "</sub>");
    } else if t != [] {
      PeelMiss(t, "<sup>", "</sup>", 0);
      PeelMiss(t, "<sub>", "</sub>", 0);
    }
  }

  /** The wrapping order is fixed, so the layers can be read back off in
      reverse: for text that does not itself start like markup, unwrapping
      the Markdown of a run gives its formatting and its raw text. */
  lemma UnwrapWrapped(r: Run)
    requires Clean(r.text)
    ensures Unwrap(Wrapped(r)) == (StyleOf(r), r.text)
  {
    var t := UnderlineLayer(r);
    assert t == [] || t[0] != '*' by {
      if !r.underline && !r.strike && !r.superscript && !r.subscript {
        assert t == r.text;
      }
    }
    UnwrapEmphasis(r);
    UnwrapUnderline(r);
    UnwrapStrike(r);
    UnwrapScript(r);
  }

  // ---------------------------------------------------------------------
  // Hyperlink offsets

  /** Each hyperlink record locates the raw text of a hyperlink run within
      the paragraph's text, at the sum of the earlier runs' lengths. */
  lemma {:induction false} LinkOffsets(runs: seq<Run>, line: nat, k: nat)
    requires k < |RunLinks(runs, line)|
    ensures var l := RunLinks(runs, line)[k];
            && l.line == line
            && l.start <= l.end <= |ParagraphText(runs)|
            && exists i :: 0 <= i < |runs| && runs[i].hyperlink
                 && l.start == |ParagraphText(runs[..i])|
                 && ParagraphText(runs)[l.start..l.end] == runs[i].text
    decreases |runs|
  {
    var init := runs[..|runs| - 1];
    var last := runs[|runs| - 1];
    var l := RunLinks(runs, line)[k];
    if k < |RunLinks(init, line)| {
      LinkOffsets(init, line, k);
      assert l == RunLinks(init, line)[k];
      var i :| 0 <= i < |init| && init[i].hyperlink
               && l.start == |ParagraphText(init[..i])|
               && ParagraphText(init)[l.start..l.end] == init[i].text;
      LinkInInit(runs, l, i);
    } else {
      assert last.hyperlink && l == LinkInfo(|ParagraphText(init)|, |ParagraphText(init)| + |last.text|, line);
      LinkAtLast(runs, l);
    }
  }

  /** A link located within all runs but the last keeps its place when the
      last run's text is appended. */
  lemma LinkInInit(runs: seq<Run>, l: LinkInfo, i: nat)
    requires i < |runs| - 1
    requires var init := runs[..|runs| - 1];
             && l.start <= l.end <= |ParagraphText(init)|
             && l.start == |ParagraphText(init[..i])|
             && ParagraphText(init)[l.start..l.end] == init[i].text
    ensures l.start <= l.end <= |ParagraphText(runs)|
    ensures l.start == |ParagraphText(runs[..i])| && ParagraphText(runs)[l.start..l.end] == runs[i].text
  {
    var init := runs[..|runs| - 1];
    assert ParagraphText(runs) == ParagraphText(init) + runs[|runs| - 1].text;
    assert init[..i] == runs[..i];
  }

  /** The link of the last run covers its text at the end of the paragraph. */
  lemma LinkAtLast(runs: seq<Run>, l: LinkInfo)
    requires runs != []
    requires var init := runs[..|runs| - 1];
             l.start == |ParagraphText(init)| && l.end == l.start + |runs[|runs| - 1].text|
    ensures l.start <= l.end <= |ParagraphText(runs)|
    ensures l.start == |ParagraphText(runs[..|runs| - 1])|
    ensures ParagraphText(runs)[l.start..l.end] == runs[|runs| - 1].text
  {
    assert ParagraphText(runs) == ParagraphText(runs[..|runs| - 1]) + runs[|runs| - 1].text;
  }

  /** There is one hyperlink record per hyperlink run. */
  lemma {:induction false} LinkCount(runs: seq<Run>, line: nat)
    ensures |RunLinks(runs, line)| == |HyperlinkIndices(runs)|
    decreases |runs|
  {
    if runs != [] {
      var init := runs[..|runs| - 1];
      LinkCount(init, line);
      HyperlinkIndicesSnoc(runs);
    }
  }

  function HyperlinkIndices(runs: seq<Run>): set<nat> {
    set i: nat | i < |runs| && runs[i].hyperlink
  }

  lemma HyperlinkIndicesSnoc(runs: seq<Run>)
    requires runs != []
    ensures |HyperlinkIndices(runs)| ==
            |HyperlinkIndices(runs[..|runs| - 1])| + (if runs[|runs| - 1].hyperlink then 1 else 0)
  {
    var n := |runs| - 1;
    var init := runs[..n];
    var a := HyperlinkIndices(init);
    var b := HyperlinkIndices(runs);
    var c: set<nat> := if runs[n].hyperlink then {n} else {};
    forall x: nat ensures x in b <==> x in a + c {
      if x < n {
        assert init[x] == runs[x];
      }
    }
    assert b == a + c;
    assert a !! c;
  }

  // ---------------------------------------------------------------------
  // Paragraph emission

  /** A run's Markdown is its raw text or begins with a markup character. */
  lemma RunMarkdownHead(r: Run)
    ensures RunMarkdown(r) == r.text || (RunMarkdown(r) != [] && !IsSpace(RunMarkdown(r)[0]))
  {
  }

  /** Markup never turns visible text into a blank line. */
  lemma {:induction false} MarkupKeepsInk(runs: seq<Run>)
    requires !AllSpace(ParagraphText(runs))
    ensures !AllSpace(RunsMarkdown(runs))
    decreases |runs|
  {
    var init := runs[..|runs| - 1];
    var last := runs[|runs| - 1];
    AllSpaceAppend(ParagraphText(init), last.text);
    AllSpaceAppend(RunsMarkdown(init), RunMarkdown(last));
    if !AllSpace(ParagraphText(init)) {
      MarkupKeepsInk(init);
    } else {
      RunMarkdownHead(last);
    }
  }

  /** A paragraph gives a Markdown line exactly when its text is not blank;
      a blank one adds nothing. */
  lemma EmitsIffNonBlank(p: Paragraph)
    ensures Strip(ParagraphLine(p)) != [] <==> Strip(ParagraphText(p.runs)) != []
  {
    var text := ParagraphText(p.runs);
    StripEmptyIff(text);
    StripEmptyIff(ParagraphLine(p));
    if Strip(text) != [] {
      if IsHeadingStyle(p.style) {
        AllSpaceAppend(Repeat('#', HeadingLevel(p.style)) + " ", text);
      } else if IsListStyle(p.style) {
        AllSpaceAppend(if IsBulletStyle(p.style) then "- " else "1. ", text);
      } else {
        MarkupKeepsInk(p.runs);
      }
    }
  }

  /** A blank paragraph changes neither the lines, the metadata nor the
      line counter. */
  lemma BlankParagraphSkipped(e: Emission, p: Paragraph)
    requires Strip(ParagraphText(p.runs)) == []
    ensures StepParagraph(e, p) == e
  {
    assert KindOf(p) == Blank;
    assert ParagraphLine(p) == [];
    assert Strip(ParagraphLine(p)) == [];
  }

  /** Alignment is recorded only for plain paragraphs: a heading or list
      paragraph leaves `styles` alone, and a plain centred or right-aligned
      one records its alignment under its line number. */
  lemma StylesForKind(m: FormatMetadata, line: nat, k: Kind, p: Paragraph)
    ensures k != PlainKind ==> MetadataForKind(m, line, k, p).styles == m.styles
    ensures k == PlainKind ==>
              MetadataForKind(m, line, k, p).styles ==
                match p.alignment
                case Center => m.styles[NatToString(line) := "center"]
                case Right => m.styles[NatToString(line) := "right"]
                case _ => m.styles
  {
  }

  /** Alignment is recorded only for plain paragraphs with text. */
  lemma AlignmentOnlyPlain(m: FormatMetadata, line: nat, p: Paragraph)
    ensures IsHeadingStyle(p.style) || IsListStyle(p.style) ==>
              ParagraphMetadata(m, line, p).styles == m.styles
    ensures !IsHeadingStyle(p.style) && !IsListStyle(p.style) && Strip(ParagraphText(p.runs)) != [] ==>
              ParagraphMetadata(m, line, p).styles ==
                match p.alignment
                case Center => m.styles[NatToString(line) := "center"]
                case Right => m.styles[NatToString(line) := "right"]
                case _ => m.styles
  {
    StylesForKind(m, line, KindOf(p), p);
  }

  // ---------------------------------------------------------------------
  // Table emission

  predicate NoNewlineCells(data: seq<seq<string>>) {
    forall i, j :: 0 <= i < |data| && 0 <= j < |data[i]| ==> '\n' !in data[i][j]
  }

  lemma RowHasNoNewline(cells: seq<string>)
    requires forall j :: 0 <= j < |cells| ==> '\n' !in cells[j]
    ensures '\n' !in MarkdownRow(cells)
  {
    JoinAbsent(" | ", cells, '\n');
  }

  lemma TableLinesNoNewline(data: seq<seq<string>>)
    requires data != [] && NoNewlineCells(data)
    ensures forall k :: 0 <= k < |TableLines(data)| ==> '\n' !in TableLines(data)[k]
  {
    var lines := TableLines(data);
    forall k | 0 <= k < |lines| ensures '\n' !in lines[k] {
      if k == 0 {
        RowHasNoNewline(data[0]);
      } else if k == 1 {
        RowHasNoNewline(Dashes(|data[0]|));
      } else {
        assert lines[k] == MarkdownRow(data[k - 1]);
        RowHasNoNewline(data[k - 1]);
      }
    }
  }

  /** When no cell holds a line break, the emitted table is exactly its
      header line, a separator of one "---" per header cell, and one line
      per data row, and `current_line` advances by the number of rows. */
  lemma TableShape(data: seq<seq<string>>)
    requires data != [] && data[0] != [] && NoNewlineCells(data)
    ensures Split(TableMarkdown(data), '\n') == TableLines(data)
    ensures |TableLines(data)| == |data| + 1
    ensures TableLines(data)[0] == MarkdownRow(data[0])
    ensures TableLines(data)[1] == MarkdownRow(Dashes(|data[0]|))
    ensures forall i :: 1 <= i < |data| ==> TableLines(data)[i + 1] == MarkdownRow(data[i])
    ensures CountChar(TableMarkdown(data), '\n') == |data|
  {
    TableLinesNoNewline(data);
    assert "\n" == ['\n'];
    SplitJoin(TableLines(data), '\n');
    JoinCount(TableLines(data), '\n');
  }

  /** A table with no rows, or whose first row has no cells, is skipped. */
  lemma EmptyTableSkipped(e: Emission, t: Table)
    requires t.rows == [] || t.rows[0] == []
    ensures StepTable(e, t) == e
  {
  }

  // ---------------------------------------------------------------------
  // The document

  /** Emission only appends: earlier lines are kept, in order. */
  lemma {:induction false} TablesAppend(e: Emission, ts: seq<Table>)
    ensures |e.lines| <= |EmitTables(e, ts).lines|
    ensures EmitTables(e, ts).lines[..|e.lines|] == e.lines
    decreases |ts|
  {
    if ts != [] {
      TablesAppend(e, ts[..|ts| - 1]);
    }
  }

  /** All paragraph lines come first, then the tables. */
  lemma TablesAfterParagraphs(m: FormatMetadata, doc: Document)
    ensures var p := EmitParagraphs(Emission([], m, 0), doc.paragraphs);
            |p.lines| <= |Extraction(m, doc).lines| && Extraction(m, doc).lines[..|p.lines|] == p.lines
  {
    TablesAppend(EmitParagraphs(Emission([], m, 0), doc.paragraphs), doc.tables);
  }

  /** While the paragraphs are emitted, `current_line` is the index the
      next line will have, so every line number recorded in the metadata
      during that phase names the paragraph's own Markdown line. */
  lemma {:induction false} LineCounterIsIndex(m: FormatMetadata, ps: seq<Paragraph>)
    ensures EmitParagraphs(Emission([], m, 0), ps).line == |EmitParagraphs(Emission([], m, 0), ps).lines|
    decreases |ps|
  {
    if ps != [] {
      LineCounterIsIndex(m, ps[..|ps| - 1]);
    }
  }

  /** `m1` carries everything recorded in `m0`: the lists only grow at the
      end, keys are never removed, and the fields the emitter never writes
      are untouched. */
  predicate Extends(m0: FormatMetadata, m1: FormatMetadata) {
    && |m0.lists| <= |m1.lists| && m1.lists[..|m0.lists|] == m0.lists
    && |m0.tables| <= |m1.tables| && m1.tables[..|m0.tables|] == m0.tables
    && |m0.hyperlinks| <= |m1.hyperlinks| && m1.hyperlinks[..|m0.hyperlinks|] == m0.hyperlinks
    && m0.headingLevels.Keys <= m1.headingLevels.Keys
    && m0.styles.Keys <= m1.styles.Keys
    && m1.boldRanges == m0.boldRanges && m1.italicRanges == m0.italicRanges
    && m1.images == m0.images
    && m1.fileHash == m0.fileHash && m1.conversionTimestamp == m0.conversionTimestamp
  }

  lemma ExtendsTrans(m0: FormatMetadata, m1: FormatMetadata, m2: FormatMetadata)
    requires Extends(m0, m1) && Extends(m1, m2)
    ensures Extends(m0, m2)
  {
    assert m2.lists[..|m0.lists|] == m2.lists[..|m1.lists|][..|m0.lists|];
    assert m2.tables[..|m0.tables|] == m2.tables[..|m1.tables|][..|m0.tables|];
    assert m2.hyperlinks[..|m0.hyperlinks|] == m2.hyperlinks[..|m1.hyperlinks|][..|m0.hyperlinks|];
  }

  lemma MetadataForKindExtends(m: FormatMetadata, line: nat, k: Kind, p: Paragraph)
    ensures Extends(m, MetadataForKind(m, line, k, p))
  {
    var links := RunLinks(p.runs, line);
    assert (m.hyperlinks + links)[..|m.hyperlinks|] == m.hyperlinks;
  }

  lemma StepParagraphExtends(e: Emission, p: Paragraph)
    ensures Extends(e.meta, StepParagraph(e, p).meta)
  {
    MetadataForKindExtends(e.meta, e.line, KindOf(p), p);
  }

  lemma {:induction false} EmitParagraphsExtends(e: Emission, ps: seq<Paragraph>)
    ensures Extends(e.meta, EmitParagraphs(e, ps).meta)
    decreases |ps|
  {
    if ps != [] {
      var mid := EmitParagraphs(e, ps[..|ps| - 1]);
      EmitParagraphsExtends(e, ps[..|ps| - 1]);
      StepParagraphExtends(mid, ps[|ps| - 1]);
      ExtendsTrans(e.meta, mid.meta, EmitParagraphs(e, ps).meta);
    }
  }

  lemma {:induction false} EmitTablesExtends(e: Emission, ts: seq<Table>)
    ensures Extends(e.meta, EmitTables(e, ts).meta)
    decreases |ts|
  {
    if ts != [] {
      var mid := EmitTables(e, ts[..|ts| - 1]);
      EmitTablesExtends(e, ts[..|ts| - 1]);
      ExtendsTrans(e.meta, mid.meta, EmitTables(e, ts).meta);
    }
  }

  /** A conversion never discards what earlier conversions by the same
      converter recorded: the metadata is not reset between documents. */
  lemma ExtractionExtends(m: FormatMetadata, doc: Document)
    ensures Extends(m, Extraction(m, doc).meta)
  {
    var e := EmitParagraphs(Emission([], m, 0), doc.paragraphs);
    EmitParagraphsExtends(Emission([], m, 0), doc.paragraphs);
    EmitTablesExtends(e, doc.tables);
    ExtendsTrans(m, e.meta, Extraction(m, doc).meta);
  }

  // ---------------------------------------------------------------------
  // Heading levels

  /** Characters that are not digits before the first digit are skipped. */
  lemma {:induction false} FirstDigitsSkip(a: string, b: string)
    requires forall i :: 0 <= i < |a| ==> !IsDigit(a[i])
    ensures FirstDigits(a + b) == FirstDigits(b)
  {
    if a != [] {
      assert (a + b)[0] == a[0];
      assert (a + b)[1..] == a[1..] + b;
      assert forall i :: 0 <= i < |a[1..]| ==> a[1..][i] == a[i + 1];
      FirstDigitsSkip(a[1..], b);
    } else {
      assert a + b == b;
    }
  }

  /** "Title", and every style name without a digit, is level 1. */
  lemma HeadingLevelDefault(s: string)
    requires s == "Title" || forall i :: 0 <= i < |s| ==> !IsDigit(s[i])
    ensures HeadingLevel(s) == 1
  {
  }

  /** The level is the first run of digits in the style name, whatever
      follows it ("Heading 2 Char" has level 2). */
  lemma HeadingLevelNumbered(name: string, digits: string, rest: string)
    requires forall i :: 0 <= i < |name| ==> !IsDigit(name[i])
    requires digits != [] && forall i :: 0 <= i < |digits| ==> IsDigit(digits[i])
    requires rest == [] || !IsDigit(rest[0])
    ensures HeadingLevel(name + digits + rest) == DecimalValue(digits)
  {
    var t := digits + rest;
    AppendAssoc(name, digits, rest);
    FirstDigitsSkip(name, t);
    DigitPrefixRun(digits, rest);
    assert t[0] == digits[0];
    DigitNotTitle(name + t, |name|);
  }

  /** A name with a digit in it is not "Title". */
  lemma DigitNotTitle(s: string, i: nat)
    requires i < |s| && IsDigit(s[i])
    ensures s != "Title"
  {
    if |s| == 5 {
      assert "Title"[i] in "Title";
    }
  }

  lemma {:induction false} DigitPrefixRun(s: string, rest: string)
    requires forall i :: 0 <= i < |s| ==> IsDigit(s[i])
    requires rest == [] || !IsDigit(rest[0])
    ensures DigitPrefix(s + rest) == s
  {
    if s != [] {
      assert (s + rest)[1..] == s[1..] + rest;
      assert forall i :: 0 <= i < |s[1..]| ==> s[1..][i] == s[i + 1];
      DigitPrefixRun(s[1..], rest);
    } else {
      assert s + rest == rest;
    }
  }

  /** Metadata is carried over between conversions while the line counter
      starts again at 0: converting a one-item list records it at line 0
      after whatever the converter held before. */
  lemma ListAccumulates(m: FormatMetadata, p: Paragraph)
    requires KindOf(p).ListKind?
    ensures Extraction(m, Document([p], [])).meta.lists == m.lists + [ListInfo(0, p.style)]
  {
    var e := Emission([], m, 0);
    assert [p][..0] == [];
    assert EmitParagraphs(e, [p]) == StepParagraph(e, p);
    assert StepParagraph(e, p).meta == MetadataForKind(m, 0, KindOf(p), p);
  }

  // ---------------------------------------------------------------------
  // The line counter after a table

  /** The number of text lines `"\n".join(ls)` spans: each entry adds its
      own newlines plus one. */
  function OutputLines(ls: seq<string>): nat {
    if ls == [] then 0 else OutputLines(ls[..|ls| - 1]) + CountChar(ls[|ls| - 1], '\n') + 1
  }

  lemma OutputLinesSnoc(ls: seq<string>, md: string)
    ensures OutputLines(ls + [md]) == OutputLines(ls) + CountChar(md, '\n') + 1
  {
    assert (ls + [md])[..|ls|] == ls;
  }

  /** As written: a table adds `count('\n') + 1` lines but the counter moves
      by `count('\n')`, so a counter that named the next line before the
      table names the table's last line after it. */
  lemma TableCounterLags(e: Emission, t: Table)
    requires e.line == OutputLines(e.lines)
    requires TableMarkdown(TableCells(t.rows)) != []
    ensures StepTable(e, t).line + 1 == OutputLines(StepTable(e, t).lines)
  {
    OutputLinesSnoc(e.lines, TableMarkdown(TableCells(t.rows)));
  }

  /** One emitting table, as written: its text is appended, the counter
      moves by its newlines and one record is added at the old counter. */
  lemma StepTableEmits(e: Emission, t: Table)
    requires TableMarkdown(TableCells(t.rows)) != []
    ensures var md := TableMarkdown(TableCells(t.rows));
            var s := StepTable(e, t);
            && s.lines == e.lines + [md]
            && s.line == e.line + CountChar(md, '\n')
            && |s.meta.tables| == |e.meta.tables| + 1
            && s.meta.tables[|e.meta.tables|].line == e.line
  {
  }

  lemma EmitTwoTables(e: Emission, t: Table)
    ensures EmitTables(e, [t, t]) == StepTable(StepTable(e, t), t)
  {
    var one, two := [t], [t, t];
    assert two[..1] == one && one[..0] == [];
    assert EmitTables(e, one) == StepTable(EmitTables(e, []), t);
    assert EmitTables(e, two) == StepTable(EmitTables(e, one), t);
  }

  /** As written: of two emitting tables in a document without paragraphs,
      the second is recorded at the line count of the first, which is the
      first table's last line and not the second table's header line. */
  lemma SecondTableLineLags(m: FormatMetadata, t: Table)
    requires TableMarkdown(TableCells(t.rows)) != []
    ensures var x := Extraction(m, Document([], [t, t]));
            var md := TableMarkdown(TableCells(t.rows));
            && |x.meta.tables| == |m.tables| + 2
            && x.lines == [md, md]
            && x.meta.tables[|m.tables| + 1].line == CountChar(md, '\n')
            && OutputLines(x.lines[..1]) == CountChar(md, '\n') + 1
  {
    var md := TableMarkdown(TableCells(t.rows));
    var e0 := Emission([], m, 0);
    assert EmitParagraphs(e0, []) == e0;
    var e1 := StepTable(e0, t);
    var x := EmitTables(e0, [t, t]);
    EmitTwoTables(e0, t);
    StepTableEmits(e0, t);
    StepTableEmits(e1, t);
    assert x.lines[..1] == [] + [md];
    OutputLinesSnoc([], md);
  }

  /** The intended step: the counter moves by the number of lines the table
      adds, `count('\n') + 1`. */
  function StepTableIntended(e: Emission, t: Table): Emission {
    var md := TableMarkdown(TableCells(t.rows));
    Emission(if md != [] then e.lines + [md] else e.lines,
             TableMetadata(e.meta, e.line, t),
             if md != [] then e.line + CountChar(md, '\n') + 1 else e.line)
  }

  function EmitTablesIntended(e: Emission, ts: seq<Table>): Emission {
    if ts == [] then e else StepTableIntended(EmitTablesIntended(e, ts[..|ts| - 1]), ts[|ts| - 1])
  }

  /** With the intended step the counter stays the index of the next output
      line through any number of tables, so every table is recorded at the
      line its header is on. */
  lemma {:induction false} IntendedTableCounter(e: Emission, ts: seq<Table>)
    requires e.line == OutputLines(e.lines)
    ensures EmitTablesIntended(e, ts).line == OutputLines(EmitTablesIntended(e, ts).lines)
    decreases |ts|
  {
    if ts != [] {
      var front := EmitTablesIntended(e, ts[..|ts| - 1]);
      IntendedTableCounter(e, ts[..|ts| - 1]);
      OutputLinesSnoc(front.lines, TableMarkdown(TableCells(ts[|ts| - 1].rows)));
    }
  }

  lemma StepTableIntendedEmits(e: Emission, t: Table)
    requires TableMarkdown(TableCells(t.rows)) != []
    ensures var md := TableMarkdown(TableCells(t.rows));
            var s := StepTableIntended(e, t);
            && s.lines == e.lines + [md]
            && s.line == e.line + CountChar(md, '\n') + 1
            && |s.meta.tables| == |e.meta.tables| + 1
            && s.meta.tables[|e.meta.tables|].line == e.line
  {
  }

  lemma EmitTwoTablesIntended(e: Emission, t: Table)
    ensures EmitTablesIntended(e, [t, t]) == StepTableIntended(StepTableIntended(e, t), t)
  {
    var one, two := [t], [t, t];
    assert two[..1] == one && one[..0] == [];
    assert EmitTablesIntended(e, one) == StepTableIntended(EmitTablesIntended(e, []), t);
    assert EmitTablesIntended(e, two) == StepTableIntended(EmitTablesIntended(e, one), t);
  }

  /** The intended step on the two tables above: the second is recorded at
      the line after the first table's last line. */
  lemma IntendedSecondTableLine(m: FormatMetadata, t: Table)
    requires TableMarkdown(TableCells(t.rows)) != []
    ensures var x := EmitTablesIntended(Emission([], m, 0), [t, t]);
            var md := TableMarkdown(TableCells(t.rows));
            && |x.meta.tables| == |m.tables| + 2
            && x.lines == [md, md]
            && x.meta.tables[|m.tables| + 1].line == OutputLines(x.lines[..1])
  {
    var md := TableMarkdown(TableCells(t.rows));
    var e0 := Emission([], m, 0);
    var e1 := StepTableIntended(e0, t);
    var x := EmitTablesIntended(e0, [t, t]);
    EmitTwoTablesIntended(e0, t);
    StepTableIntendedEmits(e0, t);
    StepTableIntendedEmits(e1, t);
    assert x.lines[..1] == [] + [md];
    OutputLinesSnoc([], md);
  }
}
