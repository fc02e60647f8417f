# Word ⇄ Markdown conversion engine, modelled in Dafny

This project models the conversion engine of the `fss-parse-word` tool
(`src/word_converter.py`). The engine has three parts:

- **File safety** (`FileSafetyManager`, module `FileSafety`, `safety.dfy`). It covers:
  - content hashing;
  - collision detection: the target exists, has the same stem and a different digest;
  - the search for a free backup name: `.backup`, then `.backup.1`, `.backup.2`, …;
  - the overwrite prompt;
  - the fixed-order gate `safe_write_check` that runs before every write.
  
  The file system is a map from path to bytes.
- **Word → Markdown** (`WordToMarkdownConverter`, module `WordToMarkdown`, `word_to_md.dfy`):
  - paragraphs become Markdown lines: headings, lists, or plain text whose runs are wrapped in a fixed order;
  - tables are emitted after all paragraphs;
  - a metadata record is filled in and appended as a comment footer (`envelope.dfy`).
  
  The converter is a class. Its `metadata` and `currentLine` fields change as the source's attributes do, and `metadata` is never reset between conversions.
- **Markdown → Word** (`MarkdownToWordConverter`, module `MarkdownToWord`, `md_to_word.dfy`). It handles:
  - YAML front matter (`frontmatter.dfy`) and the merge of its settings into `ConversionConfig` (`config.dfy`);
  - removal of the metadata footer;
  - the line-by-line builder `_build_document`, which works as a two-state machine, in a code block or not;
  - the table parser;
  - the inline-formatting scanner (`inline.dfy`), which gives the pattern at `src/word_converter.py:723` Python's leftmost, in-order, lazy semantics.
  
  The Word document is modelled as the sequence of blocks the builder adds: empty paragraphs, rules, headings, bullets, numbered items, tables as grids of cell text, quotes, code blocks and paragraphs. Each paragraph's runs are given by `ParagraphRuns`.

Every operation that loops or updates state in the source is a Dafny method with a loop or `modifies` clause. It is proved against a specification function, and the properties the source promises are proved about those functions as lemmas. These operations are:

- `_build_document`;
- `_apply_inline_formatting`;
- `_process_runs` and the other `WordToMarkdownConverter` steps;
- `create_backup`;
- `_update_config_from_dict`;
- `_extract_header_box_text`;
- the table collection and population loops.

The model follows what the code does where its own comments say otherwise:

- The comments at `src/word_converter.py:620` and `:626` say that a header box (a text line between two lines of '=') is handled as one box and that its text line and closing divider are skipped. In the code, the horizontal-rule test comes first and already accepts every header-box divider, so the box becomes two rules around an ordinary line.
- The comment at `src/word_converter.py:667` says the lines of a table just processed are skipped. In the code, the assignment only rebinds the loop variable, so every line of a table after the first is read again as the start of a new table.
- `_extract_metadata` catches only `json.JSONDecodeError` (`src/word_converter.py:532`). A JSON value that `FormatMetadata(**…)` cannot take raises a TypeError, which ends the conversion with `False`.

The `check_hash` setting is never read by the source. It is kept in `SafetyConfig` and read by nothing.

## Model

| member | source | states |
|---|---|---|
| FileSafety.NoCollisionCases | src/word_converter.py:173-186 | no collision without an existing target, and none between two files of equal content whatever their names |
| FileSafety.MissingSourceCollides | src/word_converter.py:162-186 | with a real (non-empty) digest, a missing source and an existing target of the same stem collide, since the missing file hashes to "" |
| FileSafety.StemOfFile | src/word_converter.py:179 | the stem of `dir/base.ext` is `base`, whatever the directory |
| FileSafety.BackupCandidateInjective | src/word_converter.py:193-198 | the names `p.backup`, `p.backup.1`, `p.backup.2`, … are pairwise distinct |
| FileSafety.FirstFreeIndex | src/word_converter.py:193-198 | the backup name chosen is free and every earlier candidate exists |
| FileSafety.FirstFreeIsFirst | src/word_converter.py:193-198 | any free candidate preceded only by existing ones is the one chosen |
| FileSafety.BackupSequence | src/word_converter.py:188-205 | with `p.backup` taken, successive backups go to `p.backup.1` and then `p.backup.2` |
| FileSafety.CreateBackup | src/word_converter.py:188-205 | None for a missing file or a failed copy; otherwise the first free candidate, which did not exist before and now holds a copy of the file; nothing else changes |
| FileSafety.ConfirmIffAffirmative | src/word_converter.py:207-213 | whenever confirmation is required, the prompt agrees exactly when the answer, stripped and lower-cased, is "y" or "yes" |
| FileSafety.SafeWriteCheck | src/word_converter.py:215-236 | a collision rejects whatever the flags say; otherwise an existing target under `prevent_overwrite` proceeds only if confirmed; a missing target always proceeds; the result is None exactly when the prompt raises; the backup is made only after approval and never changes the verdict; no file changes and only the backup is added; the reason strings |
| WordToMarkdown.Slug | src/word_converter.py:395 | the link slug has the text's length; each character is '-' where the text has a space and the lower-cased character otherwise, so no space or capital letter remains |
| WordToMarkdown.FirstDigits | src/word_converter.py:316 | the first run of digits of a style name, None exactly when the name has no digit |
| WordToMarkdown.HeadingLevelDefault | src/word_converter.py:312-316 | "Title", and every style name without a digit, is level 1 |
| WordToMarkdown.HeadingLevelNumbered | src/word_converter.py:316 | a style name whose first run of digits is `d`, whatever follows the run, has level `int(d)` |
| WordToMarkdown.ApplyFormatting | src/word_converter.py:357-384 | the run is wrapped as the layered specification gives, inner to outer: script tag, strike, underline, emphasis |
| WordToMarkdown.UnwrapWrapped | src/word_converter.py:357-384 | the wrapping order is recoverable: peeling emphasis, underline, strike and script from a wrapped run gives back its style and text |
| WordToMarkdown.UnwrapEmphasis | src/word_converter.py:378-384 | the outermost layer is `***`, `**` or `*` exactly as the run is bold and italic, bold or italic |
| WordToMarkdown.UnwrapUnderline | src/word_converter.py:373-376 | the `<u>` layer is present exactly when the run is underlined |
| WordToMarkdown.UnwrapStrike | src/word_converter.py:368-371 | the `~~` layer is present exactly when the run is struck through |
| WordToMarkdown.UnwrapScript | src/word_converter.py:360-366 | `<sup>` is used for superscript, `<sub>` only for subscript without superscript |
| WordToMarkdown.WordToMarkdownConverter.constructor | src/word_converter.py:242-245 | a new converter starts with the empty metadata record and line 0 |
| WordToMarkdown.WordToMarkdownConverter.ProcessRuns | src/word_converter.py:346-400 | the Markdown of the runs, with one link record per hyperlink run appended to the metadata |
| WordToMarkdown.WordToMarkdownConverter.ProcessRun | src/word_converter.py:351-398 | one run: its wrapped text, or a link to its slug for a hyperlink run, whose record spans the run from the current character position on the current line |
| WordToMarkdown.LinkOffsets | src/word_converter.py:349-398 | a link record's start is the sum of the raw lengths of the runs before it, and end − start is its own raw length |
| WordToMarkdown.LinkCount | src/word_converter.py:387-394 | there are exactly as many link records as hyperlink runs |
| WordToMarkdown.WordToMarkdownConverter.ProcessParagraph | src/word_converter.py:306-344 | the line and metadata of a paragraph, as the paragraph specification gives them |
| WordToMarkdown.WordToMarkdownConverter.ProcessPlainParagraph | src/word_converter.py:336-344 | a plain paragraph gives the Markdown of its runs and records a centre or right alignment under the current line |
| WordToMarkdown.EmitsIffNonBlank | src/word_converter.py:306-344 | a paragraph gives a non-blank line exactly when its text is not blank, whatever its markup |
| WordToMarkdown.MarkupKeepsInk | src/word_converter.py:355-397 | wrapping never makes a non-blank run text blank |
| WordToMarkdown.BlankParagraphSkipped | src/word_converter.py:291-295 | a blank paragraph changes neither the lines, the metadata nor the line counter |
| WordToMarkdown.StylesForKind | src/word_converter.py:338-342 | only plain paragraphs record an alignment, under their line number, and only centre or right |
| WordToMarkdown.AlignmentOnlyPlain | src/word_converter.py:311-342 | heading and list paragraphs leave the styles map unchanged; a plain centred or right-aligned one records it at its line |
| WordToMarkdown.ListAccumulates | src/word_converter.py:322-328 | a list paragraph appends one record with its line and style to the existing list records |
| WordToMarkdown.WordToMarkdownConverter.ProcessTable | src/word_converter.py:402-432 | the Markdown of the stripped cells, and the table record for a non-empty table |
| WordToMarkdown.StripCells | src/word_converter.py:407-410 | the loop strips every cell of every row |
| WordToMarkdown.TableCells | src/word_converter.py:407-410 | the table has its rows, with every cell stripped |
| WordToMarkdown.MarkdownTableLines | src/word_converter.py:424-432 | the loop builds the header, separator and data rows of the table specification |
| WordToMarkdown.Dashes | src/word_converter.py:427 | the separator has exactly one "---" per header cell |
| WordToMarkdown.TableShape | src/word_converter.py:424-432 | a table of n rows is n + 1 lines: the header, a separator of one "---" per header cell, then the data rows; it holds n newlines, which is how far the line counter moves |
| WordToMarkdown.EmptyTableSkipped | src/word_converter.py:404-413 | a table without rows or with an empty first row changes nothing |
| WordToMarkdown.TablesAfterParagraphs | src/word_converter.py:286-304 | every paragraph line comes before every table line |
| WordToMarkdown.TablesAppend | src/word_converter.py:298-302 | emitting tables only appends lines |
| WordToMarkdown.LineCounterIsIndex | src/word_converter.py:291-295 | after the paragraphs the line counter equals the number of lines emitted |
| WordToMarkdown.TableCounterLags | src/word_converter.py:298-302 | as written: when the counter names the next output line before a table, it names the table's last line after it, one short of the line count |
| WordToMarkdown.SecondTableLineLags | src/word_converter.py:298-302 | as written: of two emitting tables, the second is recorded at the first table's newline count, one less than the line its header is on |
| WordToMarkdown.IntendedTableCounter | src/word_converter.py:298-302 | corrected: moving the counter by the table's line count keeps it the index of the next output line through any tables |
| WordToMarkdown.IntendedSecondTableLine | src/word_converter.py:298-302 | corrected: the second of two tables is recorded at the line its header is on |
| WordToMarkdown.WordToMarkdownConverter.EmitParagraph | src/word_converter.py:292-295 | one paragraph: a non-blank line is appended and advances the counter, as one step of the paragraph emission |
| WordToMarkdown.WordToMarkdownConverter.ProcessParagraphs | src/word_converter.py:291-295 | the lines, metadata and counter after the paragraph loop are those of the paragraph emission |
| WordToMarkdown.WordToMarkdownConverter.EmitTable | src/word_converter.py:299-302 | one table: non-empty Markdown is appended and advances the counter by its newlines |
| WordToMarkdown.WordToMarkdownConverter.ProcessTables | src/word_converter.py:298-302 | the lines, metadata and counter after the table loop are those of the table emission |
| WordToMarkdown.WordToMarkdownConverter.ExtractContentAndMetadata | src/word_converter.py:286-304 | the joined lines, the metadata and the counter are those of the extraction specification, starting from the converter's previous metadata |
| WordToMarkdown.ExtractionExtends | src/word_converter.py:243 | a conversion only adds to the metadata it starts from: the list, table and link records of earlier conversions are kept in order; of the heading levels and alignments only the line keys are kept, since the counter restarts at 0 (src/word_converter.py:289) and a later conversion overwrites the value recorded at the same line |
| WordToMarkdown.WordToMarkdownConverter.ConvertDocxToMd | src/word_converter.py:247-284 | False for a missing source, a rejected gate or an unreadable document; True exactly when the source exists, the gate approves and the document opens, and then the target holds the Markdown with the footer of the updated metadata; None exactly when the prompt raises; a rejected write changes nothing; no file but the target changes, the only names added are the target and its next backup, and an approved backup holds the old target; after True the line counter is where the extraction ended, and otherwise the converter is unchanged |
| Envelope.StripFooter | src/word_converter.py:536-538 | removing the metadata from a body with the footer of line 273 appended gives back exactly the body, when the body holds no footer marker |
| Envelope.StripWithoutFooter | src/word_converter.py:536-538 | text without the footer marker is left unchanged |
| Envelope.ExtractFooter | src/word_converter.py:525-534 | the metadata pattern captures exactly the JSON text of a footer when that text holds no closing "\n-->" |
| Envelope.NoOpeningBefore | src/word_converter.py:527 | the metadata pattern cannot start inside a body that lacks the marker |
| Frontmatter.FrontmatterEnd | src/word_converter.py:493-503 | the closing fence is the first "\n---\n" found from index 4, and exists only after an opening "---\n" |
| Frontmatter.FrontmatterText | src/word_converter.py:503-504 | the YAML text lies between the two fences |
| Frontmatter.StripFrontmatter | src/word_converter.py:508-517 | only a prefix is removed, and nothing without an opening fence |
| Frontmatter.ExtractFrontmatterConfig | src/word_converter.py:493-506 | the loader sees the front-matter text; nothing is loaded without both fences |
| Frontmatter.FrontmatterRoundTrip | src/word_converter.py:493-517 | fence, YAML, fence, body: the loader sees exactly the YAML and stripping leaves exactly the body |
| Frontmatter.UnclosedFrontmatter | src/word_converter.py:508-517 | without a closing fence nothing is loaded or stripped |
| Config.ConversionConfig.constructor | src/word_converter.py:91-154 | a new configuration holds the field defaults and every field |
| Config.DefaultsValid | src/word_converter.py:91-154 | the defaults name exactly the configuration's fields |
| Config.ConversionConfig.UpdateFromDict | src/word_converter.py:519-523 | the settings afterwards are the merge of the old settings with the mapping, whatever the iteration order; the set of settings is kept, so a valid configuration stays valid |
| Config.Merged | src/word_converter.py:519-523 | a merge keeps the same set of settings |
| Config.MergedValid | src/word_converter.py:519-523 | merging keeps every field present and adds none |
| Config.MergedChangesNamedKeys | src/word_converter.py:519-523 | a field named in the mapping takes its value, every other keeps its own |
| Config.MergedIgnoresUnknown | src/word_converter.py:519-523 | keys that name no field change nothing |
| Config.MergedIdempotent | src/word_converter.py:519-523 | merging the same mapping twice is merging it once |
| Config.ParseHex | src/word_converter.py:574 | a parsed number is below 16 to the power of the digit count; the empty string does not parse |
| Config.DecodeColor | src/word_converter.py:571-577 | each decoded component is below 256 |
| Config.DecodeEncode | src/word_converter.py:571-577 | every colour written "#RRGGBB" decodes to its components |
| Config.DecodeIgnoresHash | src/word_converter.py:572 | a leading '#' does not change the colour |
| Config.ShortColourSkipped | src/word_converter.py:573-577 | any colour with four or fewer characters besides '#' (such as "#FFF") leaves the colour unset |
| Config.DecodeColorSomeIff | src/word_converter.py:573-577 | a colour is applied exactly when at least five characters remain once '#' is removed and the first six of them (or all five) are hex digits |
| Config.SixDigitsDecode | src/word_converter.py:571-577 | '#' and six hexadecimal digits always decode |
| Config.DefaultColoursDecode | src/word_converter.py:127-135 | every default heading colour decodes |
| Inline.LazyEnd | src/word_converter.py:723 | the lazy content found is at least the minimum and is followed by its closing delimiter within the text |
| Inline.LazyEndLeast | src/word_converter.py:723 | the content `.+?` takes is the shortest acceptable one, and None means no length is acceptable |
| Inline.DelimitedAtShape | src/word_converter.py:723 | a delimited match is delimiter, shortest non-empty newline-free content, delimiter; no match means no such content exists |
| Inline.LinkSplitOk | src/word_converter.py:723 | a link split is a label and a target closed by ")" |
| Inline.LinkSplitLeast | src/word_converter.py:723 | the label grows only when no target closes the shorter one, and the target is the shortest |
| Inline.LinkAtShape | src/word_converter.py:723 | a link match is "[label](target)" with both parts non-empty |
| Inline.LinkAtLeast | src/word_converter.py:723 | no shorter label gives a link |
| Inline.MatchAt | src/word_converter.py:723 | a match found at a position starts there and lies within the text |
| Inline.MatchAtContent | src/word_converter.py:723 | every match has non-empty content |
| Inline.FirstIndexLeftmost | src/word_converter.py:725 | the scan resumes at the leftmost position where some alternative matches |
| Inline.ApplyInlineFormatting | src/word_converter.py:717-761 | the loop adds the runs the scan specification gives |
| Inline.ScanStep | src/word_converter.py:725-757 | the text before a match is one plain piece, then the match, then the scan from the match's end |
| Inline.ScanCovers | src/word_converter.py:725-761 | gaps and matches cover the text exactly and in order, without overlap |
| Inline.ScanPiecesOk | src/word_converter.py:725-761 | no gap is empty and no match has empty content |
| Inline.NoMatchOnePlainRun | src/word_converter.py:759-761 | a text with no match is one plain run equal to the text |
| Inline.NoMarkupOnePlainRun | src/word_converter.py:717-761 | a text without '*', '`' or '[' is one plain run |
| Inline.DispatchAgrees | src/word_converter.py:731-755 | the prefix dispatch picks the alternative that matched, unless a '*' match has content starting with '*' |
| Inline.InlineRunsAgree | src/word_converter.py:731-755 | with no such match, the runs equal those of a dispatch by alternative |
| Inline.LoneStars | src/word_converter.py:731-744 | a lone "***" is matched by the italic alternative with content "*" but dispatched as bold italic with an empty run |
| Inline.CorrectedNoEmptyRun | src/word_converter.py:731-755 | dispatching by the alternative that matched never adds an empty run |
| MarkdownToWord.Tail | src/word_converter.py:645 | removing the marker takes one character off a non-empty string |
| MarkdownToWord.NumberPrefix | src/word_converter.py:649-650 | a match ends with a '.' inside the line |
| MarkdownToWord.NumberPrefixSome | src/word_converter.py:649-650 | a match is the line's leading whitespace, then at least one digit, then the '.' |
| MarkdownToWord.NumberPrefixNone | src/word_converter.py:649-650 | when nothing matches, no prefix of whitespace followed by one or more digits is followed by a '.' |
| MarkdownToWord.HeadingBlock | src/word_converter.py:634-636 | a line opening with n '#' is a heading of level n whose text is the rest, stripped |
| MarkdownToWord.RowCells | src/word_converter.py:770 | a line cut into p parts at each bar has p − 2 cells (none for two or fewer parts) |
| MarkdownToWord.RowCellsStripped | src/word_converter.py:770 | cell k of a row is part k + 1 of the line, stripped |
| MarkdownToWord.StripAll | src/word_converter.py:770 | each cell is its part, stripped |
| MarkdownToWord.ParseTableRows | src/word_converter.py:766-772 | the loop keeps the rows of the lines without "---" that have cells, in order |
| MarkdownToWord.ParseRowsCount | src/word_converter.py:766-772 | the rows of two runs of lines are the rows of each, counted together |
| MarkdownToWord.PopulateTable | src/word_converter.py:778-794 | the loop fills the grid the table specification gives |
| MarkdownToWord.GridCells | src/word_converter.py:778-794 | the table is rows × header width; each cell is the parsed cell, empty where a row is short, and cells beyond the header's width are dropped |
| MarkdownToWord.PadRowCells | src/word_converter.py:785-790 | a padded row has the width asked for and keeps the row's own cells |
| MarkdownToWord.AddMarkdownTable | src/word_converter.py:763-794 | the blocks the table specification gives: one table when there is a row, none otherwise |
| MarkdownToWord.TableRun | src/word_converter.py:658-663 | the collected lines lie within the text |
| MarkdownToWord.TableRunMaximal | src/word_converter.py:658-663 | every collected line is a table line |
| MarkdownToWord.TableRunStops | src/word_converter.py:658-663 | collection stops at the end of the text or at the first line that is not a table line |
| MarkdownToWord.CollectTableLines | src/word_converter.py:656-663 | the loop collects the line and the run of table lines after it |
| MarkdownToWord.TableLineKind | src/word_converter.py:655 | a table line outside code is classed as a table start and is not a fence |
| MarkdownToWord.LastTableLine | src/word_converter.py:665 | a table line alone at the end adds nothing |
| MarkdownToWord.HeaderBoxIsRule | src/word_converter.py:796-854 | every header-box divider is a horizontal rule |
| MarkdownToWord.HeaderBoxDividerFacts | src/word_converter.py:621-626 | both dividers of a header box are rules, not fences |
| MarkdownToWord.ProcessLine | src/word_converter.py:614-680 | the blocks a line outside code adds, in the fixed order of the tests |
| MarkdownToWord.ProcessBodyLine | src/word_converter.py:649-680 | the numbered, table, quote and plain cases |
| MarkdownToWord.RStripLines | src/word_converter.py:596 | each collected line is its source line without trailing whitespace |
| MarkdownToWord.CodeUntilFence | src/word_converter.py:599-612 | every line up to the closing fence, blank ones included, goes into one code block |
| MarkdownToWord.FencedCode | src/word_converter.py:599-612 | a fenced block adds one code block of the lines between its fences |
| MarkdownToWord.UnclosedFence | src/word_converter.py:610-612 | a code block that is never closed adds nothing |
| MarkdownToWord.BuildDocument | src/word_converter.py:585-680 | the loop adds the blocks of the builder specification, code state and buffer included |
| MarkdownToWord.ExtractHeaderBoxText | src/word_converter.py:856-867 | the stripped text line, with the text line and closing divider blanked in place; None and nothing changed when the lines run out |
| MarkdownToWord.AppliedFrontmatter | src/word_converter.py:462-466 | front matter counts only when it loads to a non-empty mapping |
| MarkdownToWord.FrontmatterApplied | src/word_converter.py:462-470 | applied front matter gives exactly the loaded settings, and the builder receives the text after the fence without its footer |
| MarkdownToWord.EmptyFrontmatterKept | src/word_converter.py:462-466 | front matter that loads to an empty mapping is neither applied nor removed |
| MarkdownToWord.ConvertedFileReadBack | src/word_converter.py:462-470 | a file written by the other direction, without front matter, gives the builder exactly its body and changes no setting |
| MarkdownToWord.MarkdownToWordConverter.constructor | src/word_converter.py:438-441 | the converter keeps the configuration it is given |
| MarkdownToWord.MarkdownToWordConverter.ConvertMdToDocx | src/word_converter.py:443-491 | False for a missing source, a rejected gate, undecodable text, unusable metadata, or settings or blocks that make the styling raise; True exactly otherwise, apart from the failures named under "## Left out", and then the target holds the document of the body; None exactly when the prompt raises; a rejected write changes nothing; no file but the target changes, the only names added are the target and its next backup, and an approved backup holds the old target; the settings are merged from applied front matter whenever the text was read |
| MarkdownToWord.MarkdownToWordConverter.SetupDefaultStyles | src/word_converter.py:540-561 | the default styles are set up without raising exactly when the Normal style's lengths and the heading styles of levels 1 to 6 are usable |
| MarkdownToWord.LevelEntry | src/word_converter.py:567 | `get(level, default)` answers for a mapping, with its entry or the default, and raises for anything else |
| MarkdownToWord.DefaultStylesOfDefaults | src/word_converter.py:91-154 | the default settings style every heading level from 1 to 6 |
| MarkdownToWord.DefaultsBuildIff | src/word_converter.py:632-638 | with the default settings, styling and building fail exactly when a heading is deeper than nine levels, since `add_heading` takes levels 0 to 9 |
| MarkdownToWord.SizesNotMappingFail | src/word_converter.py:563-567 | without a template, a `heading_sizes` that is not a mapping makes the styling raise |
| MarkdownToWord.ColourNotStringFails | src/word_converter.py:570-572 | without a template, a heading colour of levels 1 to 6 that is not a string makes the styling raise |
| MarkdownToWord.MarkdownToWordConverter.ApplyFrontmatter | src/word_converter.py:462-466 | a non-empty front matter mapping is merged into the settings and the front matter is cut off; otherwise text and settings are unchanged |
| MarkdownToWord.TableLinesReprocessed | src/word_converter.py:655-668 | after a table line, the next table line is read again and starts a table of its own |
| MarkdownToWord.ThreeLineTableBlocks | src/word_converter.py:655-668 | three table lines give the table of all three followed by the table of the last two |
| MarkdownToWord.ThreeLineTable | src/word_converter.py:655-668 | a header, separator and data row give two tables |
| MarkdownToWord.LinesUsed | src/word_converter.py:655-668 | the corrected builder uses at least one line and no more than remain |
| MarkdownToWord.IntendedTableConsumesRun | src/word_converter.py:655-668 | the corrected builder adds the table once and continues after its last line |
| MarkdownToWord.IntendedThreeLineTable | src/word_converter.py:655-668 | the corrected builder turns three table lines into one table |
| MarkdownToWord.LineBlocksNoHeaderBox | src/word_converter.py:620-631 | no single line adds a header box |
| MarkdownToWord.NoHeaderBox | src/word_converter.py:620-631 | no document ever contains a header box |
| MarkdownToWord.HeaderBoxAsRules | src/word_converter.py:620-631 | a header box becomes a rule, the text line's own blocks and a rule |
| MarkdownToWord.IntendedHeaderBox | src/word_converter.py:625-631 | the corrected builder makes one header box of the stripped text line and skips both following lines |
| MarkdownToWord.BoldLeadIsBullet | src/word_converter.py:644-645 | a line opening with "**" that is not a rule is a bullet whose text still starts with '*' |
| MarkdownToWord.IntendedBoldLeadParagraph | src/word_converter.py:644-645 | with a marker required to be followed by a space, such a line is a paragraph of the whole line |

## Left out

- Styling through python-docx: fonts, sizes, colours, spacing, borders, style creation, heading styles and the default styles. The blocks stand for what is added; the text decode of a colour is kept (`Config.DecodeColor`). Whether styling raises is modelled for the errors Python raises on the setting's type: a length that `Pt` or `Inches` cannot compute (every string is one: `int` of the string repeated 12700 or 914400 times is either not an integer literal or longer than the 4300-digit limit of `int(str)` in Python 3.11 and later), a heading setting without `get`, a heading colour that is not a string, and a built-in heading deeper than nine levels (`MarkdownToWord.BuildSucceeds`).
- The checks python-docx itself makes on what it is given are not modelled: the range of a length (negative or too large), a float literal that overflows to infinity, font names, line spacing, and the style names looked up in the document (`table_style`, "List Bullet", "List Number", "Quote", and the heading styles of a template). The model lets them pass.
- `MarkdownToWord.LengthAccepts`: follows Python 3.11 and later, where `int` of a string repeated 12700 or 914400 times always raises. On earlier versions, with no digit limit, a string of digits with single underscores between them gives a huge length, which is left to python-docx's range checks; the model rejects every string.
- The template file and the `markdown.Markdown` object built and never used. The template is the flag `template` (a template path is set and exists), which only decides whether the default styles are set up; opening a template file that is not a Word document is not modelled.
- The `metadata` argument to `_build_document`, which is never read. The metadata record of the Markdown → Word direction is only checked for the TypeError that ends the conversion (`MarkdownToWord.MetadataReadable`).
- The `current_list_type` variable of `_build_document`, which is assigned and never read.
- SHA-256 and the streamed 4096-byte read. The digest is a function parameter.
- `json.dumps`, `json.loads`, `yaml.safe_load` and `datetime.now`. They are foreign calls and become parameters (`dumps`, `loads`, `load`, `timestamp`).
- Opening and reading files, UTF-8 decoding with newline translation, writing the output, `shutil.copy2` and the prompt. These become the parameters `decode`, `encode`, `render`, `copyOk` and `answer`. A `None` answer stands for `input()` raising, which nothing catches.
- `print` messages, the command line, `load_config_file`, `create_sample_config`, the installer and packaging.
- Floating-point settings, which are kept as their literal text.
- Python's Unicode `strip`, `lower` and `isspace`, and the Unicode decimal digits that `\d` matches and `int` accepts (src/word_converter.py:316 and :649). Whitespace, case and digits are ASCII (plus the '─' character where the rule test uses it); a style name or numbered line whose digits are not '0'-'9' is read as having none.
- `ParseHex` accepts hexadecimal digits only. Python's `int(s, 16)` also accepts surrounding whitespace, a sign, a "0x" prefix and underscores.
- `backup_suffix` is fixed at ".backup": it is a field of `SafetyConfig` (src/word_converter.py:54) that the command line never sets (src/word_converter.py:1004-1009).
- Paths are normalised strings. `Path.stem` and `with_suffix` are modelled for such names: the backup name is the path with ".backup" and the counter appended.
- `MarkdownToWord.MarkdownToWordConverter.ConvertMdToDocx`: front matter that loads to a non-empty YAML list or scalar, or to a mapping with non-string keys, is not modelled (`load` yields only string-keyed mappings). In the source, merging it raises and the conversion returns False. A failure of `doc.save` is also not modelled: saving always succeeds. A front matter key that names a class attribute rather than a field, such as `__class__` or `__dict__`, is ignored by the model; in the source `setattr` raises for `__class__` and for a `__dict__` that is not a mapping, and replaces every attribute for one that is. The failures python-docx raises itself are listed above.
- `Config.ConversionConfig.UpdateFromDict`: assigns only the keys that name dataclass fields. `hasattr` in the source also accepts the class attributes of `ConversionConfig` (`__class__`, `__dict__`, `__doc__`, `__init__`, `__post_init__` and the rest), and `setattr` then assigns them; the model ignores such keys.
- `WordToMarkdown.WordToMarkdownConverter.ConvertDocxToMd`: a document that cannot be opened is the `None` document. Other failures inside the `try`, such as a failed write, are not modelled.
- `WordToMarkdown.LinkOffsets`: the `hyperlink` flag of a run stands for a `w:hyperlink` element found inside the run's XML (`src/word_converter.py:387`). A `w:r` element does not contain `w:hyperlink` elements (the hyperlink wraps the runs), so in the source this branch very likely never fires, and `LinkOffsets` and `LinkCount` describe a branch that is likely dead. The model also takes a paragraph's text to be the text of its runs. The `paragraph.text` of python-docx 1.x also includes the text of hyperlinks, which `paragraph.runs` leaves out.
- `MarkdownToWord.ExtractHeaderBoxText` is modelled on an array, as it blanks entries of `lines` in place. The builder never reaches it (`MarkdownToWord.NoHeaderBox`), so the effect of blanking on the live `enumerate` is not modelled.
- `Config.Value`: has no list variant and no mapping with keys of mixed types, so a list-valued setting is not modelled. In the source a list such as `heading_sizes: [24, 20]` has no `get` and `font_size: [12]` makes `Pt` raise, so the conversion returns False; the model cannot state such a setting.
- The Markdown → Word direction is modelled as written, so the converter builds `DocumentBlocks`. The corrected builder `DocumentBlocksIntended` is stated beside it for the findings below. Likewise the Word → Markdown table counter is modelled as written (`StepTable`); the corrected step `StepTableIntended` is stated beside it.

## Findings

| source | as written | input that shows it | evidently intended | confidence | as-written member | corrected member |
|---|---|---|---|---|---|---|
| src/word_converter.py:302 | `self.current_line += table_md.count('\n')` moves the counter by the table's newlines, but a table of n rows adds n + 1 lines to the output, so every table after the first is recorded one line too early | a document with no paragraphs and two tables of one row each | the counter moves by `table_md.count('\n') + 1` and the second table is recorded at line 2, where its header is | not executed | WordToMarkdown.SecondTableLineLags | WordToMarkdown.IntendedSecondTableLine |
| src/word_converter.py:668 | `line_num += len(table_lines) - 1` only rebinds the loop variable; `enumerate` still yields the next line, so every later line of a table is read again as a table start | a header row with cells A and B, a separator row, and one data row with cells 1 and 2 | the collected lines are skipped and the three lines give one 2 × 2 table | not executed | MarkdownToWord.ThreeLineTable | MarkdownToWord.IntendedThreeLineTable |
| src/word_converter.py:621-631 | the horizontal-rule test runs first and accepts every line of 20 or more '=', so the header-box test is never reached | a line of 20 '=', a line "Title", a line of 20 '=' | one header box with the text "Title"; reaching it, `_add_header_box` would still raise, as it reads `paragraph_format.border_top` (src/word_converter.py:881), which python-docx's paragraph format does not have, so the corrected member states the blocks and not their styling | not executed | MarkdownToWord.NoHeaderBox | MarkdownToWord.IntendedHeaderBox |
| src/word_converter.py:644-645 | the bullet test looks only at the first character, so a line opening with bold text becomes a bullet | "**Note** read this" becomes the bullet "*Note** read this" | a paragraph whose inline formatting makes "Note" bold | not executed | MarkdownToWord.BoldLeadIsBullet | MarkdownToWord.IntendedBoldLeadParagraph |
| src/word_converter.py:731-744 | the match is dispatched on the prefix of the whole matched text; a lone "***" is matched by the italic alternative, but starts and ends with "***", so the empty bold-italic group is added and the characters are lost | "a *** b" | the run of the alternative that matched: italic "*" | not executed | Inline.LoneStars | Inline.CorrectedNoEmptyRun |
