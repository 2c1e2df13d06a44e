# Proved models of the stm32-toolkit repository

This Dafny project models five cores of the repository and proves what each of them is for.

**Comment-only recoder** (`normalize_comments.py`). A C and C++ source file in UTF-8 or a legacy charset is decoded with exact byte ranges, spliced and lexed as in ISO/IEC 9899:2018 sections 5.1.1.2, 6.4.7 and 6.4.9, and copied with only the non-ASCII characters of comments rewritten; the program then analyses its own copy again. The main result is that this run-time re-check is a theorem: for every file whose first pass is clear, `OUTPUT_NOT_UTF8`, `OUTPUT_NOT_STABLE`, `OUTSIDE_COMMENT_DRIFT`, `OUTPUT_NOT_IDEMPOTENT` and `OUTPUT_BOUND_EXCEEDED` can never be reported, the copy has the same intervals, outside segments and line endings, and a second conversion changes nothing. When a file is ready, and every byte of its copy, is stated independently of the code: over the decoded characters, the view without splices and a tiling of the text by comments, literals, header names and words. The decoder and the scanner are imperative and proved equal to functional specifications; the decoder for every window size.

**History paging, reassembly and export** (`history.py`, `replay.py`, `analysis_workflows.py`, `exports.py`). The greedy pager with its running byte counts, the two row streams behind a cache of verified batches, the page cache, both consumers that glue slices back into batches and the JSON-lines exporter. Following cursors yields every matching value exactly once; the caches are transparent; each consumer accepts exactly the coherent windows; both agree; end to end they return exactly the stored batches; an export is exactly one row per stored value.

**Replay ingest** (`replay.py`). Many ingesters as steps that interleave and crash anywhere. Safety holds in every reachable state and losers never append. Two promises are settled by exact conditions, for every run. An uninterrupted retry of the winning intent returns the same reference exactly if nothing is recorded yet or its window fits in one history page; the page is the one of the paging model, and the document limits make it fit for every session id of up to 12,000 bytes. The code sets no limit on session ids (`paths.py:11`), so that a longer one can overflow the page; such an input, within every modelled limit, is exhibited. And a call reports `EVIDENCE_INTEGRITY_FAILURE` exactly if a reference root is published between its two root reads, the first of which saw no transcript root: a race on a sound store, which a call started after the transcript root is in place never meets.

**Grants between parent and child** (`session_trace.py`). A state machine over files that are created exclusively and written in two steps, of which the second may fail and still leave the file complete, with any number of children, crashes, kills and clocks. At most one child passes the claim, a driver is acquired only by it, under its lease and after the one GO; a success report is truthful, and whenever the deadlines leave time the undisturbed attempt succeeds; every result a child can write passes the parent's validator.

**Resources and fixed points.** Export quota with crash recovery (`exports.py`), watch groups and their pages in real byte sizes (`groups.py`), retention (`history.py`), the two dependency worklists of the release builder (`build_0900_artifacts.py`), window comparison (`analysis.py`) and JSON freezing with its fast path (`models.py`).

Where the source updates state, the model does: `Scanner`, `HistoryStore`, `OperationStores`, `LimitedHashWriter`, `ExportTable`, `GroupTable`, `BatchTable` and `Freezer` are classes whose methods are proved against specification functions, and loops stay loops. Protocols are state machines over their atomic steps.

## Layout

| files | part |
|---|---|
| `basics`, `codecs`, `utf8`, `decode_units`, `decode_source` | bytes, codecs and the decoder |
| `utf8_exact`, `decode_exact`, `decode_refused` | what is decoded, and what is refused, by encodings and spans |
| `logical_view`, `lexer`, `lexer_facts`, `lexer_accounts` | splices, the lexer and what it cannot tell apart |
| `splice_exact`, `regions`, `region_facts`, `comment_regions` | splices by positions, and the regions of a text that the lexer reads |
| `findings`, `scan_state`, `scanner`, `scan_facts`, `scan_blockers`, `scan_totals` | the scanner object and its facts |
| `output`, `analyze`, `analyze_file`, `recheck`, `newlines`, `newline_exact` | the copy, the analysis and the re-check theorem |
| `outside_exact`, `readiness` | when a file is ready, what is written and what is kept |
| `page_size`, `history_page`, `history_query`, `history_store`, `history_cache`, `history_answer`, `page_exact` | pages, queries and caches, and what a page answers |
| `reassembly`, `reassembly_window`, `glue_exact`, `paging_round_trip` | the two consumers, end to end |
| `export_stream`, `export_quota`, `export_recovery`, `export_runs` | exports |
| `replay_window`, `replay_protocol`, `replay_ingest` | replay ingest |
| `session_child`, `grant_protocol`, `grant_progress` | grants |
| `group_page`, `group_text`, `group_store`, `retention`, `dependency_graph`, `wheel_closure`, `comparison`, `comparison_exact`, `json_freeze`, `freeze_paths` | resources and fixed points |

## Hypotheses

- A legacy codec keeps no state between characters, does not move an error span that ends before the input does, decodes the bytes in front of an error, decodes to the empty text only nothing, inverts its encoder, and encodes ASCII as itself (`Codecs.Lawful`). UTF-8 is proved to meet all of this. For line endings also: no non-ASCII character is encoded with a CR or LF byte in it. Text is a sequence of Unicode scalar values.
- Storage keeps batch ids increasing, no batch empty, watches unique within a batch (`models.py:446`) and run and sequence unique (`storage.py:62`). A certain storage fingerprint identifies its version.
- Any single value fits alone in a history page; the code reports corruption otherwise (`history.py:1643-1647`).
- Hashes are injective and stand for what they digest; transactions and single file operations are atomic; ids are never drawn twice; `put_root` creates a root or accepts an equal one.
- A session id has at most 500,000 bytes. The code sets no limit (`paths.py:11`); far beyond this one a reference record would pass the 1 MiB its validation reads (`replay.py:1126-1129`).
- NFC normalization is idempotent and leaves ASCII text as it is.

To check the whole project: `dafny verify dfyconfig.toml`.

## Model

| member | source | states |
|---|---|---|
| Utf8.HeadOfEncoding | skills/normalize-source-comments/scripts/normalize_comments.py:740-948 | the decoder reads an encoded character back, whatever bytes follow |
| Utf8.ScanRestarts | skills/normalize-source-comments/scripts/normalize_comments.py:848-948 | decoding clean bytes followed by others is decoding both, one after the other |
| Utf8.ScanIsStable | skills/normalize-source-comments/scripts/normalize_comments.py:848-948 | an error span that ends before the input does is not moved by appended bytes |
| Utf8.CleanBeforeError | skills/normalize-source-comments/scripts/normalize_comments.py:848-948 | the bytes in front of the first error decode cleanly |
| Utf8.Utf8IsLawful | skills/normalize-source-comments/scripts/normalize_comments.py:740-948 | UTF-8 meets every hypothesis the proofs make about a codec |
| Utf8Exact.CleanExactly | skills/normalize-source-comments/scripts/normalize_comments.py:848-948 | bytes are accepted exactly as the text whose encodings, one behind the other, they are |
| Utf8Exact.ErrorExactly | skills/normalize-source-comments/scripts/normalize_comments.py:848-948 | an error span is reported exactly where a clean prefix ends in front of bytes no encoding begins, and is the longest proper prefix of an encoding there, or one byte |
| Utf8Exact.SpanExactly | skills/normalize-source-comments/scripts/normalize_comments.py:848-948 | in front of the bytes a span of a length is reported exactly if it is that span |
| DecodeUnits.TileSplits | skills/normalize-source-comments/scripts/normalize_comments.py:795-846 | the per-character tiling of a text may be cut wherever the decoder stands between characters |
| DecodeUnits.EncodingScans | skills/normalize-source-comments/scripts/normalize_comments.py:795-846 | units that are their own encodings decode to their characters: decoding inverts encoding |
| DecodeUnits.RecoverRestarts | skills/normalize-source-comments/scripts/normalize_comments.py:848-948 | recovering decoding may stop behind clean bytes and resume with the rest, with its counters carried over |
| DecodeUnits.ErrorIsDecided | skills/normalize-source-comments/scripts/normalize_comments.py:848-948 | an error inside a feed, or at the end of the input, is the next error of the whole remaining input, so carrying only undecided bytes is enough |
| DecodeUnits.EmitSegment | skills/normalize-source-comments/scripts/normalize_comments.py:795-846 | the character loop over body positions accepts a segment exactly when its encodings tile the segment |
| DecodeUnits.ScanRecovering | skills/normalize-source-comments/scripts/normalize_comments.py:848-948 | the windowed decoder with carry ends and, for every window size, returns what one pass over the whole body returns |
| DecodeUnits.DecodeFeed | skills/normalize-source-comments/scripts/normalize_comments.py:848-948 | one feed is consumed, carried or refused exactly as the one-pass form demands |
| DecodeUnits.RecoverTiles | skills/normalize-source-comments/scripts/normalize_comments.py:718-948 | the units of an accepted body tile it exactly, each a character's own encoding or a non-empty span of bytes of 0x80 and above |
| DecodeExact.RecoveredExactly | skills/normalize-source-comments/scripts/normalize_comments.py:848-948 | a body is accepted in the recovering mode exactly as the one list of units that read it, each an encoding or a reported non-ASCII span, within 1,000,000 units and 1,024 spans |
| DecodeRefused.RecoverBehind | skills/normalize-source-comments/scripts/normalize_comments.py:848-948 | decoding goes on behind units that read their bytes as if they stood alone, with the counters carried over |
| DecodeRefused.RefusedExactly | skills/normalize-source-comments/scripts/normalize_comments.py:718-738 | a body is refused for an ASCII byte in a span, or for a 1,025th span, exactly if that is the first thing decoding cannot read |
| DecodeSource.SliceBytes | skills/normalize-source-comments/scripts/normalize_comments.py:740-793 | the recorded offsets of a run of units delimit exactly those units' bytes |
| DecodeSource.DecodeFacts | skills/normalize-source-comments/scripts/normalize_comments.py:740-948 | an accepted file is its mark and its units; strict decoding yields no opaque unit; the unit limit holds |
| DecodeSource.DecodeFile | skills/normalize-source-comments/scripts/normalize_comments.py:740-948 | the imperative decoder returns the specified units with byte ranges that start at the mark, touch and end with the file, so the final tiling check never fires |
| DecodeExact.FileExactly | skills/normalize-source-comments/scripts/normalize_comments.py:740-948 | a file is accepted exactly as the one list of units that read its bytes behind its mark, within both limits; a foreign mark, or a mark in a legacy charset, refuses it |
| DecodeExact.Utf8Reads | skills/normalize-source-comments/scripts/normalize_comments.py:718-948 | in UTF-8 a unit reads its bytes exactly if they are its character's encoding, or it is opaque and they are an error span |
| LogicalView.SpliceKeeps | skills/normalize-source-comments/scripts/normalize_comments.py:952-998 | splicing keeps physical order and drops only ASCII: every non-ASCII character stays visible to the lexer |
| LogicalView.SpliceMasked | skills/normalize-source-comments/scripts/normalize_comments.py:952-998 | replacing non-ASCII characters by question marks changes neither the splices nor the refused forms |
| LogicalView.FindLogicalView | skills/normalize-source-comments/scripts/normalize_comments.py:952-998 | the loop computes the spliced view or the first refused backslash-space-newline |
| SpliceExact.SplicedExactly | skills/normalize-source-comments/scripts/normalize_comments.py:952-998 | a text is refused exactly if a backslash is followed by blanks and a newline, and the first one is reported; otherwise exactly the characters of backslash-newline pairs are left out |
| LexerFacts.SkipSpaceMasked | skills/normalize-source-comments/scripts/normalize_comments.py:1199-1232 | preprocessing space, comments included, is skipped alike in a masked text |
| LexerFacts.DirectiveMasked | skills/normalize-source-comments/scripts/normalize_comments.py:1261-1284 | a directive is read alike in a masked text, header operand included |
| LexerFacts.LineStartImportMasked | skills/normalize-source-comments/scripts/normalize_comments.py:1286-1322 | header-unit imports are recognized and read alike in a masked text |
| LexerFacts.QuotedMasked | skills/normalize-source-comments/scripts/normalize_comments.py:1611-1688 | literals end, continue or are refused alike in a masked text |
| LexerFacts.TokenMasked | skills/normalize-source-comments/scripts/normalize_comments.py:1108-1197 | one turn of the main loop is alike in a masked text |
| LexerFacts.RunMasked | skills/normalize-source-comments/scripts/normalize_comments.py:1108-1688 | the lexer cannot tell a text from one whose non-ASCII characters became question marks: same comments, same end or same refusal |
| LexerAccounts.SkipSpaceAccounted | skills/normalize-source-comments/scripts/normalize_comments.py:1199-1232 | the trace of skipped space lists its comments and raises an alarm for no character twice |
| LexerAccounts.QuotedAccounted | skills/normalize-source-comments/scripts/normalize_comments.py:1611-1688 | every non-ASCII character of a literal raises exactly one alarm |
| LexerAccounts.TokenAccounted | skills/normalize-source-comments/scripts/normalize_comments.py:1108-1197 | one turn accounts for every non-ASCII character it passes |
| LexerAccounts.RunAccounted | skills/normalize-source-comments/scripts/normalize_comments.py:1108-1688 | a scan accounts for every non-ASCII character: comments come in order without overlap and every other one is an alarm; a finished scan read the whole text |
| RegionFacts.RegionMoves | skills/normalize-source-comments/scripts/normalize_comments.py:1108-1688 | at every place each region - comment, literal, header name, word and the rest, delimited by positions - is one move of the lexer, which goes on right behind it |
| CommentRegions.ScanIsTiled | skills/normalize-source-comments/scripts/normalize_comments.py:1108-1688 | a scan completes exactly if regions tile the text: every literal, comment and header name closed, no raw string and no stray backslash |
| CommentRegions.ReportIsTiling | skills/normalize-source-comments/scripts/normalize_comments.py:1108-1688 | whatever tiling there is, the scan reports the comments and the non-ASCII characters of its regions, in order |
| CommentRegions.LiteralsAreSkipped | skills/normalize-source-comments/scripts/normalize_comments.py:1611-1688 | a literal is read over from its quote to its first unescaped closing quote, and scanning goes on behind it |
| CommentRegions.CommentsExactly | skills/normalize-source-comments/scripts/normalize_comments.py:1340-1373 | a comment is reported exactly where an opener stands outside all literals, header names and other comments, and ends with its line or at its first closer |
| CommentRegions.AlarmsExactly | skills/normalize-source-comments/scripts/normalize_comments.py:1569-1609 | an alarm is raised exactly for the non-ASCII characters outside comments |
| ScanState.ReplacementReason | skills/normalize-source-comments/scripts/normalize_comments.py:694-716 | only non-ASCII characters have a replacement reason |
| Scanning.Scanner.MarkContentAt | skills/normalize-source-comments/scripts/normalize_comments.py:1391-1430 | one comment character updates counters, findings and records as specified |
| Scanning.Scanner.AddCommentContent | skills/normalize-source-comments/scripts/normalize_comments.py:1375-1430 | the content of a comment is marked in order and its physical interval merged into the last one when they touch |
| Scanning.Scanner.NoteOutside | skills/normalize-source-comments/scripts/normalize_comments.py:1569-1609 | a non-ASCII character outside comments is reported once; ASCII leaves the scanner as it was |
| Scanning.Scanner.ScanLineComment | skills/normalize-source-comments/scripts/normalize_comments.py:1340-1348 | a line comment ends in front of its newline and only its content is marked |
| Scanning.Scanner.ScanBlockComment | skills/normalize-source-comments/scripts/normalize_comments.py:1350-1373 | a block comment ends behind its first closer or is refused; the newline flag says whether it spans lines |
| Scanning.Scanner.SkipPreprocessingSpace | skills/normalize-source-comments/scripts/normalize_comments.py:1199-1232 | space and comments are skipped up to the first other character or the line's end |
| Scanning.Scanner.ParseHeader | skills/normalize-source-comments/scripts/normalize_comments.py:1234-1259 | a header name ends at its closer and is refused at a newline or the end |
| Scanning.Scanner.ScanDirective | skills/normalize-source-comments/scripts/normalize_comments.py:1261-1284 | a directive consumes its name and, for header directives, the operand |
| Scanning.Scanner.ScanLineStartImport | skills/normalize-source-comments/scripts/normalize_comments.py:1286-1322 | import and export import at a line start consume a header operand; other words are left alone |
| Scanning.Scanner.ScanHeaderOperator | skills/normalize-source-comments/scripts/normalize_comments.py:1324-1338 | a header operator consumes a parenthesized header operand when there is one |
| Scanning.Scanner.ScanWord | skills/normalize-source-comments/scripts/normalize_comments.py:1165-1185 | raw string prefixes are refused; other identifiers are consumed whole |
| Scanning.Scanner.ScanQuoted | skills/normalize-source-comments/scripts/normalize_comments.py:1611-1688 | the literal loop ends at the first unescaped quote and is refused at a newline or the end |
| Scanning.Scanner.ScanToken | skills/normalize-source-comments/scripts/normalize_comments.py:1108-1197 | one turn of the main loop takes the branch the specification takes, line-start state included |
| Scanning.Scanner.RunScan | skills/normalize-source-comments/scripts/normalize_comments.py:1108-1197 | the whole scan ends exactly as the specification and leaves exactly its fields |
| ScanFacts.AddIntervalFacts | skills/normalize-source-comments/scripts/normalize_comments.py:1375-1389 | merging an interval keeps them ordered and disjoint and covers exactly the old and the new content |
| ScanFacts.ApplyAllKeeps | skills/normalize-source-comments/scripts/normalize_comments.py:1375-1430 | intervals come from comments alone and blockers are never forgotten |
| ScanFacts.FoldFacts | skills/normalize-source-comments/scripts/normalize_comments.py:1108-1389 | after a scan every non-ASCII character is inside an interval or under an alarm, and intervals cover comment content only |
| ScanBlockers.AlarmBlocks | skills/normalize-source-comments/scripts/normalize_comments.py:1569-1609 | an alarm on an opaque unit, or on anything in a legacy file, always blocks the file |
| ScanBlockers.ApplyAllCalm | skills/normalize-source-comments/scripts/normalize_comments.py:1391-1567 | marking comment content of plain UTF-8 text never raises a blocker, suppressed ones included |
| ScanTotals.MarkIs | skills/normalize-source-comments/scripts/normalize_comments.py:1391-1567 | marking one character counts it, records it and blocks exactly as its code point, its bytes and the next character say |
| ScanTotals.ApplyAllIs | skills/normalize-source-comments/scripts/normalize_comments.py:1108-1609 | a scan's counters, records and blockers are those of all its comment content, in order |
| Output.BuildOutput | skills/normalize-source-comments/scripts/normalize_comments.py:1749-1792 | the copy is the mark and all units, with exactly the covered non-ASCII ones rewritten |
| Output.OutsideSegments | skills/normalize-source-comments/scripts/normalize_comments.py:1794-1820 | the digest is taken over the mark and the bytes between intervals, empty segments left out |
| Output.OutsideIsKept | skills/normalize-source-comments/scripts/normalize_comments.py:1749-1820 | rewriting comment content leaves every outside segment as it was |
| Analyze.ScanTrigraphs | skills/normalize-source-comments/scripts/normalize_comments.py:1690-1747 | the trigraph search reports up to the first hazardous one and counts what the limit suppressed |
| Analyze.PassIsSound | skills/normalize-source-comments/scripts/normalize_comments.py:1910-2061 | a completed pass leaves ordered, non-empty intervals of units that never start at the first one |
| Analyze.CompletePass | skills/normalize-source-comments/scripts/normalize_comments.py:1910-2061 | a completed pass decoded the file, found no refused splice and scanned to the end |
| AnalyzeFile.RunFirstPass | skills/normalize-source-comments/scripts/normalize_comments.py:1910-2061 | decoding, trigraph search, splicing and scanning, run in order with their early ends |
| AnalyzeFile.AnalyzeBytes | skills/normalize-source-comments/scripts/normalize_comments.py:1910-2221 | the imperative analysis, its recursive re-check included, returns the specified analysis |
| Recheck.OutsideIsPlain | skills/normalize-source-comments/scripts/normalize_comments.py:1910-2165 | in a clear file everything outside comments is decoded text, and ASCII in a legacy charset |
| Recheck.OnlyCommentsChange | skills/normalize-source-comments/scripts/normalize_comments.py:1749-1792 | a unit that the copy changes lies in a comment the lexer found |
| Recheck.CopyKeepsBom | skills/normalize-source-comments/scripts/normalize_comments.py:740-793 | writing the copy neither makes nor removes a byte-order mark |
| Recheck.CopyDecodes | skills/normalize-source-comments/scripts/normalize_comments.py:2110-2135 | the copy is valid UTF-8, within the output bound, and decodes to exactly the derived units |
| Recheck.HazardShows | skills/normalize-source-comments/scripts/normalize_comments.py:2085-2109 | a trigraph that could mislead the second scan is visible in the copy's bytes |
| Recheck.SecondPass | skills/normalize-source-comments/scripts/normalize_comments.py:2136-2165 | analysing the copy finds the same units, the same intervals and no blocker |
| Recheck.ConversionIsIdempotent | skills/normalize-source-comments/scripts/normalize_comments.py:2083-2165 | a second conversion of the copy is ready, writes the same bytes and digests the same outside segments |
| Recheck.RecheckNeverFires | skills/normalize-source-comments/scripts/normalize_comments.py:2083-2165 | for every file whose first pass is clear the report is known in closed form: only the trigraph hazard of explicit replacement can still block, and OUTPUT_BOUND_EXCEEDED, OUTPUT_NOT_UTF8, OUTPUT_NOT_STABLE, OUTSIDE_COMMENT_DRIFT and OUTPUT_NOT_IDEMPOTENT never appear |
| Readiness.ReadyIsReading | skills/normalize-source-comments/scripts/normalize_comments.py:1910-2221 | a ready file decodes, has no refused splice and is tiled by regions |
| Readiness.ReadyExactly | skills/normalize-source-comments/scripts/normalize_comments.py:1910-2221 | such a file is ready exactly if it has no NUL, no hazardous trigraph, no character that blocks inside or outside comments, at most 512 replacements and no hazard in the copy; the output is then, byte for byte, the mark and every unit as it is or, in a comment, in UTF-8 or as a question mark |
| Readiness.CountsExactly | skills/normalize-source-comments/scripts/normalize_comments.py:1375-1448 | the reported counts and records are those of the comment content: non-ASCII characters, rewritten ones and the first 512 replacements |
| Readiness.IntervalsExactly | skills/normalize-source-comments/scripts/normalize_comments.py:1375-1389 | the intervals cover exactly the units from the first to the last character of a comment's content |
| Readiness.OutsideExactly | skills/normalize-source-comments/scripts/normalize_comments.py:1794-1820 | the outside segments hold, none of them empty, the mark and every unit that no comment's content spans |
| Newlines.NewlineInfo | skills/normalize-source-comments/scripts/normalize_comments.py:339-372 | the counting loop computes the line ending counts, CR LF once, and the final ending |
| NewlineExact.EndingsExactly | skills/normalize-source-comments/scripts/normalize_comments.py:339-372 | the counts are the numbers of CR LF pairs, of other LFs and of other CRs, and the final ending is the one the file ends with |
| Newlines.CountByUnit | skills/normalize-source-comments/scripts/normalize_comments.py:339-372 | line endings can be counted unit by unit when no character hides one |
| Newlines.LineEndingsAreKept | skills/normalize-source-comments/scripts/normalize_comments.py:1749-1792 | the copy has as many CR LF, LF and CR endings as its source and the same final one, for every codec whose non-ASCII characters contain no line ending byte |
| Newlines.Utf8HidesNoEnding | skills/normalize-source-comments/scripts/normalize_comments.py:339-372 | UTF-8 is such a codec |
| PageSize.EncodedSize | tools/stm32-monitor/src/stm32_monitor/history.py:529-555 | the fixed-point loop ends at the least self-consistent size |
| PageSize.SizesAreNotUnique | tools/stm32-monitor/src/stm32_monitor/history.py:529-555 | a self-consistent size need not be the only one |
| PageSize.EstimateCovers | tools/stm32-monitor/src/stm32_monitor/history.py:1576-1588 | the estimate with eight spare bytes never falls below the size that is written |
| PageSize.SizeGrows | tools/stm32-monitor/src/stm32_monitor/history.py:529-555 | more bytes never make a smaller page |
| PageExact.SizeIsLength | tools/stm32-monitor/src/stm32_monitor/history.py:529-555 | a page's text, with the decimal count, the cursor or null and its own decimal size in it, is exactly as long as it says, and no smaller size would do |
| PageExact.EstimateIsTight | tools/stm32-monitor/src/stm32_monitor/history.py:1576-1588 | the estimate is at most one byte above the size that would be written |
| HistoryPages.AddItemIsExact | tools/stm32-monitor/src/stm32_monitor/history.py:1575-1630 | the incremental byte and value counts stay those of the slices, and the slices hold the values taken, in place |
| HistoryPages.SelectTakesPrefix | tools/stm32-monitor/src/stm32_monitor/history.py:1467-1635 | a page takes a prefix of the matching values, says exactly whether any remain, and stays within its size promise |
| HistoryPages.CursorResumes | tools/stm32-monitor/src/stm32_monitor/history.py:1281-1300 | the cursor of any value resumes right behind that value |
| HistoryPages.PageIsARun | tools/stm32-monitor/src/stm32_monitor/history.py:1467-1658 | a page from any position holds the next values, at least one while any remain, has a next cursor exactly when more remain, and its recorded size is the true one and within the limit |
| HistoryPages.FollowStep | tools/stm32-monitor/src/stm32_monitor/history.py:1467-1658 | following a cursor continues at the position behind the page |
| HistoryPages.PagingIsExactlyOnce | tools/stm32-monitor/src/stm32_monitor/history.py:1467-1658 | following cursors to the end yields exactly the filtered values, each once and in (batch, ordinal) order |
| PageExact.PageIsFull | tools/stm32-monitor/src/stm32_monitor/history.py:1467-1635 | a page holds at most 10,000 values and at most the limit, and fewer while values remain only if one more would make 4,194,304 bytes or more |
| HistoryAnswers.ItemsExactly | tools/stm32-monitor/src/stm32_monitor/history.py:1281-1325 | a value is among the matching ones exactly if session, capture window, run, group and watch are those asked for, field by field, and it stands behind the cursor |
| HistoryAnswers.ItemsAscend | tools/stm32-monitor/src/stm32_monitor/history.py:1281-1325 | the matching values come in strict (batch, ordinal) order |
| HistoryAnswers.AnswerIsWanted | tools/stm32-monitor/src/stm32_monitor/history.py:1467-1658 | a page holds exactly the values asked for up to its next cursor, in order, and has a next cursor exactly if some are left |
| HistoryQueries.RowsIncrease | tools/stm32-monitor/src/stm32_monitor/history.py:1281-1325 | the row stream has increasing ids and inherits what storage guarantees |
| HistoryQueries.RowsHoldTheItems | tools/stm32-monitor/src/stm32_monitor/history.py:1281-1325 | the row stream and the group filter together hold exactly the values behind the cursor |
| HistoryQueries.RunFits | tools/stm32-monitor/src/stm32_monitor/history.py:1500-1545 | a shorter run of a batch never needs more room than a longer one |
| HistoryQueries.WholeRunIsGreedy | tools/stm32-monitor/src/stm32_monitor/history.py:1500-1552 | when a whole run fits, taking it at once equals taking it value by value |
| HistoryStores.NoSecondMatch | tools/stm32-monitor/src/stm32_monitor/history.py:1467-1475 | with unique watches a selector matches at most one value of a batch |
| HistoryStores.TakeWhole | tools/stm32-monitor/src/stm32_monitor/history.py:1500-1545 | the whole-batch arithmetic computes the true slice and page bytes |
| HistoryStores.TakeOne | tools/stm32-monitor/src/stm32_monitor/history.py:1553-1635 | one value is taken exactly when the count limit allows it and the page fits, or when it is the very last one and the page fits without a cursor |
| HistoryStores.TakeEach | tools/stm32-monitor/src/stm32_monitor/history.py:1553-1635 | the per-value loop is the greedy selection |
| HistoryStores.TakeValues | tools/stm32-monitor/src/stm32_monitor/history.py:1467-1635 | a batch's values, by the fast or the slow path, are taken as the greedy selection takes them |
| HistoryStores.FetchBatch | tools/stm32-monitor/src/stm32_monitor/history.py:1380-1462 | from any payload and index streams a batch is read exactly when they yield it, the stored row is accepted exactly when they agree, and aligned streams stay aligned |
| HistoryCache.StreamsStartHere | tools/stm32-monitor/src/stm32_monitor/history.py:1368-1393 | the streams opened at the first miss are the row stream from that row on |
| HistoryCache.NextBatch | tools/stm32-monitor/src/stm32_monitor/history.py:1354-1462 | cached or read, the batch is the row's, and streams stay aligned, also across group-filtered rows |
| HistoryCache.CheckRow | tools/stm32-monitor/src/stm32_monitor/history.py:1463-1490 | a cursor is refused exactly when its row is missing, filtered out, too short or not matching |
| HistoryCache.ReadPage | tools/stm32-monitor/src/stm32_monitor/history.py:1255-1680 | whatever verified batches are cached, a query answers as plain storage; no corruption is reported on a sound store but for a value that fits no page |
| HistoryCache.KeyAnswers | tools/stm32-monitor/src/stm32_monitor/history.py:1207-1223 | the page key, which clamps the limit, forgets nothing that matters |
| HistoryCache.HistoryStore.Commit | tools/stm32-monitor/src/stm32_monitor/history.py:989-1047 | a write by anyone leaves the caches valid without touching them |
| HistoryCache.HistoryStore.CachedPage | tools/stm32-monitor/src/stm32_monitor/history.py:1229-1250 | a cached page is returned only when it is the answer at the observed version |
| HistoryCache.HistoryStore.Remember | tools/stm32-monitor/src/stm32_monitor/history.py:1691-1720 | a stable read keeps the caches sound and within capacity; an unstable one empties them |
| HistoryCache.HistoryStore.QueryHistory | tools/stm32-monitor/src/stm32_monitor/history.py:1199-1720 | cache transparency: from the page cache, from cached batches with a streamed rest, or from storage alone, the answer is that of storage at a version current during the call; what it answers is, field by field, what was asked for of a version it saw |
| Reassembly.StartedNext | tools/stm32-monitor/src/stm32_monitor/replay.py:1930-1985 | the batches glued so far decide exactly whether the next fragment keeps the window without gap, overlap, reopened batch or changed metadata |
| Reassembly.CompleteMeans | tools/stm32-monitor/src/stm32_monitor/replay.py:1908-1918 | a window is complete fragment by fragment exactly when all its batches are |
| Reassembly.NoneExceeds | tools/stm32-monitor/src/stm32_monitor/replay.py:1977-1980 | in a coherent window no fragment reaches behind its batch |
| Reassembly.PrefixRefuses | tools/stm32-monitor/src/stm32_monitor/replay.py:1930-1985 | every reason to stop early refuses the whole window |
| Reassembly.FinishCurrent | tools/stm32-monitor/src/stm32_monitor/replay.py:1908-1928 | a batch is closed exactly when it is complete and both limits hold |
| Reassembly.AddFragment | tools/stm32-monitor/src/stm32_monitor/replay.py:1930-1985 | a fragment is refused only when the whole window is to be refused |
| Reassembly.GluePhysical | tools/stm32-monitor/src/stm32_monitor/replay.py:1895-1989 | the physical consumer returns batches for exactly the coherent windows within its limits and sequence range, and exactly their batches |
| GlueExact.AcceptedIsCut | tools/stm32-monitor/src/stm32_monitor/replay.py:1828-1989 | the batches of an accepted window are of different keys, as long as their headers say, and hold value for value, each once and in order, what the fragments hold; they are those of the wanted sequences, each once |
| ReassemblyWindow.TakeItem | tools/stm32-monitor/src/stm32_monitor/analysis_workflows.py:786-813 | the state table accepts a slice exactly when the specification does |
| ReassemblyWindow.GlueWindow | tools/stm32-monitor/src/stm32_monitor/analysis_workflows.py:757-836 | the analysis consumer returns batches for exactly the coherent windows of its keys, and exactly their batches |
| ReassemblyWindow.AcceptedKeysCoincide | tools/stm32-monitor/src/stm32_monitor/analysis_workflows.py:786-836 | in an accepted window the two consumers' keys tell the same batches apart |
| ReassemblyWindow.ConsumersAgree | tools/stm32-monitor/src/stm32_monitor/analysis_workflows.py:757-836 | both consumers accept the same fragments and return the same batches |
| PagingRoundTrip.SliceGlues | tools/stm32-monitor/src/stm32_monitor/replay.py:1930-1985 | a slice in its place is accepted and moves the gluing on by its values |
| PagingRoundTrip.SlicesGlueBack | tools/stm32-monitor/src/stm32_monitor/replay.py:1895-1989 | any cut of whole batches into consecutive slices is coherent and glues back into those batches |
| PagingRoundTrip.CursorIsProven | tools/stm32-monitor/src/stm32_monitor/history.py:1463-1490 | a cursor that a page hands out is accepted by the next query |
| PagingRoundTrip.CursorRowDecides | tools/stm32-monitor/src/stm32_monitor/history.py:1463-1490 | a cursor is accepted on a stored batch exactly if the batch agrees with the query field by field and the value at its ordinal is one asked for |
| PagingRoundTrip.NoCursorRow | tools/stm32-monitor/src/stm32_monitor/history.py:1463-1490 | a cursor to no such batch is refused |
| PagingRoundTrip.CursorsDiffer | tools/stm32-monitor/src/stm32_monitor/replay.py:1886-1892 | no two positions share a cursor |
| PagingRoundTrip.CollectSlices | tools/stm32-monitor/src/stm32_monitor/replay.py:1852-1893 | the paging loop of both consumers ends, never sees a cursor twice and collects exactly the matching values |
| PagingRoundTrip.PhysicalHistoryBatches | tools/stm32-monitor/src/stm32_monitor/replay.py:1828-1989 | end to end: the stored batches of the window are returned exactly when they are within the batch and value limits and in the wanted sequence |
| PagingRoundTrip.SelectedExactly | tools/stm32-monitor/src/stm32_monitor/replay.py:1828-1989 | the batches of a window are exactly those stored whose session, run, group and capture time agree |
| PagingRoundTrip.WindowExactly | tools/stm32-monitor/src/stm32_monitor/replay.py:1828-1989 | an accepted window holds exactly the sequences from the first up to, not including, the last, each once and in order |
| PagingRoundTrip.WindowIsAccepted | tools/stm32-monitor/src/stm32_monitor/replay.py:1828-1989 | and every stored window of such sequences within the limits is accepted |
| PagingRoundTrip.QueryWindow | tools/stm32-monitor/src/stm32_monitor/analysis_workflows.py:757-836 | end to end: the same batches under the same condition |
| ExportStreams.SplicedObjects | tools/stm32-monitor/src/stm32_monitor/exports.py:571-592 | splicing two encoded objects with a comma encodes one object with the fields of both |
| ExportStreams.AdjacentItems | tools/stm32-monitor/src/stm32_monitor/exports.py:560-585 | a value that does not open its batch follows one of the same batch, so a prefix refreshed at ordinal 0 is never stale |
| ExportStreams.LimitedHashWriter.constructor | tools/stm32-monitor/src/stm32_monitor/exports.py:147-153 | a new writer has accepted nothing |
| ExportStreams.LimitedHashWriter.Write | tools/stm32-monitor/src/stm32_monitor/exports.py:154-168 | a write is refused exactly when it would pass the limit; digest and count are those of all accepted writes whatever is buffered |
| ExportStreams.LimitedHashWriter.Finish | tools/stm32-monitor/src/stm32_monitor/exports.py:169-173 | after finishing the stream holds all accepted writes |
| ExportStreams.WriteRow | tools/stm32-monitor/src/stm32_monitor/exports.py:555-593 | one value appends exactly its own row; refusal means that a limit of the whole export is passed |
| ExportStreams.StreamHistory | tools/stm32-monitor/src/stm32_monitor/exports.py:479-612 | an export succeeds exactly when value and byte limits hold, and then the file is one row per stored value in order, each with its own batch's fields, digested and counted as written |
| ExportStreams.DocumentExactly | tools/stm32-monitor/src/stm32_monitor/exports.py:555-593 | row by row: each value's row, its batch's members and its own in one object with a newline, lies right behind the rows in front of it; the limits are 1,000,000 rows and 167,772,160 bytes of the whole |
| ExportQuota.AtMostThreePending | tools/stm32-monitor/src/stm32_monitor/exports.py:39-47 | at most three exports are pending |
| ExportQuota.QuotaExactly | tools/stm32-monitor/src/stm32_monitor/exports.py:39-47 | in numbers: 100 exports and 512 MiB, 160 MiB for each and 16 KiB for its manifest |
| ExportQuota.ReadyNeverRefused | tools/stm32-monitor/src/stm32_monitor/exports.py:650-675 | a pending export within the byte limit always passes the quota check and finishing it keeps the quota |
| ExportQuota.DropKeepsQuota | tools/stm32-monitor/src/stm32_monitor/exports.py:677-697 | deleting a pending row keeps the quota |
| ExportQuota.ExportTable.ReservePending | tools/stm32-monitor/src/stm32_monitor/exports.py:614-648 | a reservation is made exactly when a whole export still fits, and changes nothing otherwise |
| ExportQuota.ExportTable.MarkReady | tools/stm32-monitor/src/stm32_monitor/exports.py:650-675 | finishing succeeds exactly while the row is pending; only then can the quota check not speak |
| ExportQuota.ExportTable.DeletePending | tools/stm32-monitor/src/stm32_monitor/exports.py:688-697 | only the pending row goes |
| ExportQuota.RecoverOne | tools/stm32-monitor/src/stm32_monitor/exports.py:786-826 | recovering one more row is finishing or deleting it and leaves all others alone |
| ExportQuota.RecoveredExactly | tools/stm32-monitor/src/stm32_monitor/exports.py:786-826 | recovery leaves exactly the rows that are not pending or not reached, and the reached ones whose files check out, with their size |
| ExportRecovery.PendingRowsAreSorted | tools/stm32-monitor/src/stm32_monitor/exports.py:786-794 | the query of a pass lists exactly the pending rows, each once, by creation time and id |
| ExportRecovery.RecoverPending | tools/stm32-monitor/src/stm32_monitor/exports.py:786-826 | a pass recovers the oldest pending rows it has time for, at most ten, and says exactly whether any row stays pending |
| ExportRecovery.RecoverTwice | tools/stm32-monitor/src/stm32_monitor/exports.py:786-831 | recovering in two passes is recovering at once |
| ExportRecovery.FewerPending | tools/stm32-monitor/src/stm32_monitor/exports.py:786-831 | every recovered row is one pending row less |
| ExportRecovery.RecoverAllPending | tools/stm32-monitor/src/stm32_monitor/exports.py:828-831 | when every pass has time for one row, the bounded loop leaves no row pending |
| ExportRuns.StepKeeps | tools/stm32-monitor/src/stm32_monitor/exports.py:833-920 | every step of an export, a crash after it and every recovery step keep the quota and the match of ready records with verified files |
| ExportRuns.RunsAreSafe | tools/stm32-monitor/src/stm32_monitor/exports.py:833-920 | over every run with crashes anywhere: the quota holds, at most three records are pending, ready records are backed by files, and a published export cannot be refused |
| ExportRuns.CrashThenRecover | tools/stm32-monitor/src/stm32_monitor/exports.py:786-920 | after any run and crash a full recovery leaves every record ready with verified files or removed, and loses no published export |
| ReplayProtocol.ExecKeepsInv | tools/stm32-monitor/src/stm32_monitor/replay.py:2690-2811 | over every run of many ingesters from any safe state the invariants hold and nothing published or recorded changes |
| ReplayProtocol.ReachableIsSafe | tools/stm32-monitor/src/stm32_monitor/replay.py:2690-2811 | in every reachable state a reference root implies the matching transcript root and both files, history is the root's projection or empty, and a returned call has everything in place; an integrity failure is only reported on a store with both roots |
| ReplayProtocol.LosersChangeNothing | tools/stm32-monitor/src/stm32_monitor/replay.py:2757-2797 | only a call of the root's own intent ever appends, once, and roots are never replaced |
| ReplayProtocol.AloneIsARun | tools/stm32-monitor/src/stm32_monitor/replay.py:2690-2811 | an uninterrupted call is one of the system's runs |
| ReplayWindows.SelectAll | tools/stm32-monitor/src/stm32_monitor/history.py:1547-1632 | a greedy unfiltered selection leaves nothing behind exactly when all values fit together, the last of them possibly without room for a cursor |
| ReplayWindows.WholeWindow | tools/stm32-monitor/src/stm32_monitor/history.py:1504-1546 | the page of a whole window holds every batch in one slice, and its bytes are the arithmetic sum over the projected batches |
| ReplayWindows.LoadWindow | tools/stm32-monitor/src/stm32_monitor/replay.py:1246-1287 | the load of the recorded window answers with a page that leaves nothing behind exactly when the window fits, and then rebuilds exactly the recorded batches |
| ReplayWindows.WindowsAreLoadable | tools/stm32-monitor/src/stm32_monitor/replay.py:2700-2706 | no value of an accepted document is too large for a page, so that the load never reports corruption |
| ReplayWindows.ModestWindowsFit | tools/stm32-monitor/src/stm32_monitor/replay.py:2700-2712 | from the document limits alone, a window fits whenever its session id, once for each batch, takes less than 3 MiB less 42 bytes for each batch |
| ReplayWindows.ShortSessionsFit | tools/stm32-monitor/src/stm32_monitor/replay.py:2700-2712 | with a session id of up to 12,000 bytes every accepted document's window fits |
| ReplayWindows.LongSessionsOverflow | tools/stm32-monitor/src/stm32_monitor/replay.py:2700-2712 | with a session id that fills a page when repeated in each batch no document's window fits |
| ReplayWindows.LongIntentOverflows | tools/stm32-monitor/src/stm32_monitor/replay.py:1246-1260 | an input within every modelled limit overflows the page: 255 small batches and a session id of 20,000 bytes, which the code does not forbid |
| ReplayProtocol.SoloCall | tools/stm32-monitor/src/stm32_monitor/replay.py:2690-2811 | an uninterrupted call from any safe store returns, with everything published and recorded, exactly if no other intent holds the root and what is recorded fits in one page, and else changes nothing and reports a conflict |
| ReplayProtocol.SecondRetry | tools/stm32-monitor/src/stm32_monitor/replay.py:2690-2811 | with everything in place a call changes nothing and returns exactly if the window fits |
| ReplayProtocol.WinnerCanRetry | tools/stm32-monitor/src/stm32_monitor/replay.py:2690-2811 | after any run and any crashes an uninterrupted retry of the winning intent returns its reference exactly if nothing is recorded yet or the window fits in one page, and every further one exactly if it fits |
| ReplayProtocol.WinnerAlwaysRetries | tools/stm32-monitor/src/stm32_monitor/replay.py:2690-2811 | with a session id of up to 12,000 bytes the winning intent can retry from every reachable state, again and again |
| ReplayProtocol.RetryCanConflict | tools/stm32-monitor/src/stm32_monitor/replay.py:1259-1260 | an input within every modelled limit whose first call returns and whose retry is refused with OPERATION_CONFLICT |
| ReplayProtocol.IntegrityFailureExactly | tools/stm32-monitor/src/stm32_monitor/replay.py:2744-2750 | in every run a call reports an integrity failure exactly if its first read saw no transcript root and its second read saw a reference root |
| ReplayProtocol.IntegrityFailureIsARace | tools/stm32-monitor/src/stm32_monitor/replay.py:2744-2750 | in every run a call reports an integrity failure exactly if a reference root is published between its two reads, the first of which saw no transcript root; without a publication between the reads it never does |
| ReplayProtocol.NoFailureAfterRoot | tools/stm32-monitor/src/stm32_monitor/replay.py:2744-2750 | a call that starts when the transcript root is in place never reports an integrity failure |
| ReplayProtocol.IntegrityFailureCanBeSpurious | tools/stm32-monitor/src/stm32_monitor/replay.py:2744-2750 | the race happens: any intent has a run that reports EVIDENCE_INTEGRITY_FAILURE on a sound store |
| ReplayIngest.OperationStores.PutTranscriptRoot | tools/stm32-monitor/src/stm32_monitor/replay.py:2774-2787 | a root is created or an equal one accepted; a different one stays |
| ReplayIngest.OperationStores.PutReferenceRoot | tools/stm32-monitor/src/stm32_monitor/replay.py:1383-1440 | a reference root is created or an equal one accepted; a different one stays |
| ReplayIngest.OperationStores.AppendBatches | tools/stm32-monitor/src/stm32_monitor/history.py:1049-1139 | the append is all or nothing and refused when a row exists |
| ReplayIngest.OperationStores.LoadExistingBatches | tools/stm32-monitor/src/stm32_monitor/replay.py:1246-1287 | one history page is read through the modelled query, and the load fails or rebuilds the batches as specified |
| ReplayIngest.OperationStores.IngestMonitorReplay | tools/stm32-monitor/src/stm32_monitor/replay.py:2690-2811 | the ingest method ends exactly as the step-by-step call run alone and keeps the store safe |
| SessionChild.RunGranted | docs/codex/returns/SESSION-TRACE/session_trace.py:1739-1811 | the granted part of the child leaves the specified record for every behaviour of the backend |
| SessionChild.WorkIsTruthful | docs/codex/returns/SESSION-TRACE/session_trace.py:1739-2066 | counters, flags and the log of operations agree exactly unless the backend enumerates and then fails with another error; then only that count is wrong and no success is reported |
| SessionChild.SuccessIsCounted | docs/codex/returns/SESSION-TRACE/session_trace.py:1793-1811 | whatever the backend does, a record of which success is reported is truthful |
| SessionChild.WorkAcquiresOnce | docs/codex/returns/SESSION-TRACE/session_trace.py:1739-1811 | at every point of the granted work the driver has been acquired at most once, and before anything else |
| SessionChild.SuccessIsComplete | docs/codex/returns/SESSION-TRACE/session_trace.py:735-758 | a result the parent calls successful stands for exactly one of each backend operation in order and a released lease |
| SessionChild.VerdictsAgree | docs/codex/returns/SESSION-TRACE/session_trace.py:1793-1811 | the child's own verdict and the parent's are the same |
| SessionChild.WrittenResultsValidate | docs/codex/returns/SESSION-TRACE/session_trace.py:655-732 | every result a child can write passes the parent's validator, given a well-formed lease id and fingerprint |
| GrantProtocol.ChildStepKeeps | docs/codex/returns/SESSION-TRACE/session_trace.py:1888-2136 | every child step keeps the child's part of the invariant |
| GrantProtocol.NextKeeps | docs/codex/returns/SESSION-TRACE/session_trace.py:1002-2136 | every step of any process, stray child, kill, termination or clock change keeps the protocol's invariant |
| GrantProtocol.ExecKeeps | docs/codex/returns/SESSION-TRACE/session_trace.py:1002-2136 | the invariant holds over every run |
| GrantProtocol.ClaimIsForever | docs/codex/returns/SESSION-TRACE/session_trace.py:352-367 | a completed claim is never replaced |
| GrantProtocol.OneChildPassesTheClaim | docs/codex/returns/SESSION-TRACE/session_trace.py:1895-1930 | over a whole run and all that follows at most one child passes the claim |
| GrantProtocol.GrantSafety | docs/codex/returns/SESSION-TRACE/session_trace.py:1176-1266 | only the launched child ever acquires a driver, at most once, under a GO of the parent that names its pid, request, source and lease, was written after its validated READY and claim, and was accepted before the deadline |
| GrantProgress.AcceptsExactly | docs/codex/returns/SESSION-TRACE/session_trace.py:1855-1886 | a polling child accepts exactly a complete GO for its own identity and lease, issued by the deadline and read before it, while nobody asked it to terminate |
| GrantProgress.UndisturbedSucceeds | docs/codex/returns/SESSION-TRACE/session_trace.py:1002-1522 | whenever the deadlines leave time, the undisturbed attempt of any pid under any portable lease ends in a reported success, with one of each operation in order |
| GrantProtocol.AcquiresUnderLease | docs/codex/returns/SESSION-TRACE/session_trace.py:1855-1999 | the acquiring step is that of the child working on its accepted GO, taken while it holds the lease its GO names |
| GrantProtocol.SuccessIsTruthful | docs/codex/returns/SESSION-TRACE/session_trace.py:1425-1522 | exit code 0 is reported exactly with ok, and ok implies child exit 0, one of each operation in order, an error-free release and the one GO |
| GroupPages.CursorsAreShort | tools/stm32-monitor/src/stm32_monitor/groups.py:67-80 | real cursors are at most as long as the one the check uses and as a page accepts |
| GroupPages.PlainWatchesBytes | tools/stm32-monitor/src/stm32_monitor/groups.py:234-240 | watches without byte pairs are bounded by their limits |
| GroupPages.AdmittedFitsAlone | tools/stm32-monitor/src/stm32_monitor/groups.py:234-240 | every admitted group fits alone in a page: byte pairs because they are measured, the others by arithmetic on their limits |
| GroupPages.ListGroupPage | tools/stm32-monitor/src/stm32_monitor/groups.py:144-195 | the page loop returns the longest run of groups each prefix of which fits, or the specified refusal |
| GroupPages.PagesProgress | tools/stm32-monitor/src/stm32_monitor/groups.py:144-195 | a page of admitted groups takes at least one group and is within the byte limit |
| GroupPages.GroupPagingIsComplete | tools/stm32-monitor/src/stm32_monitor/groups.py:144-195 | at constant revision the pages end and concatenate to the whole list |
| GroupPages.StaleCursorsAreRefused | tools/stm32-monitor/src/stm32_monitor/groups.py:82-107 | a cursor is refused exactly when the ids and revisions of the list changed |
| GroupPages.StaleExactly | tools/stm32-monitor/src/stm32_monitor/groups.py:82-107 | field by field: it is refused exactly if the number of groups, some id or some revision is another |
| GroupPages.ListedExactly | tools/stm32-monitor/src/stm32_monitor/groups.py:144-195 | a page holds the groups from its cursor on, in place, as many as fit 1,044,480 bytes one by one and at most 16, and its next cursor stands right behind them |
| GroupTexts.PageIsItsText | tools/stm32-monitor/src/stm32_monitor/groups.py:169-189 | the measured size of a page is the length in UTF-8 of its JSON text, escapes included, for any identities, times and token of the given lengths |
| GroupStores.InsertSorts | tools/stm32-monitor/src/stm32_monitor/groups.py:150-160 | the list stays in name order |
| GroupStores.InsertAllKeepsLimits | tools/stm32-monitor/src/stm32_monitor/groups.py:242-253 | an admitted import keeps every limit |
| GroupStores.InsertAllAdds | tools/stm32-monitor/src/stm32_monitor/groups.py:392-447 | an import adds exactly its groups |
| GroupStores.RoomExactly | tools/stm32-monitor/src/stm32_monitor/groups.py:242-253 | in numbers: 128 groups, 256 watches in one, 4,096 in all, and a page for a group with a byte pair |
| GroupStores.GroupTable.CreateGroup | tools/stm32-monitor/src/stm32_monitor/groups.py:255-289 | a valid group is created exactly when the limits and its name allow it, and all limits hold afterwards |
| GroupStores.GroupTable.UpdateGroup | tools/stm32-monitor/src/stm32_monitor/groups.py:291-363 | an update replaces exactly one group of the expected revision, or changes nothing |
| GroupStores.GroupTable.DeleteGroup | tools/stm32-monitor/src/stm32_monitor/groups.py:365-390 | a delete removes exactly one group of the expected revision, or changes nothing |
| GroupStores.GroupTable.ImportGroups | tools/stm32-monitor/src/stm32_monitor/groups.py:392-447 | an import adds all its groups, when all are valid, new and within the limits, or none |
| Retention.Longest | tools/stm32-monitor/src/stm32_monitor/history.py:1912-1932 | the selected batches are the longest prefix a pass may delete |
| Retention.DeletesExactly | tools/stm32-monitor/src/stm32_monitor/history.py:1876-1932 | in numbers: at most 100 batches and, beyond one, 512 values; some exactly if one is more than 604,800,000,000,000 ns old or there are more than 268,435,456 bytes; only old ones while there are any, and as many as allowed |
| Retention.BatchTable.CountExpired | tools/stm32-monitor/src/stm32_monitor/history.py:1911-1914 | the expired batches are the first ones in query order |
| Retention.BatchTable.SelectPrefix | tools/stm32-monitor/src/stm32_monitor/history.py:1921-1932 | the loop takes the first candidate always and more only while the value limit allows |
| Retention.BatchTable.RunRetention | tools/stm32-monitor/src/stm32_monitor/history.py:1876-1974 | a pass deletes, in the plain numbers of `DeletesFirst`, the longest allowed prefix, at most 100 batches, unexpired ones only when none is expired and the cap is exceeded, keeps the byte account, reports further work exactly when there is some or it ran out of time, and changes nothing when it is out of time earlier |
| Retention.DueMeansProgress | tools/stm32-monitor/src/stm32_monitor/history.py:1911-1932 | a pass deletes at least one batch exactly when work is due |
| Retention.SettledMeansNotDue | tools/stm32-monitor/src/stm32_monitor/history.py:1960-1966 | no work is due exactly when nothing is expired and the cap is met or the table empty |
| Retention.DueIsEvident | tools/stm32-monitor/src/stm32_monitor/history.py:1960-1974 | work is due after a pass exactly when its own evidence shows it: earliest time expired, or rows left over the cap |
| Retention.MoreWorkIsKept | tools/stm32-monitor/src/stm32_monitor/history.py:1960-1974 | moreWork of a pass implies that the next pass at the same time deletes at least one batch exactly if the pass was in time at its end, left nothing, or its evidence shows work |
| Retention.SlowPassMayAnnounceNothing | tools/stm32-monitor/src/stm32_monitor/history.py:1963-1964 | the failing case: a pass over one recent batch that is out of time at its end reports moreWork, and every next pass in time deletes nothing |
| Retention.RepeatedPassesSettle | tools/stm32-monitor/src/stm32_monitor/history.py:1876-1974 | repeated passes at one time settle the table within as many passes as it has batches; what is left is a suffix and every batch that went was due |
| DependencyGraph.ReachableIsLeast | tools/release/build_0900_artifacts.py:573-595 | reachable names are in every closed set with the roots |
| DependencyGraph.ClosureIsReachable | tools/release/build_0900_artifacts.py:573-595 | a closed set of reachable names with all roots is exactly the set of reachable names |
| WheelClosure.CloseNames | tools/release/build_0900_artifacts.py:570-595 | the worklist ends with exactly the reachable names whatever the order of the roots, or stops exactly when one of them has no single compatible wheel |
| WheelClosure.SelectWheels | tools/release/build_0900_artifacts.py:555-630 | a bundle is returned exactly when every reachable name has one compatible wheel and all pins and specifiers hold; it is that bundle |
| WheelClosure.CloseBundle | tools/release/build_0900_artifacts.py:1014-1037 | the verifier's worklist ends with exactly the reachable names, or stops exactly when one is missing or a specifier is unmet |
| WheelClosure.VerifyClosure | tools/release/build_0900_artifacts.py:1014-1043 | a bundle is accepted exactly when its names are those reachable from the expected direct names and all specifiers and pins hold |
| WheelClosure.SelectionVerifies | tools/release/build_0900_artifacts.py:1014-1043 | a selection with product wheels whose own requirements it meets passes the verifier |
| WheelClosure.DirectNamesExactly | tools/release/build_0900_artifacts.py:555-569 | the direct names are every directly pinned name but the build tools and, for selection, the products |
| WheelClosure.DemandsExactly | tools/release/build_0900_artifacts.py:596-630 | pin by pin and requirement by requirement: every pinned name that a bundle holds has an equal version, and every applicable requirement of every wheel is met |
| WheelClosure.EdgesExactly | tools/release/build_0900_artifacts.py:573-595 | the graphs that are followed lead from a wheel to exactly the names of its applicable requirements |
| Comparison.Sorted | tools/stm32-monitor/src/stm32_monitor/analysis.py:1309-1311 | the positions are each relative time once, in ascending order |
| Comparison.AnalyzeMonitorWindows | tools/stm32-monitor/src/stm32_monitor/analysis.py:1269-1390 | the pair loop computes the specified comparison record |
| ComparisonExact.RecordExactly | tools/stm32-monitor/src/stm32_monitor/analysis.py:1307-1390 | the record counts and sums up the pairs of values at exactly the times at which both windows have one reading of one kind |
| ComparisonExact.ChangedExactly | tools/stm32-monitor/src/stm32_monitor/analysis.py:1354-1390 | a completed record says that values are unchanged exactly if they agree at every such time |
| ComparisonExact.PositionsExactly | tools/stm32-monitor/src/stm32_monitor/analysis.py:1307-1311 | the positions are exactly the relative times of either window |
| Comparison.RecordValidates | tools/stm32-monitor/src/stm32_monitor/analysis.py:427-508 | every computed record passes its own validator, and pairs and exclusions add up to the positions |
| Comparison.ShiftInvariant | tools/stm32-monitor/src/stm32_monitor/analysis.py:1307-1311 | moving either window in time changes no statistic |
| Comparison.SwapNegates | tools/stm32-monitor/src/stm32_monitor/analysis.py:1354-1390 | swapping the windows swaps the statistics, negates the deltas and changes nothing else |
| JsonFreeze.KeyIsStable | tools/stm32-monitor/src/stm32_monitor/models.py:97 | normalizing a key twice is normalizing it once |
| JsonFreeze.KeyIsNormalized | tools/stm32-monitor/src/stm32_monitor/models.py:97 | the shortcut for ASCII keys is no exception: a key is always its normal form |
| JsonFreeze.KeysExactly | tools/stm32-monitor/src/stm32_monitor/models.py:158-177 | keys of one normal form are refused together, and every key of a frozen object is the normal form of its own |
| FreezePaths.FrozenExactly | tools/stm32-monitor/src/stm32_monitor/models.py:83-181 | path by path: a value is frozen exactly if every part is within 32 levels, signed 64-bit or finite, of a JSON type and with keys distinct in normal form, with at most 10,000 parts and 1,048,576 characters in all; the frozen value has the same paths and each part frozen |
| FreezePaths.CountsExactly | tools/stm32-monitor/src/stm32_monitor/models.py:83-181 | the budgets count the paths of a value, each once, and the characters of its strings and normalized keys |
| FreezePaths.ThawedAt | tools/stm32-monitor/src/stm32_monitor/models.py:183-191 | thawing keeps every path, every scalar and every key and makes lists and objects plain |
| JsonFreeze.Freezer.Freeze | tools/stm32-monitor/src/stm32_monitor/models.py:122-181 | the recursion accepts a part exactly when it is sound and affordable after what was spent before, and spends exactly its own nodes and characters |
| JsonFreeze.Freezer.FreezeEntries | tools/stm32-monitor/src/stm32_monitor/models.py:158-177 | an object is frozen entry by entry with distinct normalized keys, or refused exactly when an entry is |
| JsonFreeze.FreezeFlat | tools/stm32-monitor/src/stm32_monitor/models.py:87-117 | whatever the fast path refuses or freezes, the recursion does the same |
| JsonFreeze.FreezeJson | tools/stm32-monitor/src/stm32_monitor/models.py:83-181 | with or without the fast path exactly the values within depth, node and string limits are accepted, with the same result |
| JsonFreeze.FreezeThawFreeze | tools/stm32-monitor/src/stm32_monitor/models.py:83-191 | freeze, thaw and freeze again is the same value |

## Left out

- Message texts, lines, columns, the excerpt fields and the final sorting and bounding of findings (`normalize_comments.py:1862-1908`): a finding is its code, severity and byte offset; findings about the whole file have none, also where the code reports the offset of a decode error.
- Legacy codecs themselves: they are abstract under the hypotheses above, and the interpreter's test for unassigned characters is a parameter.
- The outside-comment digest is the list of segments that is hashed; reading, reparse checks, plans, markers, previews and writing of the recoder.
- File-system and operating system checks: fsync, permissions, hard links and inode identity.
- SQL, HMAC and base64 of cursors: a query sees the rows its clauses select, and a cursor is its position; a forged or foreign cursor is refused before the modelled code begins. Validation of query fields.
- Isolation copies of cached pages and batches, and the transient cache of the exporter's uncached queries.
- The checks after gluing that compare bindings, capture times, watches and digests with a reference (`replay.py:1990-2012`, `analysis_workflows.py:838-882`), and empty batches.
- A selector that occurs twice in one batch: storage forbids it, and the code would then not measure a second slice of the batch.
- CSV exports, the prefetching thread, and exporters that run concurrently with recovery: recovery removes a pending record whose files are not yet published.
- Storage errors inside recovery, which leave a row pending for a later pass; leftover directories without a row.
- Retention over storage that does not exist yet, and any claim that a pass deletes as little as possible: it may delete below the cap.
- Deletion of replay history by retention: an ingest then finds its root with no history and appends it again.
- History of other runs and workspaces, which the load never selects; the fields of a replay batch other than session, sequence and capture time, and its JSON nodes and bytes beyond lower bounds.
- Physical publication (`publish_physical_monitor_run`), the validation of reference fields and of document bytes, and provider failures other than a crash.
- In the grant protocol: what the surroundings answer to the granted work is drawn when the work starts, not call by call; process and pipe handling, the health server, native tracebacks, the lease manager, error texts, a failed write of the attempt report, and exceptions outside the modelled steps.
- Group descriptions and timestamps beyond their sizes; groups stored by versions that did not check limits; names are compared by an abstract fold.
- Requirement parsing, name normalization, version ordering, wheel metadata, licences and the other checks of a release bundle: requirements come parsed, with their markers evaluated.
- Comparison of floating point values, the native statistics of the second request schema, and the identity checks in front of the comparison; `Comparison.WindowOk` is what they leave.
- Cyclic JSON values, which the finite model values cannot express, and the difference between kinds of refusal.
- Diff and report rendering, authentication, command lines, protocol framing, user interface and packaging: easy members or glue.
