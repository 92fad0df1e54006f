# string-db-tools in Dafny

A Dafny model of the command-line tools that work on STRING DB /
JensenLab tagger data: documents in the `database_documents.tsv` format
(six TAB-separated fields, the text escaped), tagged spans in the
`all_matches.tsv` format (eight fields, inclusive character or byte
offsets), brat standoff `.ann` files and the `protein.aliases` table.

The model covers:

- the shared line formats (`common.py`);
- the span comparison engine of `comparespans.py`:
  - validation, type filtering and deduplication of spans;
  - the boundary sweep that finds every overlapping pair of spans from the two sources;
  - the TP/FP/FN/overlap statistics, their merging, precision/recall/F-score and trimming;
  - the rule that selects documents for output;
- title/abstract cutting of documents and tags (`cutdocuments.py`, `cuttags.py`);
- the character-to-byte offset table (`char_to_byte_offsets.py`);
- the conversion of tagger output to standoff (`tagger2standoff.py`);
- alias selection (`filter_protein_aliases.py`);
- the diverse-file selection (`select_diverse_standoffs.py`);
- standoff retyping (`retype_standoff.py`);
- tag filtering by document id (`filtertags.py`).

Python exceptions are values of a `Result` type whose error names the
exception class (`ValueError`, `KeyError`, `IndexError`,
`ZeroDivisionError`, `AssertionError`, `StopIteration`,
`UnboundLocalError`). A tool that reads a file is modelled as a function
of the file's lines, and a tool that prints is modelled as one that
returns the printed lines. Python's mutable span objects become
immutable values. Each span carries an `id` standing for its object
identity, so two spans that are different objects are different values.

Modules and files:

| file | module | models |
|---|---|---|
| wrappers.dfy | Wrappers | `Option`, `Result`, the Python exception kinds |
| pystrings.dfy | PyStrings | `str.split`, `join`, `rstrip`, `lower`, `str()` of integers, and `int()` on signed ASCII decimal strings |
| seqs.dfy | Seqs | filtering, counting and subsequences of sequences |
| spans.dfy | SpanModel | the span value and `matches` / `overlap_matches` |
| common.dfy | StringDb | the document and span line formats |
| preprocess.dfy | SpanPreprocess | `validate_spans`, `filter_spans`, `deduplicate_spans` |
| sweep.dfy | SpanSweep | the boundary sort and sweep of `compare_document_spans` |
| stats.dfy | SpanStats | the `Stats` counters, `add_stats`, precision/recall/F-score |
| trim.dfy | SpanTrim | `Stats.trim` |
| compare.dfy | SpanCompare | `compare_document_spans` and the merge into the running total |
| select.dfy | DocumentSelection | `select_document_for_output` |
| cut.dfy | Cutting | `cut_document`, `get_offset_map`, `apply_offset_map`, the cut summary |
| byteoffsets.dfy | ByteOffsets | UTF-8 widths and `make_offset_map` |
| standoff.dfy | Standoff | `normalize_type`, `deduplicate_spans` with sources, `.txt`/`.ann` output |
| aliases.dfy | ProteinAliases | `filter_protein_aliases` |
| diverse.dfy | DiverseStandoffs | `load_textbounds` and the selection loop |
| retype.dfy | Retype | `retype_standoff`, `load_type_map` |
| filtertags.dfy | TagFilter | `filter_tags` |

## Model

| member | source | states |
|---|---|---|
| StringDb.UnescapeEscape | common.py:43-58 | unescaping the escaped form of any text gives the text back: `\\` and `\t` are the only escapes |
| StringDb.UnescapeShorter | common.py:43-58 | unescaping never lengthens a text |
| StringDb.UnescapeNoBackslash | common.py:43-58 | a text without a backslash is left unchanged |
| StringDb.UnescapeGreedy | common.py:47-55 | escapes are read left to right: `\\t` is a literal backslash followed by `t`, not a backslash and a TAB |
| StringDb.ParseInputLine | common.py:61-67 | a document line fails to parse with ValueError exactly when it does not have six TAB fields after the newline is stripped |
| StringDb.ParseDocumentLine | common.py:61-67 | a document written with its text escaped parses back to the same document |
| StringDb.ParseSpanLine | common.py:70-77 | after the trailing newlines are stripped, a span line parses exactly when it has eight TAB-separated fields whose fourth and fifth parse as integers; the span's fields are those eight parts, the offsets as parsed; every failure is ValueError |
| StringDb.ParseWrittenSpanLine | common.py:70-77 | a span written as its eight TAB fields parses back to the same span |
| StringDb.SpanLineNeedsNumbers | common.py:75 | eight fields whose start is not an integer give ValueError |
| SpanPreprocess.ValidateSpans | comparespans.py:166-176 | a span is kept exactly when the document slice at its offsets equals its text; the kept spans keep their input order |
| SpanPreprocess.ValidatedInRange | comparespans.py:169-170 | for offsets inside the text, agreement means the inclusive slice is the span's text |
| SpanPreprocess.ValidatedSpanInside | comparespans.py:169-170 | an agreeing span of the right length lies inside the document and selects its text |
| SpanPreprocess.FilterSpans | comparespans.py:179-184 | with no type list (absent or empty) every span is kept; otherwise exactly the spans whose lower-cased type is listed, in order |
| SpanPreprocess.DeduplicateSpansSpec | comparespans.py:187-199 | one span per (start, end, type) key survives, the first of its key, holding the serials of its whole group in input order; no key is lost or added |
| SpanPreprocess.DeduplicateSpansIsDedupSpec | comparespans.py:187-199 | the loop equals the declarative reference (representatives with their group's serials) |
| SpanPreprocess.RepresentativesAreFirst | comparespans.py:194-195 | every kept span is the first occurrence of its key |
| SpanPreprocess.RepresentativesInOrder | comparespans.py:192-195 | the kept spans are a subsequence of the input |
| SpanPreprocess.RepresentativesKeys | comparespans.py:192-198 | kept keys are distinct and are exactly the input's keys |
| SpanPreprocess.KeyIndex | comparespans.py:193-197 | finds the kept span with a given key, or reports that no span has it |
| SpanSweep.Boundaries | comparespans.py:208-211 | two events per span |
| SpanSweep.SortEvents | comparespans.py:212 | the events are sorted by offset, END before START at equal offsets, and are a permutation of the input |
| SpanSweep.InsertEvent | comparespans.py:212 | inserting into a sorted list keeps it sorted and adds exactly the event |
| SpanSweep.Compared | comparespans.py:223-239 | a START meets every open span of the other source, oriented as (source1 span, source2 span); nothing is compared when both sources have the same name |
| SpanSweep.Remove | comparespans.py:242-243 | an END removes exactly its span from the open set |
| SpanSweep.SweepReportsCrossOverlaps | comparespans.py:220-243 | for any sorted order of the boundaries of well-formed spans the sweep succeeds and compares each cross-source overlapping pair exactly once |
| SpanSweep.SweepSuffix | comparespans.py:222-243 | the sweep from any point compares exactly the overlapping pairs whose later start is still ahead |
| SpanSweep.SweepSucceedsIffWellFormed | comparespans.py:220-243 | the sweep fails exactly when some span ends before it starts |
| SpanSweep.SweepFailsOnInvertedSpan | comparespans.py:242-243 | an inverted span's END comes before its START, so deleting it from the open set fails |
| SpanSweep.SweepFailsAtEarlyEnd | comparespans.py:242-243 | an END event for a span that is not open fails the sweep |
| SpanSweep.SweepSameSource | comparespans.py:225 | with equal source names the sweep compares nothing |
| SpanSweep.SweepSucceedsIndependently | comparespans.py:222-243 | whether the sweep fails does not depend on the source names |
| SpanSweep.StartBeforeEnd | comparespans.py:207-212 | in the sorted order a well-formed span starts before it ends |
| SpanSweep.OpenOverlaps | comparespans.py:223 | a span started while another is open overlaps it |
| SpanStats.NewStats | comparespans.py:49-59 | a new `Stats` knows only its source pair and holds no counts or texts |
| SpanStats.AddCount | comparespans.py:79-89 | add_tp/fp/fn raise one counter by one and one text count by one, and change nothing else |
| SpanStats.AddOverlap | comparespans.py:91-93 | add_overlap counts the TAB-joined pair of texts and changes nothing else |
| SpanStats.AddCountCommute | comparespans.py:79-89 | counting in either order gives the same statistics |
| SpanStats.AddOverlapCommute | comparespans.py:91-93 | overlap counts commute |
| SpanStats.AddStats | comparespans.py:61-77 | counters add for every pair, text tables add for the other's pairs only, and the sources are united |
| SpanStats.AddStatsCountsCommute | comparespans.py:61-65 | merging is commutative on the counters |
| SpanStats.AddStatsSourcesCommute | comparespans.py:61-65 | merging is commutative on the source pairs |
| SpanStats.AddStatsCountsAssociative | comparespans.py:61-65 | merging is associative on the counters |
| SpanStats.AddStatsSymmetric | comparespans.py:61-65 | merging two statistics that are symmetric between the two directions of a pair keeps them symmetric |
| SpanStats.AddStatsDropsForeignTables | comparespans.py:62-77 | text counts of a pair that is not among the other's sources are not carried over |
| SpanStats.MergedSources | comparespans.py:107-110 | the sources are the pairs holding a counter |
| SpanStats.Ratio | comparespans.py:131-139 | a quotient with `0` when the denominator is 0 lies in [0, 1]; it is 0 exactly for no hits and 1 exactly for all hits |
| SpanStats.Precision | comparespans.py:131-134 | precision is in [0, 1] and 0 without predictions |
| SpanStats.Recall | comparespans.py:136-139 | recall is in [0, 1] and 0 without gold spans |
| SpanStats.FScoreClosedForm | comparespans.py:141-143 | the F-score equals 2·TP / (2·TP + FP + FN), and 0 without true positives |
| SpanStats.HarmonicClosedForm | comparespans.py:141-143 | the harmonic mean of precision and recall is the closed form |
| SpanStats.FScoreBounds | comparespans.py:141-143 | the F-score is in [0, 1]; it is 1 exactly when there are hits and no errors, and above 1/2 exactly when FP + FN < 2·TP |
| SpanTrim.MaxOfIsMax | comparespans.py:154 | a non-empty table has a maximal count that some entry reaches |
| SpanTrim.TableMax | comparespans.py:154 | the loop finds the maximal count |
| SpanTrim.TrimTable | comparespans.py:157-160 | trimming only removes entries and keeps counts |
| SpanTrim.TrimTableKeeps | comparespans.py:157-160 | an entry survives exactly when its count times the ratio is not below any count |
| SpanTrim.TrimKeepsMaximum | comparespans.py:153-160 | a trimmed non-empty table keeps its maximum, and what survives is within the ratio of it |
| SpanTrim.TrimTableIdempotent | comparespans.py:145-160 | trimming twice is trimming once |
| SpanTrim.TrimOne | comparespans.py:153-161 | one table's loop produces the trimmed table, counting each examined entry and each removed one |
| SpanTrim.DropRare | comparespans.py:157-161 | the removal loop drops exactly the rare entries |
| SpanTrim.TrimPair | comparespans.py:149-161 | the four tables of one pair are trimmed; nothing is counted when all are empty |
| SpanTrim.TrimSources | comparespans.py:147-161 | every source pair's tables are trimmed; the total is 0 exactly when all of them are empty |
| SpanTrim.Trim | comparespans.py:145-163 | trimming gives the trimmed statistics and trimmed <= total; the summary division fails with ZeroDivisionError exactly when every table is empty |
| SpanTrim.TrimmedStatsTables | comparespans.py:148-152 | trimming leaves the counters alone and trims exactly the text tables of the handled pairs |
| SpanTrim.TrimmedStatsNone | comparespans.py:147 | before any pair is handled nothing has changed |
| SpanCompare.CompareCounts | comparespans.py:202-253 | on distinct well-formed spans the comparison succeeds; TP counts overlapping pairs that match, in both directions; each side's spans without a partner are its FN and the reverse direction's FP |
| SpanCompare.CompareFailsIffInverted | comparespans.py:202-253 | the comparison fails, with KeyError, exactly when a span ends before it starts |
| SpanCompare.CompareSymmetric | comparespans.py:202-253 | one document's statistics are symmetric: TP equal both ways, FN of one direction is FP of the other |
| SpanCompare.CompareSources | comparespans.py:206-253 | the source pairs of the result are the given pair and possibly its reverse |
| SpanCompare.CompareReverseSource | comparespans.py:236-252 | the reverse pair is among the sources exactly when the document has a span on either side |
| SpanCompare.CompareOverlapTable | comparespans.py:232-239 | overlap texts are only recorded for (source1, source2), and only in exact mode |
| SpanCompare.CompareTexts | comparespans.py:202-253 | on distinct well-formed spans the text tables count, for each text x: in the TP table of (source1, source2) the corresponding cross pairs whose first span has text x, in that of (source2, source1) those whose second span has text x; in FN of a side's own direction and FP of the reverse, that side's spans with text x and no partner |
| SpanCompare.CompareOverlapEntries | comparespans.py:232-239 | the overlap table of (source1, source2) counts, under each key `x + TAB + y`, the cross pairs that overlap with matching type, are not true positives and have texts x and y |
| SpanCompare.CompareSameSource | comparespans.py:225-252 | with equal names nothing is matched, and every span of both sides counts as FP and FN of the one pair |
| SpanCompare.OverlapModeFindsMore | comparespans.py:232-233 | overlap mode never finds fewer true positives nor more unmatched spans |
| SpanCompare.SweepLog | comparespans.py:220-243 | the comparison log is duplicate-free and lists exactly the overlapping (source1, source2) pairs |
| SpanCompare.LogTruePositives | comparespans.py:232-237 | the TP count is the number of corresponding overlapping pairs |
| SpanCompare.LogLonely | comparespans.py:245-252 | the unmatched spans are those without a corresponding partner |
| SpanCompare.MarkedFirstPartners | comparespans.py:234-245 | a source1 span is marked exactly when it has a partner |
| SpanCompare.MarkedSecondPartners | comparespans.py:235-246 | a source2 span is marked exactly when it has a partner |
| SpanCompare.BookedCounts | comparespans.py:222-252 | the booking of the log gives the reference counts |
| SpanCompare.BookedOverlapTable | comparespans.py:238-239 | overlap texts only for the forward pair in exact mode |
| SpanCompare.BookedTexts | comparespans.py:222-252 | the booking of the log gives the reference text tables |
| SpanCompare.BookedOverlapEntries | comparespans.py:232-239 | the booking of the log gives the reference overlap table |
| SpanCompare.BookLogText | comparespans.py:225-235 | the log adds to the TP table of (source1, source2) the true positives whose first span has the text, and to that of (source2, source1) those whose second span has it; FN and FP tables are untouched |
| SpanCompare.BookLogOverlapEntries | comparespans.py:225-239 | the log adds to the overlap table of (source1, source2) its pairs that overlap with matching type without being true positives, under the key of their two texts |
| SpanCompare.BookUnmatchedText | comparespans.py:240-252 | an unmatched span adds its text to the FN table of its own direction and the FP table of the reverse |
| SpanCompare.LogCountIf | comparespans.py:202-239 | any count over the log of a predicate holding only of overlapping pairs equals that count over all cross pairs |
| SpanCompare.CrossPairs | comparespans.py:209-243 | the pairs of one span from each side, all of them |
| SpanCompare.CompareAndMergeCounts | comparespans.py:334-337 | each compared document adds its reference counts to the running total |
| SpanCompare.CompareAndMergeKeepsSymmetry | comparespans.py:332-337 | the running total stays symmetric between the two directions of a pair |
| DocumentSelection.LeastPair | comparespans.py:282 | the first pair in sorted order is the least source pair |
| DocumentSelection.PairLessTotal | comparespans.py:282 | the tuple order is total, so the first sorted pair is well defined |
| DocumentSelection.SelectDocumentForOutput | comparespans.py:280-307 | IndexError when the statistics have no sources, ZeroDivisionError for an empty text, otherwise the gate on the first pair |
| DocumentSelection.GateIff | comparespans.py:283-307 | a document is selected exactly when it has an annotation, two distinct lower-cased texts, at least one tag per 100 characters, and 1/2 < F-score < 1, i.e. some disagreement with FP + FN < 2·TP |
| DocumentSelection.GateNeedsDisagreement | comparespans.py:300-305 | perfect agreement or no true positive is never selected |
| Cutting.CutDocument | cutdocuments.py:23-30 | a document is cut exactly when its text has more than two TAB sections; an uncut text is unchanged |
| Cutting.CutDocumentPrefix | cutdocuments.py:26-29 | the cut text is a proper prefix with exactly two sections |
| Cutting.CutDocumentIdempotent | cutdocuments.py:23-30 | a cut document is not cut again |
| Cutting.TitleAbstractIsPrefix | cuttags.py:30-35 | title and abstract are a prefix followed by a TAB |
| Cutting.GetOffsetMap | cuttags.py:25-37 | no map for at most two sections; otherwise one entry per character, the identity on title and abstract and None after |
| Cutting.CutAgreement | cuttags.py:25-37 | the tag cutter maps exactly the characters the document cutter keeps |
| Cutting.PyIndex | cuttags.py:45 | list indexing with Python's negative indices and IndexError out of range |
| Cutting.ApplyTiabMap | cuttags.py:42-54 | for spans inside the text, exactly the spans inside title and abstract are kept, in order and unchanged |
| Cutting.ApplyOffsetMapOutOfRange | cuttags.py:45 | a span ending past the text raises IndexError |
| Cutting.KeptTagsReadSame | cuttags.py:42-54 | a kept span reads the same text in the cut document as in the original |
| Cutting.CutShareAsWritten | cutdocuments.py:33-42 | the summary as written divides by the last index: it fails exactly for files of at most one document, with UnboundLocalError for an empty file and ZeroDivisionError for one document; otherwise the share times the last index is the cut count |
| Cutting.CutShareAsWrittenWrong | cutdocuments.py:33-42 | two cut documents of two are reported as 200%; one document raises ZeroDivisionError; an empty file raises UnboundLocalError |
| Cutting.CutShare | cutdocuments.py:41 | the intended share is absent exactly for an empty file; otherwise it is in [0, 1], is 1 exactly when every document was cut, and times the number of documents is the cut count |
| ByteOffsets.Utf8Width | char_to_byte_offsets.py:28 | one to four bytes per character, one exactly for ASCII |
| ByteOffsets.Encode | char_to_byte_offsets.py:28 | the UTF-8 encoding has the width its lead byte announces and continuation bytes after it |
| ByteOffsets.DecodeEncode | char_to_byte_offsets.py:28 | decoding the encoding gives the code point back |
| ByteOffsets.MakeOffsetMap | char_to_byte_offsets.py:23-30 | the table has one entry for each offset 0..len(text), mapping it to the byte length of the text before it |
| ByteOffsets.ByteOffsetIncreasing | char_to_byte_offsets.py:24-29 | the table is strictly increasing |
| ByteOffsets.ByteOffsetLast | char_to_byte_offsets.py:29 | the last entry is the length of the encoded text |
| ByteOffsets.AsciiIdentity | char_to_byte_offsets.py:23-30 | for ASCII text the table is the identity |
| ByteOffsets.NonAsciiLonger | char_to_byte_offsets.py:23-30 | a character beyond ASCII makes the encoding longer than the text |
| ByteOffsets.EncodedRange | char_to_byte_offsets.py:23-30 | the bytes between two table entries encode the characters between the offsets |
| ByteOffsets.SpanBytes | char_to_byte_offsets.py:42-43 | a mapped span's byte range encodes exactly its characters, and the inclusive end maps to the first byte of the last character |
| ByteOffsets.RemapSpan | char_to_byte_offsets.py:42-43 | a span is remapped, with KeyError for an offset outside the table; nothing else changes |
| ByteOffsets.RemapSpans | char_to_byte_offsets.py:41-44 | a document's spans are remapped in order, failing exactly when one fails |
| ByteOffsets.RemapThroughTable | char_to_byte_offsets.py:40-43 | a span inside the text gets the byte offsets of its characters |
| ByteOffsets.RemapOutsideTable | char_to_byte_offsets.py:42-43 | a span outside the text raises KeyError |
| Standoff.NormalizeType | tagger2standoff.py:30-33 | IndexError for an empty type; otherwise the same letters up to case, first letter not lower case, the rest not upper case |
| Standoff.NormalizeTypeCanonical | tagger2standoff.py:30-33 | two types normalise alike exactly when they agree ignoring case |
| Standoff.NormalizeTypeIdempotent | tagger2standoff.py:30-33 | normalising twice is normalising once |
| Standoff.NormalizeTypes | tagger2standoff.py:65-66 | every span's type is normalised, failing exactly when one type is empty |
| Standoff.MergeSpans | tagger2standoff.py:36-50 | the spans of the merged textbounds are the output of the comparison tool's deduplication |
| Standoff.DeduplicateSpec | tagger2standoff.py:36-53 | one textbound per (start, end, type) key, the first of its key, with all its group's serials and the set of its group's sources |
| Standoff.SortStrings | tagger2standoff.py:52 | sorting gives a strictly ascending list of the same strings |
| Standoff.SortedUnique | tagger2standoff.py:52 | a sorted list is determined by its elements |
| Standoff.SourceLabelOfSet | tagger2standoff.py:52 | the joined source label depends only on the set of sources |
| Standoff.DeduplicateSpansWithSources | tagger2standoff.py:51-53 | each kept span's source becomes the sorted, comma-joined sources of its group |
| Standoff.TxtFile | tagger2standoff.py:68-69 | the `.txt` file is the text with TABs made newlines, plus a final newline |
| Standoff.TxtKeepsSpanText | tagger2standoff.py:68-72 | a span's offsets select its text in the `.txt` file too |
| Standoff.AnnLines | tagger2standoff.py:70-77 | one `.ann` line per merged span, numbered from 1 (its form is read back by `DiverseStandoffs.ReadsWrittenTextbound`) |
| Standoff.ConvertDocument | tagger2standoff.py:63-77 | IndexError exactly when a span has an empty type; otherwise the `.txt` contents and one `.ann` line per distinct key |
| Standoff.ConvertDocumentLines | tagger2standoff.py:36-77 | the i-th `.ann` line is the textbound numbered i + 1 of the i-th representative of the normalized spans, carrying its group's serials and as source the sorted, joined distinct sources of its group; its label is the bare type exactly when the group has two distinct sources |
| Standoff.ConvertedLines | tagger2standoff.py:70-77 | the `.ann` lines are the numbered textbounds of the deduplicated spans, one per representative |
| Standoff.DeduplicatedEntry | tagger2standoff.py:36-53 | the i-th deduplicated span is the i-th representative with its group's serials, its sources are its group's distinct sources, and its source is their sorted, joined label |
| Standoff.ElementsCount | tagger2standoff.py:50 | a list of distinct sources is as long as its set |
| DiverseStandoffs.ReadsWrittenTextbound | tagger2standoff.py:71-77 | a line the converter writes is read back with its number as id, its label, its offsets and its text |
| DiverseStandoffs.ParseLine | select_diverse_standoffs.py:27-32 | a `T` line is a textbound, other lines are skipped; ValueError exactly for a `T` line without three TAB fields and three words in the middle |
| DiverseStandoffs.LoadTextbounds | select_diverse_standoffs.py:23-33 | ValueError exactly when some line fails; otherwise one textbound per `T` line |
| DiverseStandoffs.LoadTextboundsMembers | select_diverse_standoffs.py:26-32 | the loaded textbounds are exactly those parsed from the file's lines |
| DiverseStandoffs.SelectDiverse | select_diverse_standoffs.py:43-52 | one verdict per file in argument order; a file is printed exactly when it has a non-empty lower-cased text no earlier file had; `seen` ends as all texts |
| DiverseStandoffs.HasNewIsNovel | select_diverse_standoffs.py:47-48 | the loop's test against the running set is the reference rule against all earlier files |
| DiverseStandoffs.SeenBeforeIff | select_diverse_standoffs.py:52 | a text is in the running set exactly when an earlier file had it |
| DiverseStandoffs.SeenGrows | select_diverse_standoffs.py:52 | the running set only grows |
| DiverseStandoffs.NoTextSkipped | select_diverse_standoffs.py:48-51 | a file with no non-empty text is skipped |
| DiverseStandoffs.FirstTextPrinted | select_diverse_standoffs.py:48-49 | the first file with a non-empty text is printed |
| DiverseStandoffs.RepeatedSkipped | select_diverse_standoffs.py:48-51 | a file whose texts all occur in an earlier file is skipped |
| Retype.RetypeLine | retype_standoff.py:18-26 | non-`T` lines are echoed; ValueError exactly for a malformed `T` line; a line changes exactly when its text is mapped to a different type |
| Retype.RewriteKeepsParts | retype_standoff.py:24-25 | the rewritten line keeps id, span and text and carries the mapped type |
| Retype.RetypeLineOf | retype_standoff.py:22-26 | retyping a line built from its parts |
| Retype.RetypeLineIdempotent | retype_standoff.py:15-26 | retyping a retyped line changes nothing, when no mapped type contains a space or TAB |
| Retype.RetypeSpacedTypeNotIdempotent | retype_standoff.py:23-25 | a mapped type with a space is split differently on the second run, which then changes the line again |
| Retype.RetypeStandoff | retype_standoff.py:15-26 | a file is retyped line by line, failing exactly when one line fails |
| Retype.RetypeStandoffIdempotent | retype_standoff.py:15-26 | retyping a retyped file changes nothing, under the same condition |
| Retype.LoadRows | retype_standoff.py:29-36 | a failure is ValueError or AssertionError, and it is AssertionError whenever every row has two fields |
| Retype.LoadRowsSucceeds | retype_standoff.py:32-35 | the map loads exactly when every row has two fields and no text repeats |
| Retype.LoadRowsContents | retype_standoff.py:33-35 | a loaded map sends each row's text to its type and has no other keys |
| Retype.LoadRowsFirstError | retype_standoff.py:32-34 | the first failing row decides the error, whatever follows |
| Retype.LoadTypeMapSpec | retype_standoff.py:29-36 | the file-level statement of the three above |
| TagFilter.TagIdPrefix | filtertags.py:27 | the id is the part of the line before the first TAB, or the whole line |
| TagFilter.FilterTags | filtertags.py:22-33 | exactly the lines whose id is listed are written, in order; the count written and the count read are returned |
| TagFilter.FilterTagsInOrder | filtertags.py:26-30 | the output is a subsequence of the input |
| TagFilter.FilterTagsLine | filtertags.py:27-29 | each input line is written exactly when its id is listed |
| TagFilter.SummaryAsWritten | filtertags.py:34-35 | the summary as written raises UnboundLocalError for an empty file |
| TagFilter.SummaryAsWrittenEmpty | filtertags.py:34-35 | an empty tag file raises UnboundLocalError |
| TagFilter.Summary | filtertags.py:34-35 | the intended share is undefined exactly for an empty file; otherwise it is in [0, 1] and 1 exactly when every line is kept |
| TagFilter.SummaryAgrees | filtertags.py:34-35 | the intended summary agrees with the one as written wherever the latter is defined |
| ProteinAliases.ParseRow | filter_protein_aliases.py:30-31 | ValueError exactly when a line does not have three fields |
| ProteinAliases.ParseRows | filter_protein_aliases.py:28-31 | StopIteration for an empty file; the header is skipped and ValueError raised exactly when a data line fails |
| ProteinAliases.TargetEntries | filter_protein_aliases.py:32-34 | a row contributes exactly its sources from the target list |
| ProteinAliases.GroupEmpty | filter_protein_aliases.py:26-34 | a protein has no entries exactly when none of its rows names a target source |
| ProteinAliases.CollectKeys | filter_protein_aliases.py:26-34 | the table's keys are exactly the proteins with an entry |
| ProteinAliases.CollectGroups | filter_protein_aliases.py:26-34 | each protein's list is its entries in row order |
| ProteinAliases.CollectOrder | filter_protein_aliases.py:34-35 | proteins are visited in the order of their first entry |
| ProteinAliases.BestIndex | filter_protein_aliases.py:38-42 | the chosen entry has the best priority and is the first of those |
| ProteinAliases.ChoiceUnique | filter_protein_aliases.py:38-42 | that choice is unique |
| ProteinAliases.ChoicePrefersFirstSource | filter_protein_aliases.py:10-42 | a protein with an entry from the first-priority source prints one of those |
| ProteinAliases.OutputSpec | filter_protein_aliases.py:35-42 | one line per protein with at least two entries, carrying its chosen entry |
| ProteinAliases.OutputInOrder | filter_protein_aliases.py:35-42 | the i-th printed line is that of the i-th protein, in visiting order, with at least two entries |
| ProteinAliases.AliasOutputOrder | filter_protein_aliases.py:25-42 | the i-th printed line belongs to the i-th protein, in order of first entry, with two or more target entries, and names that protein's best entry |
| ProteinAliases.FilterProteinAliases | filter_protein_aliases.py:25-42 | StopIteration for an empty file, ValueError for a bad line, otherwise at most one line per data line |
| ProteinAliases.AliasOutputLines | filter_protein_aliases.py:25-42 | the lines printed are exactly one per protein with two or more target entries, naming its best entry |
| ProteinAliases.CollectOrderBound | filter_protein_aliases.py:35 | at most one protein per data line |

## Left out

- Command-line parsing, `main`, file opening and the `--encoding`/`surrogateescape` options are left out. Files are sequences of lines, and output is the sequence of printed lines.
- Progress messages on stderr are not modelled. Neither are the `safe_str` mismatch message of `validate_spans` and the partial-cut warning of `apply_offset_map`: they only print.
- `LookaheadIterator`, `stream_documents`, `DocReader`, `SpanReader`, `unique` and `load_ids` in `common.py` are not part of this model. Documents and spans are given already grouped per document. The id set of `filtertags.py` is given as a set.
- The document escaper is not part of this model. `StringDb.Escape` is a reference inverse of `stringdb_unescape_text`, written for the round trip.
- `save_results` is not modelled: it writes a report. Neither are the `most_common_*` accessors nor the `--sample` random draw and `--max-docs` cut-off of `compare_spans`.
- The document loop of `compare_spans` is modelled one document at a time by `SpanCompare.CompareAndMerge`.
- `Stats.__init__` with more than two names overwrites the counter in its loop, so only its last pair remains. The model builds statistics for one pair, which is how `compare_document_spans` uses it.
- Floating point is modelled by exact reals. Percent formatting is not modelled.
- `SpanSweep.SortEvents`: the tie order among events with the same offset and kind comes from `Span.__lt__`, which is not part of this model. The sweep theorems hold for every sorted permutation.
- Set iteration order is not modelled: the unmatched loops and `trim` over `sources()`. The results are stated for every order.
- Python's `defaultdict` creating empty entries on reads is not modelled: a missing table reads as empty.
- Case mapping (`lower`, `upper`) covers ASCII letters only.
- StringDb.ParseSpanLine: the offsets are read by `PyStrings.ParseInt`, which takes surrounding whitespace, an optional sign and ASCII decimal digits. Python's `int()` also accepts underscores between digits (`1_000`) and non-ASCII decimal digits. The model rejects those offsets with ValueError where Python would accept them.
- Output printed before an exception is not modelled. An operation that fails returns only the error.
- `select_diverse_standoffs.py` shuffles a copy of the file list that is never used. The shuffle is left out.
- The `SKIP:` line's printed set representation is not modelled. The verdict carries the two sets.
- Retype.RetypeLineIdempotent: requires that no mapped type contains a space or TAB. `Retype.RetypeSpacedTypeNotIdempotent` shows why that is needed.
- In `tagger2standoff.py` lines 51-52, every span's `source` is rewritten, including the later spans of a group. Those later spans are dropped from the output, so their rewrite cannot be observed and is not modelled.
- `checkspans.py`, `filterdocs.py` and `txt_to_string.py` are not part of this model.

## Findings

| source | as written | input that shows it | evidently intended | confidence | as-written member | corrected member |
|---|---|---|---|---|---|---|
| cutdocuments.py:33-42 | the share of cut documents divides by `doc_idx`, the last zero-based index, which the loop never binds for an empty file | an empty file raises UnboundLocalError; a file of one document raises ZeroDivisionError; two documents both cut report 200% | divide by the number of documents, `doc_idx + 1` | high, not executed | Cutting.CutShareAsWritten, Cutting.CutShareAsWrittenWrong | Cutting.CutShare |
| filtertags.py:34 | the summary reads `ln`, which the loop only binds when the file has a line | an empty tag file raises UnboundLocalError after the loop | report nothing (or 0 of 0) for an empty file | high, not executed | TagFilter.SummaryAsWritten, TagFilter.SummaryAsWrittenEmpty | TagFilter.Summary |
