# A verified model of ferret's search pipeline

ferret answers code searches from a trigram index. This project models the pipeline and proves that the fast, indexed
search finds what reading every file would find, or says exactly when it does not. It covers:

- the index: posting lists, their delta-varint coding, the bytes of `trigrams.bin`, and the reader that recovers the
  section boundary the file does not store (`Codec`, `Trigrams`, `PostingLists`, `IndexImage`, `IndexReader`,
  `Intersection`, `Planning`); what the stored bytes are and what the readers check (`WireFormat`, `ReaderChecks`);
- queries: the cursor parser with its backtracking, the printer, compilation to trigram constraints and evaluation on
  a file's content (`Query`, `QueryAlphabet`, `QueryGrammar`, `QueryParser`, `QueryPrinter`, `StrictParser`, `RoundTrip`,
  `TermRoundTrip`, `ExactRoundTrip`, `QuerySyntax`, `ParserExact`, `PrintedSource`, `QueryTrigrams`,
  `TrigramMeaning`, `RegexTrigrams`, `Verify`, `QueryMatch`, `EarliestMatch`, `Context`, `ContentMatches`);
- searching: one segment, several segments in batch and as a stream, pre-filters, what the regex engine and library
  must guarantee, and the result limit that parallel workers share (`SegmentSearch`, `FilterMeaning`, `MultiSearch`,
  `StreamOrder`, `UnicodeFolding`, `RegexSearch`, `ParsedSearch`, `Budget`, `LimitRuns`, `LimitedSearch`, `NewestWins`);
- side formats: the metadata table, highlight data and the hash diff (`Metadata`, `MetadataReader`, `Highlight`,
  `HighlightFile`, `HashDiff`).

`Base` and `Sorting` hold shared definitions. `dafny verify dfyconfig.toml` checks everything.

## How the code is modelled

Texts and files are sequences of bytes. The parser and the two builders are classes with the source's fields, and each
of their methods is proved against a function of the old state; loops of the source are loops here. What one atomic
action of a worker does is a step of a state machine, and a run is any interleaving of steps, except that the candidates
of a segment are verified in order: all of them below 64, and those of one piece of a list that goes to the thread
pool. Machine arithmetic is written out: wrapping and saturating u32 sums in the codec and in context windows, offsets
and line numbers modulo 2^32, and Rust's panic on a slice that starts after it ends (`SlicePanic`). Where debug and
release builds differ on overflow, the release build is meant.

These come from outside and are parameters: the regex engine and compiler, the literals the regex library extracts,
the ranking formula (an integer score), the order of paths, the table of language names, the walker's result, the hash
function, the UTF-8 check of stored paths. File contents are valid UTF-8, so lossy decoding changes nothing. Varints
are unsigned LEB128 as in section 7.6 of DWARF version 5, at most five groups for a u32. Compressed blocks are their
contents.

## What was found

Some statements one would expect fail in the code. Each comes with what decides it, for all inputs.

- `merge_and` stops at 64 branches. The result is the intersection exactly if every branch cut off is implied by a
  branch kept (`MergeAndExactIff`). Two regexes of nine and eight words lose a file that has the last word of each
  (`CapLosesFiles`); for alternations of distinct words the limit is exactly 64 pairs (`WordPairExactly`).
- A regex such as `(cat|dog)s` requires the trigrams of all alternatives at once. Exactly when that is safe:
  `SingleIsSafeExactly`, and `AlternationIsSafeExactly` for alternatives at the top.
- Case-insensitive literals are verified with Unicode folding but indexed with ASCII folding. An ASCII literal is
  searched exactly if it has fewer than three bytes or no k and no s (`LiteralSearchExactly`); any other one loses the
  files that spell it with the Kelvin sign or the long s.
- A negated filter among the conjuncts selects nothing (`NegatedFilterSelectsNothing`), and a filter on one side of an
  OR replaces the whole OR (`OrFilterRestrictsBoth`, `OrFilterAgreesExactly`). An OR of a path and a language selects
  files that have both (`MixedOrNeverAgrees`). Filters in conjunctions mean what they say exactly if no two of a kind
  disagree (`FiltersAgreeExactly`): two languages are alternatives (`TwoLanguagesAreAlternatives`).
- "Newest segment wins" can fail under a result limit (`NewestWinsExactly`). It never does if the limit is zero, covers
  all matches, or no path is matched in two segments (`NewestWinsSurely`); otherwise it depends on the order in which
  candidates are verified. Segments with fewer than 64 candidates go through them in order of size, and then it can fail
  exactly if the older match is early enough to be delivered and the newest late enough to be lost
  (`CanShowOlderExactly`, `SizeOrderProtects`). Exactly min(limit, matches) entries are accepted, so the comment that the
  parallel search may overshoot describes nothing that happens (`ExactlyTheLimit`,
  `TruncationIdle`).
- A stream with limit zero sends one match (`SearchStreaming`).
- Lines between two matches of one block are not shown as context of either (`GapHidden`). All lines near a match are
  shown exactly if no block has such lines (`NearbyShownExactly`).
- A query survives printing and parsing exactly if nothing in it is case-sensitive and its language names read back,
  which "Plain Text" does not (`RoundTripExactly`). The backtracking in `parse_and` never changes a result
  (`BacktrackingNeverHelps`).
- A file-only builder does not sort. Its lists are right exactly if no two files that share a trigram were added out
  of id order (`FileOnlyNeedsOrder`); the lookup of a trigram whose files came out of order succeeds with a list that
  repeats u32::MAX from the first fall on (`FileOnlyLookupExactly`, `UnsortedSaturates`).
- A file that becomes unreadable or unfit for indexing causes no event and keeps its stale entry; the events restore
  the state of the disk exactly if there is no such file (`DiffThenPatchExactly`).
- `find_file_id_by_path` slices entries at the version 2 size. It panics exactly if it meets an entry that does not fit
  before it meets the path (`PathSearchPanicsExactly`); on a version 1 file that ends with its table that is so for
  every path but those of the entries before the last (`Version1PathSearchPanics`).

## Model

| member | source | states |
|---|---|---|
| `Codec.EncodeDeltaVarint` | ferret-core/src/codec.rs:46-64 | the bytes are the LEB128 varints of the wrapping differences, starting from 0 |
| `Codec.DecodeDeltaVarint` | ferret-core/src/codec.rs:90-110 | on any bytes it ends, stopping at the first malformed varint, with the saturating running sums |
| `Codec.DeltaRoundTrip` | ferret-core/src/codec.rs:46-110 | decoding what was encoded gives the list back if and only if the list is nondecreasing |
| `Codec.UnsortedSaturates` | ferret-core/src/codec.rs:46-110 | an unsorted list decodes to itself up to the position where it first falls and to u32::MAX from there on |
| `Codec.DecodesToSet` | ferret-core/src/codec.rs:46-110 | what is decoded holds the encoded numbers, strictly increasing, if and only if the encoded list was strictly increasing |
| `Codec.DeltaValuesNondecreasing` | ferret-core/src/codec.rs:90-110 | arbitrary bytes decode to a nondecreasing list |
| `Codec.TakeDeltasWritten` | ferret-core/src/codec.rs:46-110 | reading n varints from the code of n sorted values followed by anything gives the values and uses exactly their bytes |
| `Codec.TakeDeltasAligned` | ferret-core/src/codec.rs:145-249 | for unsorted values too, reading n varints stops exactly at the end of their code and the values read are nondecreasing |
| `Codec.SkipVarintsWritten` | ferret-core/src/index_reader.rs:109-155 | counting n varints in the code of n values followed by anything stops at the end of the code |
| `Codec.EncodePositionalPostings` | ferret-core/src/codec.rs:145-195 | the bytes are, per run of one file id, the id, the number of offsets and the differences of the offsets |
| `Codec.ReadOffsets` | ferret-core/src/codec.rs:235-245 | one group's offsets are pushed in order with their file id up to the first malformed varint, and the cursor ends behind them |
| `Codec.DecodePositionalPostings` | ferret-core/src/codec.rs:214-249 | on any bytes it ends with the postings of the complete groups and the readable part of a broken one |
| `Codec.GroupWritten` | ferret-core/src/codec.rs:145-249 | the code of one file's group followed by anything decodes to that group's image followed by the decoding of the rest |
| `Codec.DecodedIsGroup` | ferret-core/src/codec.rs:145-249 | a group comes back unchanged if and only if its offsets are sorted |
| `Codec.PositionRoundTrip` | ferret-core/src/codec.rs:145-249 | a posting list comes back if and only if the offsets of every run of one file id are sorted; file ids may be in any order |
| `WireFormat.LittleEndianAt` | ferret-core/src/index_writer.rs:126-150 | byte k of a little-endian field counts 256 to the power k |
| `WireFormat.VarintIs` | ferret-core/src/codec.rs:46-64 | a number is written as its shortest varint: seven bits a byte, least first, the high bit set on all but the last |
| `WireFormat.VarintReadExactly` | ferret-core/src/codec.rs:90-110 | a varint is read if and only if it has at most five bytes and its value fits 32 bits |
| `WireFormat.DeltaEncodes` | ferret-core/src/codec.rs:46-64 | each varint of a coded list is the difference to the number before, modulo 2^32 |
| `WireFormat.DeltaDecodes` | ferret-core/src/codec.rs:90-110 | any bytes are varints and a rest that is none, and decode to the running sums of the varints, none above u32::MAX |
| `WireFormat.GroupEncodes` | ferret-core/src/codec.rs:145-195 | one file's offsets are coded as the id, their number and their differences |
| `WireFormat.SkipExactly` | ferret-core/src/index_reader.rs:109-155 | counting varints in any buffer steps over as many readable varints as asked for, or fails if there are fewer |
| `Trigrams.OccurrenceHasTrigrams` | ferret-core/src/trigram.rs:56-102 | if a text occurs in a content up to ASCII case, all its folded trigrams are among the content's |
| `Trigrams.FoldsAlike` | ferret-core/src/trigram.rs:56-62 | folding joins the two cases of each of the 26 letters and nothing else |
| `Trigrams.CodeOrder` | ferret-core/src/types.rs:31-46 | codes are ordered as the three bytes, the first counting most |
| `PostingLists.PostingListBuilder.PushWindow` | ferret-core/src/posting.rs:100-111 | one window's id goes to the end of its trigram's list, and in positional mode the (id, offset) pair; the maps are then those of one window more |
| `PostingLists.PostingListBuilder.AddFile` | ferret-core/src/posting.rs:92-112 | the builder's maps are those of the files added so far, now with this one |
| `PostingLists.PostingListBuilder.Finalize` | ferret-core/src/posting.rs:119-135 | the maps become the final maps of exactly the files added, in both modes |
| `PostingLists.PostingListBuilder.FinalizeIds` | ferret-core/src/posting.rs:119-129 | every id list is deduplicated, after sorting in positional mode only |
| `PostingLists.PostingListBuilder.FinalizePositions` | ferret-core/src/posting.rs:130-135 | every positional list is sorted by (file, offset), stably and with nothing lost |
| `PostingLists.DedupIncreasing` | ferret-core/src/posting.rs:119-135 | dedup leaves a strictly increasing list if and only if the list was nondecreasing |
| `PostingLists.PushedAllMeaning` | ferret-core/src/posting.rs:92-112 | an id is in a trigram's list if and only if some file added under that id has the trigram |
| `PostingLists.FinalIdsExact` | ferret-core/src/posting.rs:92-135 | in positional mode, or when the files that have the trigram were added in id order, a final list is the strictly increasing list of exactly the ids that have the trigram |
| `PostingLists.PushedSortedExactly` | ferret-core/src/posting.rs:92-112 | a trigram's list is pushed in nondecreasing order if and only if the files that have the trigram were added in that order |
| `PostingLists.FileOnlyListSorted` | ferret-core/src/posting.rs:119-129 | one list of a file-only builder ends up strictly increasing if and only if the files that have its trigram were added in id order |
| `PostingLists.FileOnlyNeedsOrder` | ferret-core/src/posting.rs:119-129 | all lists of a file-only builder end up strictly increasing if and only if no two of the files added came out of id order and share a folded trigram |
| `PostingLists.SortedPostingsRuns` | ferret-core/src/posting.rs:130-135 | finalized positional lists are of the kind that decoding recovers |
| `PostingLists.PositionsExactly` | ferret-core/src/posting.rs:92-135 | a finalized positional list holds exactly the places where the trigram occurs, as pairs of file id and offset modulo 2^32, in order of file and offset |
| `PostingLists.PositionsOnce` | ferret-core/src/posting.rs:92-135 | with distinct ids and files of at most 2^32 bytes every place is listed once |
| `IndexImage.SortedKeys` | ferret-core/src/index_writer.rs:71-85 | whatever order the hash map yields, the table's trigrams are all keys, strictly increasing by code |
| `IndexImage.EncodeFileLists` | ferret-core/src/index_writer.rs:86-104 | the section is the codes of all lists in table order, each row's offset and length are right, and it fails exactly if one does not fit u32 |
| `IndexImage.EncodePositionLists` | ferret-core/src/index_writer.rs:104-121 | the same for positional lists; a trigram without one gets (0, 0) |
| `IndexImage.EncodeRows` | ferret-core/src/index_writer.rs:126-150 | the rows are the trigrams with their offsets and lengths, 19 bytes each |
| `IndexImage.TableUnique` | ferret-core/src/index_writer.rs:71-150 | the maps determine the table, so there is one file for a builder whatever order its hash maps have |
| `IndexImage.WriteIndex` | ferret-core/src/index_writer.rs:71-152 | the file is header, table, file lists and positional lists of the builder's maps, or an error exactly if some size does not fit its field |
| `WireFormat.ImageLayout` | ferret-core/src/index_writer.rs:71-152 | the file by fixed positions: magic, version and count in ten bytes, then nineteen bytes a row with trigram, offset and length of both lists, then the two sections |
| `IndexReader.Open` | ferret-core/src/index_reader.rs:59-164 | checks size, magic, version and table bounds, and finds the boundary, with every error case |
| `ReaderChecks.OpensExactly` | ferret-core/src/index_reader.rs:59-164 | any bytes open if and only if magic, version and size fit and the list with the last of the greatest offsets is readable; the boundary is where that list ends |
| `ReaderChecks.OpenErrors` | ferret-core/src/index_reader.rs:59-164 | a wrong version is reported by its number, everything else as corruption |
| `IndexReader.CountVarints` | ferret-core/src/index_reader.rs:125-150 | the cursor stands behind the given number of varints, or the data ended first |
| `IndexReader.BinarySearchTrigram` | ferret-core/src/index_reader.rs:308-334 | the loop ends with the row that halving the table finds, or none |
| `IndexReader.SearchTableFinds` | ferret-core/src/index_reader.rs:308-334 | on a sorted table the search for the code of any row returns that row |
| `IndexReader.SearchTableSound` | ferret-core/src/index_reader.rs:308-334 | a row that is returned has the code that was asked for |
| `ReaderChecks.LookupsReadRow` | ferret-core/src/index_reader.rs:172-303 | in any sorted table both lookups read the lists of the row that has the code, up to the next row's offset or the end of the section, with the error of each malformed case |
| `ReaderChecks.LookupsOfAbsent` | ferret-core/src/index_reader.rs:172-303 | a trigram without a row has empty lists and size zero |
| `IndexReader.OpenRecoversBoundary` | ferret-core/src/index_reader.rs:109-155 | opening a written file recovers the boundary between file and positional lists, which the file does not store |
| `IndexReader.SearchImage` | ferret-core/src/index_reader.rs:308-334 | in a written file a trigram's row is found if and only if the trigram is in the table |
| `IndexReader.ImageRefinesBuilder` | ferret-core/src/index_reader.rs:172-303 | for every trigram, file and positional lookup in the written file return the builder's lists, empty when absent or when positions are off, and the size estimate is the length of the list |
| `IndexReader.FileOnlyLookupExactly` | ferret-core/src/index_reader.rs:172-219 | a file-only index written from files in any order opens, every lookup succeeds and decodes the code of the builder's list, and it returns the builder's list, which is then the increasing list of exactly the ids that have the trigram, if and only if the files that have the trigram were added in id order |
| `Intersection.BuiltReaderServes` | ferret-core/src/index_reader.rs:59-303 | a reader opened on the written index of some files lists for each trigram exactly the ids of the files that have it |
| `Intersection.IntersectTwo` | ferret-core/src/intersection.rs:84-102 | on sorted lists the result is sorted and holds exactly the common ids; strictly increasing from strictly increasing |
| `Intersection.IntersectFileIds` | ferret-core/src/intersection.rs:52-75 | the result holds exactly the ids common to all lists, and is empty for no lists |
| `Intersection.LookupSorted` | ferret-core/src/index_reader.rs:172-219 | on any index that opens, a list that is read is nondecreasing |
| `Intersection.LookupAll` | ferret-core/src/intersection.rs:127-141 | one list per trigram in arbitrary order, or the first lookup error |
| `Intersection.FindCandidates` | ferret-core/src/intersection.rs:120-143 | for a query of three bytes or more, the strictly increasing list of exactly the ids whose files have all its folded trigrams; nothing for a shorter one; on any other index the common ids, or an error only if a lookup failed |
| `Planning.PlanLiteralQuery` | ferret-core/src/query_plan.rs:139-172 | each folded trigram of the query once with its list size, smallest first; an empty plan for a short query |
| `Planning.ShortCircuitIsSafe` | ferret-core/src/query_plan.rs:80-90 | if a plan can be cut short, the list find_candidates returns is empty, for a query of any length |
| `Planning.ShortCircuitExactly` | ferret-core/src/query_plan.rs:80-90 | a plan can be cut short if and only if the query has fewer than three bytes or one of its trigrams is in no file |
| `Planning.ShortCircuitMissesNothing` | ferret-core/src/query_plan.rs:80-90 | no file contains, up to ASCII case, a query of three bytes or more whose plan can be cut short |
| `QueryTrigrams.MergeAnyAny` | ferret-core/src/query_trigrams.rs:297-318 | the nested loop with its early stop at 64 branches yields the first 64 branches of the cross product |
| `QueryTrigrams.CrossDenotes` | ferret-core/src/query_trigrams.rs:297-318 | a file is admitted by the whole cross product if and only if both sides admit it |
| `QueryTrigrams.MergeAndDenotes` | ferret-core/src/query_trigrams.rs:273-319 | a merge admits no file that one side rejects, and exactly the intersection where the cap does no harm |
| `QueryTrigrams.MergeAndExactIff` | ferret-core/src/query_trigrams.rs:273-319 | a merge is intersection on all files if and only if every branch cut off is implied by one of the 64 kept; up to 64 branches it always is |
| `QueryTrigrams.ExtractAndLoop` | ferret-core/src/query_trigrams.rs:225-238 | the loop over the conjuncts yields their merge from left to right |
| `QueryTrigrams.ExtractHasBranches` | ferret-core/src/query_trigrams.rs:214-265 | an OR form with fewer than two branches is never produced, as merging needs |
| `TrigramMeaning.ExtractDenotes` | ferret-core/src/query_trigrams.rs:214-265 | a file that is admitted has what the query demands: the folded trigrams of texts of three bytes or more, what its regexes demand, one side of an OR, all conjuncts; where the cap does no harm, every such file is admitted |
| `RegexTrigrams.ExtractHir` | ferret-core/src/query_trigrams.rs:165-191 | the trigrams of all prefix and suffix literals of at least three bytes, together |
| `RegexTrigrams.ExtractRegexTrigrams` | ferret-core/src/query_trigrams.rs:127-159 | one branch per top-level alternative, all trigrams at once otherwise, and no constraint if a part has none |
| `RegexTrigrams.RegexDenotes` | ferret-core/src/query_trigrams.rs:127-191 | a file is admitted for a regex if and only if, for some top-level alternative, it has the folded trigrams of every prefix and every suffix literal of three bytes or more that the library lists; an unreadable pattern demands nothing |
| `RegexTrigrams.SingleIsSafeExactly` | ferret-core/src/query_trigrams.rs:165-191 | no file that may match is lost if and only if every choice of one prefix and one suffix literal has all the trigrams required |
| `RegexTrigrams.AlternationIsSafe` | ferret-core/src/query_trigrams.rs:135-150 | an alternation keeps every file that may match one of its branches if every choice of literals covers what some branch requires |
| `RegexTrigrams.AlternationIsSafeExactly` | ferret-core/src/query_trigrams.rs:135-150 | for up to 42 branches that condition is also necessary: otherwise some content that may match is not admitted |
| `RegexTrigrams.OneLiteralEachEndIsSafe` | ferret-core/src/query_trigrams.rs:165-191 | a pattern with at most one prefix and one suffix literal loses no file |
| `RegexTrigrams.AlternativesInsideLoseFiles` | ferret-core/src/query_trigrams.rs:179-188 | (cat|dog)s: a file that contains "cats" is not a candidate |
| `RegexSearch.PatternAdmits` | ferret-core/src/query_trigrams.rs:127-191 | a pattern whose literals are covered, and spelled in ASCII only where case is ignored, admits every content that shows its literals |
| `RegexSearch.SafeTermsSound` | ferret-core/src/query_trigrams.rs:214-265 | what a caller can read off the texts and patterns of a query implies, for an engine that folds case by Unicode and an honest regex library, all that the index search needs of the engine |
| `RegexSearch.SafeQueryEqualsBruteForce` | ferret-core/src/multi_search.rs:1113-1217 | for such a query, engine and library, the index finds in every snapshot what brute force finds |
| `ParsedSearch.ParsedCapSafe` | ferret-core/src/query_trigrams.rs:214-319 | for a query the parser returns, with at most one alternation among the regexes of each conjunction, the branch cap cuts off nothing |
| `ParsedSearch.ParsedSearchIsBruteForce` | ferret-core/src/multi_search.rs:1113-1217 | from the text of a query: if it parses to such a query with safe texts and patterns, the index finds in every snapshot what brute force finds |
| `RegexSearch.WordPairExactly` | ferret-core/src/query_trigrams.rs:273-319 | the conjunction of two alternations of distinct three-byte words admits every file with a word of each if and only if there are at most 64 pairs |
| `RegexSearch.CapLosesFiles` | ferret-core/src/query_trigrams.rs:297-318 | two regexes, of the nine words a11 to i11 and of the eight words a22 to h22: the file "i11 h22" matches both, is not admitted, and is found by brute force only |
| `Verify.ScanExact` | ferret-core/src/verify.rs:160-205 | the scan that restarts one byte after each hit finds the occurrences in order, overlapping ones included |
| `Verify.RangesFound` | ferret-core/src/verify.rs:141-250 | ranges are found if and only if the pattern matches, starting at strictly increasing offsets inside the content |
| `Verify.EngineScan` | ferret-core/src/verify.rs:221-235 | which matches find_iter reports: they do not overlap, each is a match of the engine at its start, and a match is left out exactly if it starts inside one that is reported or, being empty, at its end |
| `Verify.ScanUnique` | ferret-core/src/verify.rs:221-235 | only one list of ranges is such a scan |
| `Verify.RangesExactly` | ferret-core/src/verify.rs:160-235 | what verify reports of a pattern: every occurrence of an exact text, overlapping ones included, and otherwise the scan of the engine's matches |
| `Verify.LineSteps` | ferret-core/src/verify.rs:23-54 | the first byte is on line 1, and the line goes up by one behind each newline and nowhere else |
| `Verify.GroupByLineNumbers` | ferret-core/src/verify.rs:160-250 | grouping ranges by line gives strictly increasing line numbers: exactly the lines on which a range starts |
| `Verify.VerifyExact` | ferret-core/src/verify.rs:136-250 | verify reports something if and only if the pattern matches a nonempty content, in increasing order, on exactly the lines where a reported match starts |
| `Verify.ReportedLinesExactly` | ferret-core/src/verify.rs:160-250 | where no match runs past its line, ranges start on exactly the lines on which the engine has a match |
| `Verify.VerifyLinesExactly` | ferret-core/src/verify.rs:136-250 | on any content, lines are reported only where a match starts, and where no match runs past its line on all such lines |
| `Verify.VerifyEntries` | ferret-core/src/verify.rs:160-250 | every reported line carries its own text and the columns of exactly the matches that start on it, in order |
| `Verify.LineTextIs` | ferret-core/src/verify.rs:70-87 | the text of a line starts at the beginning or behind a newline, has no newline, and stops at the next newline or the end, a carriage return before it left out |
| `Verify.ColumnsPoint` | ferret-core/src/verify.rs:178-190 | columns are relative to the start of the line, and where a match stays on its line they cut out of the line's text the bytes that were matched |
| `QueryMatch.EvalAnd` | ferret-core/src/query_match.rs:93-117 | the accumulator loop stops at the first conjunct that fails and otherwise merges the lines of all |
| `QueryMatch.EvalHomomorphism` | ferret-core/src/query_match.rs:49-129 | eval succeeds if and only if the boolean meaning of the query holds; its lines increase strictly and their numbers are the union over the children that succeed |
| `QueryMatch.SortAndDedupNumbers` | ferret-core/src/query_match.rs:121-129 | merging keeps every line number exactly once |
| `QueryMatch.DedupKeepsFirst` | ferret-core/src/query_match.rs:121-129 | of several matches on one line the one from the earliest part of the query is kept |
| `EarliestMatch.OrKeepsLeft` | ferret-core/src/query_match.rs:80-129 | a line of an OR is the left side's match if that side reports the line, and otherwise the right side's |
| `EarliestMatch.AndKeepsFirst` | ferret-core/src/query_match.rs:93-129 | a line of a conjunction is the match of the first conjunct that reports the line |
| `Context.BuildGroups` | ferret-core/src/query_match.rs:148-167 | the groups are maximal runs of matches whose context windows touch, covering all matches in order |
| `Context.MergeIntoLast` | ferret-core/src/query_match.rs:148-167 | a match within reach joins the last group |
| `Context.AttachGroup` | ferret-core/src/query_match.rs:169-208 | a group's first match gets the lines before it and its last match the lines after it; nothing else changes |
| `Context.AttachContext` | ferret-core/src/query_match.rs:136-209 | the matches are sorted by line, every match ends up with its context, and no newline-table index is out of bounds, for any context size, the u32 sum wrapping |
| `Context.AttachToSorted` | ferret-core/src/query_match.rs:160-208 | the groups are updated one after another and cover all matches |
| `Context.LastLine` | ferret-core/src/query_match.rs:143-147 | the last line that can be shown is that of the last byte, so that a final newline opens no further line |
| `Context.DisplayIncreases` | ferret-core/src/query_match.rs:136-209 | for increasing matches, before-context, match and after-context of all matches in a row are strictly increasing line numbers of the file: nothing is shown twice |
| `Context.ShownExact` | ferret-core/src/query_match.rs:136-209 | exactly which lines are shown with a match |
| `Context.GapHidden` | ferret-core/src/query_match.rs:169-208 | a line strictly between two neighbouring matches at most 2 * context + 1 lines apart is never shown as context |
| `Context.DisplayExactly` | ferret-core/src/query_match.rs:136-209 | shown are exactly the matches and the lines within context of a match, except those strictly between two neighbouring matches at most 2 * context + 1 lines apart |
| `Context.NearbyShownExactly` | ferret-core/src/query_match.rs:148-208 | all lines within context of a match are shown if and only if matches at most 2 * context + 1 lines apart are on adjacent lines |
| `ContentMatches.SplitJoins` | ferret-core/src/multi_search.rs:81-82 | splitting at newlines loses nothing and leaves no newline in a line |
| `ContentMatches.LineRanges` | ferret-core/src/multi_search.rs:95-115 | the search loop yields all occurrences in the line |
| `ContentMatches.HitsOrdered` | ferret-core/src/multi_search.rs:95-115 | ranges are as long as the query, each once, from left to right |
| `ContentMatches.HitsExact` | ferret-core/src/multi_search.rs:95-115 | a position is reported if and only if the folded slice there equals the folded query, overlaps included |
| `ContentMatches.VerifyContentMatches` | ferret-core/src/multi_search.rs:72-168 | one report per matching line in order; nothing for an empty query or content |
| `ContentMatches.ReportIncreases` | ferret-core/src/multi_search.rs:118-168 | reported line numbers strictly increase, below 2^32 lines |
| `ContentMatches.ReportExact` | ferret-core/src/multi_search.rs:84-168 | a line is reported if and only if it contains the query up to ASCII case, with its text and all its occurrences |
| `ContentMatches.ContextExact` | ferret-core/src/multi_search.rs:126-157 | the context of a line is exactly the lines within the distance, clamped, without a trailing empty line |
| `ContentMatches.ReportedIsCandidate` | ferret-core/src/multi_search.rs:72-168 | a file for which anything is reported has all trigrams of the query, so the index offers it |
| `SegmentSearch.WrittenSegmentIndexed` | ferret-core/src/segment.rs:497-502 | a segment whose file-only builder was fed ids 0, 1, 2, ... is indexed: its reader serves its own files |
| `SegmentSearch.ScoreTrigrams` | ferret-core/src/multi_search.rs:1066-1074 | all trigrams once, in order of their list sizes |
| `SegmentSearch.IntersectSmallestFirst` | ferret-core/src/multi_search.rs:1058-1098 | on an indexed segment, the strictly increasing ids of exactly the files that have all trigrams |
| `SegmentSearch.LookupTrigramCandidates` | ferret-core/src/multi_search.rs:1031-1055 | on an indexed segment, the strictly increasing ids of exactly the files the trigram query admits |
| `SegmentSearch.ExtractAdmits` | ferret-core/src/query_trigrams.rs:214-265 | every file on which the query holds is admitted by the trigrams extracted from it, where the engine's matches bring the trigrams of their term and the cap does no harm |
| `SegmentSearch.CandidatesUnique` | ferret-core/src/multi_search.rs:1031-1055 | candidates are determined by the files: a strictly increasing list with the right members is the list |
| `SegmentSearch.SearchSegment` | ferret-core/src/multi_search.rs:1287-1374 | the matches of the accepted candidates in size order; they are exactly the live files among the candidates that pass the filters and on which the query holds |
| `SegmentSearch.SegmentFinds` | ferret-core/src/multi_search.rs:1287-1374 | each match has its file's path, language and lines and the score of its number of ranges, at least one; smaller files come first and files of one size in id order |
| `SegmentSearch.CountAdds` | ferret-core/src/multi_search.rs:1340-1365 | the number of ranges of a match is the sum over its lines |
| `SegmentSearch.EvalBare` | ferret-core/src/query_match.rs:44-129 | eval attaches no context of its own |
| `SegmentSearch.MatchDisplayIncreases` | ferret-core/src/query_match.rs:36-42 | matches and context shown for a file are strictly increasing line numbers of the file |
| `SegmentSearch.MatchDisplayExactly` | ferret-core/src/query_match.rs:36-42 | for a file that matches, exactly the matching lines are shown and the lines near them outside the gaps inside blocks |
| `SegmentSearch.IndexedEqualsBruteForce` | ferret-core/src/multi_search.rs:1287-1374 | under the same two conditions searching through the index gives the very list that evaluating every file gives |
| `FilterMeaning.AcceptsIsSelected` | ferret-core/src/multi_search.rs:1008-1025 | a live file is accepted if and only if it passes the collected filters and the query's content test holds |
| `FilterMeaning.FiltersAgree` | ferret-core/src/multi_search.rs:962-1025 | where every conjunct is free of filters or consists of alternative filters of one kind, and no two groups of one kind disagree, pre-filtering plus evaluation is the boolean meaning of the query |
| `FilterMeaning.FiltersAgreeExactly` | ferret-core/src/multi_search.rs:962-1025 | for such conjuncts, if the filter-free part holds on some content, search and meaning agree on every file if and only if the groups agree: same languages, and prefixes that extend each other |
| `FilterMeaning.ConjunctsMean` | ferret-core/src/multi_search.rs:979-1005 | nested conjunctions and double negations can be opened up without changing the filters collected, the evaluation or the meaning |
| `FilterMeaning.NegatedFilterSelectsNothing` | ferret-core/src/multi_search.rs:979-1005 | a query with a negated filter among its conjuncts, at any depth and whatever the other conjuncts are, selects no file at all |
| `FilterMeaning.OrFilterRestrictsBoth` | ferret-core/src/multi_search.rs:992-998 | an OR of a filter, of either kind and on either side, with a query without filters, anywhere among the conjuncts, acts as the filter alone: the other side is restricted too and its content test is ignored |
| `FilterMeaning.OrFilterAgreesExactly` | ferret-core/src/multi_search.rs:992-998 | the search agrees on every file with the meaning of an OR of a filter and a filter-free query if and only if the filter keeps every file or the other side holds on no content |
| `FilterMeaning.OrOfFiltersIsConjunction` | ferret-core/src/multi_search.rs:992-1025 | an OR of filters, of the same or of both kinds, anywhere among the conjuncts selects what it would with both sides as conjuncts |
| `FilterMeaning.MixedOrNeverAgrees` | ferret-core/src/multi_search.rs:992-1025 | path:x OR language:y selects the files that have both, and on some file that differs from the meaning |
| `FilterMeaning.TwoLanguagesAreAlternatives` | ferret-core/src/multi_search.rs:1008-1025 | two languages in a conjunction act as alternatives although no file has both |
| `UnicodeFolding.VariantsAdmittedExactly` | ferret-core/src/query_trigrams.rs:102-113 | for a text of three bytes or more, the trigrams extracted admit every content that spells it in any case if and only if it has no k and no s |
| `UnicodeFolding.AsciiFoldingExactly` | ferret-core/src/verify.rs:113-126 | for an engine that folds case by Unicode, matches of a text differ from it by ASCII case only, on all contents, if and only if it has no k and no s |
| `UnicodeFolding.LiteralSearchExactly` | ferret-core/src/multi_search.rs:1287-1374 | with such an engine a case-insensitive literal finds through the index, in every segment, what brute force finds if and only if it has fewer than three bytes or no k and no s |
| `UnicodeFolding.UnicodeFoldingLosesFiles` | ferret-core/src/verify.rs:113-136 | any other text loses the file that spells its k and s outside ASCII: brute force reports it and the index does not find it |
| `MultiSearch.MergeResults` | ferret-core/src/multi_search.rs:1182-1193 | the map after merging all segments' matches one by one |
| `MultiSearch.MergeAllIsNewest` | ferret-core/src/multi_search.rs:1182-1193 | the merged map holds for every path exactly the newest segment's match |
| `MultiSearch.RankMerged` | ferret-core/src/multi_search.rs:1195-1201 | whatever order the hash map yields, the entries come out ranked |
| `MultiSearch.RankedByScore` | ferret-core/src/multi_search.rs:1195-1201 | in a ranked list scores never rise, and matches of one score are in path order |
| `MultiSearch.RankedUnique` | ferret-core/src/multi_search.rs:1195-1201 | a set of matches with distinct paths has one ranked order |
| `MultiSearch.StreamIsMerged` | ferret-core/src/multi_search.rs:1229-1280 | stream and merge deliver the same matches: one per path, the newest segment's |
| `StreamOrder.StreamComesFrom` | ferret-core/src/multi_search.rs:1229-1280 | a match is in the stream if and only if it is the first of its path in the newest segment that has the path |
| `StreamOrder.StreamOrdered` | ferret-core/src/multi_search.rs:1229-1280 | matches of newer segments are sent first, and those of one segment in the order in which it found them |
| `MultiSearch.BatchIsRankedStream` | ferret-core/src/multi_search.rs:1182-1206 | the batch result is the ranked stream, however the hash map lists its values |
| `MultiSearch.SearchSegmentsWithQuery` | ferret-core/src/multi_search.rs:1113-1217 | without a limit the result is the matches the stream would send, scores never rising and equal scores in path order, whatever order segments finish in |
| `MultiSearch.SendSegment` | ferret-core/src/multi_search.rs:1253-1276 | one segment's matches go to the receiver unless their path was sent before, until the limit is reached or the receiver hangs up; a limit of m sends m, a limit of zero one, and no limit as many as the receiver takes |
| `MultiSearch.SearchStreaming` | ferret-core/src/multi_search.rs:1229-1280 | the receiver gets the first m matches of the stream for a limit of m, one for a limit of zero, and with no limit as many as it takes |
| `MultiSearch.SnapshotEqualsBruteForce` | ferret-core/src/multi_search.rs:1113-1217 | over a whole snapshot the index finds what brute force finds in every segment |
| `Budget.StepInv` | ferret-core/src/multi_search.rs:1130-1180 | every atomic action of any worker keeps the invariant: accepted plus remaining is constant at both levels, and a match is lost only against an exhausted budget |
| `Budget.RunInv` | ferret-core/src/multi_search.rs:1130-1180 | the invariant holds in every state of every interleaving |
| `Budget.AcceptedWithinLimit` | ferret-core/src/multi_search.rs:1130-1180 | at every moment accepted plus remaining equals the limit, globally and per segment |
| `Budget.GrantedWasLeft` | ferret-core/src/multi_search.rs:1130-1150 | in every run a segment is searched only if something was left of the limit when it started and skipped only if nothing was, and it may keep as much as was left when it read the counter again |
| `Budget.ExactlyTheLimit` | ferret-core/src/multi_search.rs:1133-1180 | when all workers are done, exactly min(limit, matches) have been accepted |
| `Budget.NothingLost` | ferret-core/src/multi_search.rs:1306-1344 | if the limit covers all matches, or there is none, every segment delivers all its matches in candidate order |
| `Budget.NeverStuck` | ferret-core/src/multi_search.rs:1130-1180 | while some worker is not done, some action is possible |
| `Budget.StepsRunOut` | ferret-core/src/multi_search.rs:1130-1180 | every action uses up some of the work that is left |
| `Budget.RunsEnd` | ferret-core/src/multi_search.rs:1130-1180 | the length of every run is bounded |
| `LimitedSearch.DeliversAllExactly` | ferret-core/src/multi_search.rs:1133-1180 | at the end of any run under a limit all matches have been delivered if and only if the limit covers them all |
| `LimitedSearch.LimitedBatchIsComplete` | ferret-core/src/multi_search.rs:1130-1206 | with such a limit merging, ranking and truncating gives the ranked stream in every run |
| `LimitedSearch.LimitedSearchIsComplete` | ferret-core/src/multi_search.rs:1113-1217 | search_segments_with_query with a limit that covers all matching entries returns what the unlimited search returns, in every interleaving |
| `LimitedSearch.BatchOrdered` | ferret-core/src/multi_search.rs:1182-1206 | whatever the workers delivered, the result has at most as many entries as the limit, scores never rising and equal scores in path order |
| `LimitedSearch.BatchKeepsBest` | ferret-core/src/multi_search.rs:1182-1206 | the result holds merged entries, each path once, and one is missing only if the limit is used up by entries that rank ahead of it |
| `LimitedSearch.TruncationIdle` | ferret-core/src/multi_search.rs:1130-1206 | in every run the result is the ranking of all that was delivered: the final truncation never cuts anything |
| `LimitedSearch.AllSomesAreFound` | ferret-core/src/multi_search.rs:1287-1374 | what the workers deliver without a limit is what the sequential search of each segment finds |
| `LimitRuns.FavouringRun` | ferret-core/src/multi_search.rs:1130-1180 | a run exists in which one segment delivers all matches of a set and another delivers candidates of a set only, whenever the limit has room for the first and none outside the second; the sets must hold with a candidate all that are verified before it |
| `LimitRuns.OrderKept` | ferret-core/src/multi_search.rs:1367-1371 | in every reachable state candidates wait for those before them, in a short list or in their piece of a long one, and behind a match that was dropped none is kept |
| `LimitRuns.DeliveredNeeds` | ferret-core/src/multi_search.rs:1130-1180 | in any finished run a segment that delivers a candidate delivers as many matches as there are up to it in its piece |
| `LimitRuns.AvoidedAreLost` | ferret-core/src/multi_search.rs:1130-1180 | in any finished run the matches accepted and those a segment passed over are together at most all matches |
| `NewestWins.CanShowOlderExactly` | ferret-core/src/multi_search.rs:1367-1371 | the condition on the job, in terms of its matches: an older segment of fewer than 64 candidates must fit the matches before the first one of the path and that one in the limit, and the newest must lose all but those before; with 64 or more candidates in any order, one match must fit and the path's matches must be lost |
| `NewestWins.LimitShowsOlderExactly` | ferret-core/src/multi_search.rs:1130-1206 | some run merges a path from an older segment than the newest that matches it if and only if the condition holds, for any way the pool cuts long lists into pieces |
| `NewestWins.OnlyNewestShown` | ferret-core/src/multi_search.rs:1130-1206 | with every path once in a segment and the condition failing, every run returns newest matches only |
| `NewestWins.LimitCanShowOlderMatch` | ferret-core/src/multi_search.rs:1130-1206 | where the condition holds, a run exists whose file list shows an older segment's match |
| `NewestWins.NewestWinsExactly` | ferret-core/src/multi_search.rs:1130-1206 | with every path once in a segment and different versions in different segments, all runs return newest matches only if and only if the condition fails |
| `NewestWins.NewestWinsSurely` | ferret-core/src/multi_search.rs:1130-1206 | the condition fails, whatever the order, if the limit is zero, or covers all matches, or no path is matched in two segments |
| `NewestWins.SizeOrderProtects` | ferret-core/src/multi_search.rs:1367-1371 | two small files in the older segment, a newer version of the second in the newest, and limit one: newest wins although none of the three holds |
| `QueryParser.Parser.SkipWhitespace` | ferret-core/src/query.rs:213-222 | the cursor stops at the first byte that is not ASCII white space |
| `QueryParser.Parser.StartsWithKeyword` | ferret-core/src/query.rs:231-241 | true exactly for the keyword followed by the end, white space, a quote or a slash |
| `QueryAlphabet.Keywords` | ferret-core/src/query.rs:225-330 | the keywords are spelled OR, NOT, path:, language:, lang:, case: and case:yes |
| `QueryAlphabet.Spacing` | ferret-core/src/query.rs:213-222 | space, tab, line feed, form feed and carriage return separate words, and these, quotes and slashes end a literal |
| `QueryAlphabet.BlankExactly` | ferret-core/src/query.rs:90-95 | blank input is counted off in characters with the White_Space property, in their UTF-8 form |
| `QueryParser.Parser.ParseLiteral` | ferret-core/src/query.rs:358-380 | the maximal run of literal bytes with the current case flag, which is then cleared; an error for an empty run |
| `QueryParser.Parser.ParsePhrase` | ferret-core/src/query.rs:383-403 | the text up to the closing quote with the case flag, which is then cleared; an error at the end of input if the quote is missing |
| `QueryParser.Parser.ParseRegex` | ferret-core/src/query.rs:406-454 | the pattern up to the first slash that no backslash hides, if the library accepts it; all error states of cursor and flag |
| `QueryParser.Parser.ParsePathFilter` | ferret-core/src/query.rs:457-472 | the word behind path:, the case flag staying as it is |
| `QueryParser.Parser.ParseLanguageFilter` | ferret-core/src/query.rs:475-496 | the cursor and result are those of the grammar, which reads the word behind language: or lang: and asks the name table |
| `QueryParser.Parser.ParseCaseModifier` | ferret-core/src/query.rs:500-516 | case:yes before a boundary sets the flag for the next term, otherwise the token is a literal |
| `QueryParser.Parser.ParsePrimary` | ferret-core/src/query.rs:320-355 | dispatch on the next bytes in the order of the source |
| `QueryParser.Parser.ParseUnary` | ferret-core/src/query.rs:294-317 | NOT nests, and depth is put back except by the call that exceeds the limit of 128 |
| `QueryParser.Parser.ParseAnd` | ferret-core/src/query.rs:263-291 | terms up to the end, OR, or a term that fails, whose position alone is restored |
| `QueryParser.Parser.ParseOr` | ferret-core/src/query.rs:246-260 | conjunctions joined from the left by OR |
| `QueryParser.ParseQuery` | ferret-core/src/query.rs:90-105 | an error for blank input, a failed parse or input left over |
| `QueryPrinter.LanguageWord` | ferret-core/src/query.rs:475-496 | language: or lang: in front of any word that the name table reads is that language's filter, whether or not the word is the printed name |
| `QuerySyntax.TermIsRead` | ferret-core/src/query.rs:294-516 | a word behind any NOT and case:yes is read as what it means, and the case flag after it is that of the language description |
| `QuerySyntax.ParserFindsMeaning` | ferret-core/src/query.rs:90-516 | every query text written by the rules of the language parses to its meaning: case:yes makes the next text or phrase case-sensitive across filters and NOT, conjunctions are flat, alternatives nest to the left |
| `QuerySyntax.LanguageQuery` | ferret-core/src/query.rs:475-496 | the query lang:word or language:word is the filter of the language the word names |
| `QuerySyntax.CasedQuery` | ferret-core/src/query.rs:500-516 | case:yes and a text is the case-sensitive literal |
| `ParserExact.ParsesExactly` | ferret-core/src/query.rs:90-516 | the parser returns a query if and only if the input is not blank and is a text of the language that means that query |
| `ParserExact.OneReading` | ferret-core/src/query.rs:90-516 | no query text has two readings |
| `QueryPrinter.UnaryShape` | ferret-core/src/query.rs:294-317 | a term that parses leaves depth where it was and nests NOT at most 127 deep |
| `QueryPrinter.UnaryOrigin` | ferret-core/src/query.rs:294-380 | a literal parsed under the case flag is case-sensitive, and one that ignores case is the text at the cursor |
| `QueryPrinter.ParseShape` | ferret-core/src/query.rs:90-105 | what the parser can return: left-nested ORs of conjunctions of at least two terms, with the restrictions on the text of each kind of term |
| `StrictParser.BacktrackingNeverHelps` | ferret-core/src/query.rs:263-291 | a grammar without backtracking returns the same result on every input: any term that fails makes the query fail, and success means all input was used |
| `QueryPrinter.TermReads` | ferret-core/src/query.rs:294-545 | a printed term without case flags and with readable names is read back whatever follows it after a space |
| `QueryPrinter.ConjunctionReads` | ferret-core/src/query.rs:263-545 | a printed conjunction is read back before the end or OR |
| `QueryPrinter.OrReads` | ferret-core/src/query.rs:246-545 | printed alternatives are read back with their nesting |
| `PrintedSource.PrintedText` | ferret-core/src/query.rs:518-545 | every query the parser returns prints as a text of the language with single spaces, language: and the printed names, with case: before a case-sensitive literal |
| `PrintedSource.PrintedMeans` | ferret-core/src/query.rs:90-545 | without case-sensitive parts and with names that read back, the printed text is well-formed and means the query |
| `RoundTrip.NeverBlank` | ferret-core/src/query.rs:90-95 | what the parser returned does not print as text that trims to nothing |
| `RoundTrip.RoundTrip` | ferret-core/src/query.rs:90-545 | for every input that parses to a query without case-sensitive literals or phrases and with readable language names, parsing the printed query gives the same query |
| `TermRoundTrip.TermSurvives` | ferret-core/src/query.rs:518-545 | a query of one term, possibly negated, survives printing and parsing if and only if nothing in it is case-sensitive and its language name reads back |
| `ExactRoundTrip.UnaryTokens` | ferret-core/src/query.rs:294-380 | a term read from printed tokens uses up some of them and has at most as many leaves as there were words less the case modifiers; no language name among them was rejected, and without modifiers nothing is case-sensitive |
| `ExactRoundTrip.TokensParse` | ferret-core/src/query.rs:90-355 | the same for the query read from a whole printed text |
| `ExactRoundTrip.RoundTripExactly` | ferret-core/src/query.rs:90-545 | whatever the input parses to, terms, conjunctions or alternatives: printed and parsed again it is the same query if and only if it has no case-sensitive literal or phrase and only language names that read back |
| `Metadata.MetadataBuilder.AddFile` | ferret-core/src/metadata.rs:114-121 | entries grow by the one added, the path map points at the last entry of each path, and the next id stays above all ids while there is room |
| `Metadata.MetadataBuilder.Get` | ferret-core/src/metadata.rs:134-136 | the first entry with the id, or none |
| `Metadata.MetadataBuilder.GetByPath` | ferret-core/src/metadata.rs:141-143 | the last entry with the path, or none |
| `Metadata.MetadataBuilder.WriteTo` | ferret-core/src/metadata.rs:159-206 | header, 74-byte entries and path pool of the entries added, or an error exactly if a count or length does not fit |
| `Metadata.FieldAt` | ferret-core/src/metadata.rs:13-31 | every field of an entry lies at its documented offset and the entry is 74 bytes long |
| `MetadataReader.Get` | ferret-core/src/metadata.rs:319-336 | direct index first, then a scan; an unreadable entry is an error |
| `MetadataReader.GetSizeBytes` | ferret-core/src/metadata.rs:345-380 | the same two steps on the raw fields |
| `MetadataReader.FindFileIdByPath` | ferret-core/src/metadata.rs:387-409 | the first entry whose pool bytes are the path; slicing past the data panics |
| `ReaderChecks.MetadataOpensExactly` | ferret-core/src/metadata.rs:235-276 | any bytes open if and only if magic, version and table size fit, with 58 bytes an entry in version 1 and 74 in version 2 |
| `ReaderChecks.EntryReads` | ferret-core/src/metadata.rs:426-485 | an entry of either version reads as its stored fields, version 1 without highlight fields; it is corrupt if and only if its path is outside the pool or not UTF-8 |
| `ReaderChecks.LookupFindsId` | ferret-core/src/metadata.rs:319-336 | on any file that opens: the entry at index id if it has the id, otherwise the first that has it, unless an unreadable entry is met before |
| `MetadataReader.WrittenAnswers` | ferret-core/src/metadata.rs:235-276 | the reader opens what the builder wrote, and entry i reads back as the i-th entry added |
| `MetadataReader.GetExact` | ferret-core/src/metadata.rs:319-336 | with distinct ids, contiguous or not, get returns the entry of the id and nothing for any other id |
| `MetadataReader.SizeAgrees` | ferret-core/src/metadata.rs:345-380 | get_size_bytes agrees with get for every id |
| `MetadataReader.FindByPathExact` | ferret-core/src/metadata.rs:387-409 | with distinct paths, the path of an entry is found with its id, and no other path is |
| `MetadataReader.PathSearchPanicsExactly` | ferret-core/src/metadata.rs:387-409 | on any file that opens, looking for a path panics if and only if the scan reaches an entry that does not fit at the version 2 size before it meets the path |
| `MetadataReader.NoPathPanicsExactly` | ferret-core/src/metadata.rs:387-409 | no path panics if and only if there are no entries or the last one fits at the version 2 size |
| `MetadataReader.Version1PathSearchPanics` | ferret-core/src/metadata.rs:387-409 | on a version 1 file that ends with its table, looking for a path panics if and only if it is not the path of an entry before the last one: an absent path and the last entry's own path panic |
| `Highlight.EncodeRle` | ferret-core/src/highlight.rs:72-96 | neighbours of one kind are joined and cut into runs of at most 65535, three bytes each |
| `Highlight.DecodeRle` | ferret-core/src/highlight.rs:99-109 | one token per three bytes; a shorter rest is ignored |
| `Highlight.DecodeAt` | ferret-core/src/highlight.rs:99-109 | any bytes decode to one token per three of them, two of length and one of kind, unknown kinds being Other |
| `Highlight.CodingKeepsKinds` | ferret-core/src/highlight.rs:72-109 | coding keeps the kind of every byte of the line |
| `Highlight.CodingRoundTrip` | ferret-core/src/highlight.rs:72-109 | a token list comes back if and only if all lengths are between 1 and 65535 and neighbours of one kind occur only behind a token of 65535 bytes |
| `HighlightFile.BuildFileHighlight` | ferret-core/src/highlight.rs:112-124 | the lines' codes one after another and where each starts, modulo 2^32 |
| `HighlightFile.LinesReadBack` | ferret-core/src/highlight.rs:126-142 | every line, empty ones included, reads back as the coding of its own tokens, and lines past the end are empty |
| `HighlightFile.LinePanicsExactly` | ferret-core/src/highlight.rs:126-142 | on any block, reading a line panics if and only if the data ends between its offset and the next, and otherwise gives the tokens between the two |
| `HighlightFile.Serialize` | ferret-core/src/highlight.rs:159-169 | line count, offsets, data |
| `HighlightFile.Deserialize` | ferret-core/src/highlight.rs:171-191 | fails exactly if the block is too short for its own line count, otherwise reads offsets and data |
| `HighlightFile.BlockReadsBack` | ferret-core/src/highlight.rs:159-191 | reading a serialized block gives the highlight data that was serialized |
| `HashDiff.IndexedHashes` | ferret-core/src/hash_diff.rs:36-58 | the map has exactly the paths with a live entry, each with the hash of the last live entry in the last segment that has one |
| `HashDiff.HashDiff` | ferret-core/src/hash_diff.rs:34-113 | events come in strictly increasing path order, one per path: Created for a readable, indexable file without an indexed hash, Modified for one with another hash, Deleted for an indexed path that the walk did not find |
| `HashDiff.PatchedIs` | ferret-core/src/hash_diff.rs:34-113 | applying the events gives each readable, indexable file its hash on disk, keeps the entry of a file that was skipped, and drops the rest |
| `HashDiff.DiffThenPatchExactly` | ferret-core/src/hash_diff.rs:34-113 | applying the events gives the map of the files on disk if and only if no indexed file was found but skipped |
| `HashDiff.NoEventsExactly` | ferret-core/src/hash_diff.rs:34-113 | with nothing skipped, there are no events if and only if the index already describes the disk |

## Left out

- ExactRoundTrip.RoundTripExactly: a language name that does not read back is empty or has a first word that the parser rejects, as "Plain Text" has; a table in which the first word of one name is another language's name would make the printed text a different query.
- TermRoundTrip.TermSurvives: language names do not end in a space, as none in the repository does; any table otherwise.
- SegmentSearch.IndexedEqualsBruteForce: rests on the engine's matches bringing the trigrams of their term and on the branch cap doing no harm; RegexSearch.SafeQueryEqualsBruteForce derives the first from the query's own texts and patterns, and MergeAndExactIff characterizes the second.
- UnicodeFolding.LiteralSearchExactly: texts and regex literals with characters outside ASCII, which have Unicode case variants of their own, are not folded here; for them AsciiFolding stays a hypothesis about the engine.
- RegexTrigrams.AlternationIsSafeExactly: necessity is proved for up to 42 branches; ManyBranchesNeedNotCover shows that it fails for 257, whose trigrams use up the alphabet; where between the two it begins to fail is open.
- RegexSearch.SafeQueryEqualsBruteForce: that a match shows a prefix and a suffix literal the library listed is the library's guarantee and a hypothesis.
- NewestWins.NewestWinsExactly: assumes that matches of one path in different segments differ, so that an older one can be told from the newest by its value; LimitShowsOlderExactly compares segment ids and assumes nothing.
- Verify.ReportedLinesExactly: a match that runs past its line can hide a match that starts on the next one, because find_iter's matches do not overlap; Verify.EngineScan says for every engine which matches are reported.
- Context.DisplayExactly: line numbers plus context within u32; beyond that the wrapped sum is modelled by AttachContext.
- MultiSearch.SearchStreaming: the parallel verification inside one segment is sequential here; its order does not matter because results are collected in candidate order.
- NewestWins.LimitCanShowOlderMatch: the run promised assumes a scheduler that may run the segments in any order, and the pieces of a long candidate list in any interleaving, as a pool with enough threads may. How the pool cuts a list into pieces is a parameter; lists of fewer than 64 candidates are one piece, as in the sequential branch. The statements about all runs assume nothing.
- NewestWins.CanShowOlderExactly: for lists of 64 candidates or more it takes every candidate as a piece of its own; for other cuts LimitShowsOlderExactly gives the condition piece by piece.
- Verify.ColumnsPoint: a match that runs past the end of its line gets an end column past the line's text, as in the source; how a client displays it is not modelled.
- HighlightFile.LinesReadBack: requires that the last line starts below 2^32, because offsets are stored modulo 2^32.
- The table of language names and extensions, and whether each printed name is accepted by it.
- The regex library: parsing, matching, literal extraction; regex_literal_prefix and extract_literal_runs, which are heuristics on pattern text.
- Ranking formulas on floating point; any total order of scores and paths will do here.
- The searches by plain literal and by pattern besides their verification and candidate steps; they repeat the structure of the query search.
- Highlight tokens inside search results.
- Building, compacting and tombstoning segments, except that a segment's trigram index is written from its own files numbered from zero.
- Files, memory maps, atomic renames, compression, hashing, the directory walker: buffers and results are values.
- Daemon, sockets, command line, web interface, watcher, registry, previews: plumbing.
- Memory order of the atomic operations: each is one indivisible action on one counter, and different counters are not related.
