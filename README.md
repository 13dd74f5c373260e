# genome_compare, modelled in Dafny

genome_compare prepares chromosome sequence files for comparison in a search
engine. A source file (FASTA-like: header lines start with `>`) is read line
by line. Blank and header lines are dropped, and every accepted line is
stripped and paired with its byte span in the raw file. The accepted text is
re-chunked into fixed-size segments that carry two coordinate systems: the raw
span in the source file and the span in the filtered text. Each segment's
data then goes through text transforms:

- a deleter that removes a list of strings and their reverse complements;
- a word splitter that cuts the sequence into "words" at CG, GC, AT and TA and drops N;
- a word filter that keeps the long words only.

A sampler carves evenly spaced windows of words out of each segment and
writes each window together with its reverse complement.

Around that pipeline sit smaller tools, all modelled here:

- a fixed-width line re-chunker (`line_gen.py`);
- a batching line writer (`mk50.py`);
- the search-file generator with its own reverse complement (`mksearch.py`);
- two complement-only helpers (`revreq.py`, `data/xq.py`);
- the bulk-file generator (`esgen.py`), including its tiny SPLIT/REMOVE/TOKENS configuration language;
- the readers of that bulk layout (`data/x.py`, `data/xq.py`);
- the query-line parser shared by `species/es_search.py`, `jjquery.py` and `script_tools/sample_query.py`;
- the sample-record splitter and CSV rows of `script_tools/sample_query.py`;
- the environment expansion of `species/script_writers/experiment.py`;
- the labelling helpers of `data/mkcsv.py` and `data/files.py`.

Layout, one Dafny module per component:

| file | module | models |
|---|---|---|
| wrappers.dfy | Wrappers | `Option`, `Result`, the Python exceptions the scripts can raise, and `Run` (the lines printed and the exception that ended a script) |
| pystrings.dfy | PyStrings | the Python string semantics used throughout: `strip`, `split()`, `split(sep)`, `split(sep, maxsplit)`, `join`, `find`, `replace` (non-overlapping, left to right), `upper`, slicing with negative bounds, `int()` on an optionally signed run of ASCII decimal digits with single '_' separators between digits and surrounding whitespace, `str()` on integers, truncating `int(a/b)` |
| source_stream.dfy | SourceStream | `excludeLinesStartingWith`, `DataSourceFilter.sequences`, the `.gz` test |
| segmenter.dfy | Segmenter | `SegmentGenerator.segments` |
| transforms.dfy | Transforms | `COMPLEMENT`/`revcomp`, the word splitters, `deleterFactory`, `wordFilterFactory`, `SegmentProcessor` |
| sampler.dfy | Sampler | `Sampler.write_samples` |
| line_gen.dfy | LineGen | `linegen`'s buffer loop |
| mk50.dfy | Mk50 | the `NWriter` class and its driver |
| mksearch.dfy | MkSearch | `comp`, `revcomp` and the per-line loop |
| complement_only.dfy | ComplementOnly | the complement-only `comp`/`revcomp` of `revreq.py` and `data/xq.py` |
| esgen.dfy | Esgen | `recode`, `token_recode`, the CREATE/DATA record layout |
| bulk_reader.dfy | BulkReader | `data/x.py` and `data/xq.py` reading that layout back |
| query_line.dfy | QueryLine | `qline` and the query assembly of `es_search.py` and `jjquery.py` |
| sample_query.dfy | SampleQuery | the sample-record loop of `sample_query.py` |
| experiment.dfy | Experiment | `get_string_or_environment_value`, `env_expand` and the configuration accessors |
| mkcsv.dfy | MkCsv | `x2`, `include_hit`, `above`/`below`, `species_y`, `chk_chromo`, name parsing, `show_hit`, count mode |
| files.dfy | Files | `extractSpecies` and the chromosome extraction |

`species/processing.py` is an earlier copy of the pipeline. Its line filter,
segment generator, word filter and `SegmentProcessor` are the same code as in
`script_tools/processing.py` apart from variable names. They are modelled once,
and the table below cites both files. Only its word splitter differs: it keeps
the tuple order and does not upper-case. That splitter is
`Transforms.VariantSplitter`. The three copies of `qline` are identical too,
and `QueryLine` models them once.

Three behaviours of the code are worth knowing before reading the table:

- The word splitter turns "ATCG" into "A TC G": CG is split first, and the TC left in the middle is no pattern.
- `revcomp` in the pipeline raises KeyError on any character outside A, C, G, T and blank. Only `mksearch.py`'s `revcomp` maps such characters to themselves.
- The sampler places window i at `int(between/2) + i*(between + words_per_sample)`, counted in words.

## Model

| member | source | states |
|---|---|---|
| SourceStream.AcceptDefault | script_tools/processing.py:17-23 | with the default marker a line is accepted exactly when some character is not blank and the raw line does not start with '>'; the same code is at species/processing.py:4-10 |
| SourceStream.Sequences | script_tools/processing.py:45-52 | the generator's loop yields exactly the pieces of the reference definition `Filtered`, with the raw offset advancing over every line; the same code is at species/processing.py:25-32 |
| SourceStream.FilteredTexts | script_tools/processing.py:48-51 | one piece per accepted line, carrying that line's stripped text, in file order |
| SourceStream.FilteredShape | script_tools/processing.py:46-52 | every piece has end - start = length of its non-empty text; starts strictly increase; pieces do not overlap; all end within the raw length of the file; the same code is at species/processing.py:26-32 |
| SourceStream.RawLengthAppend | script_tools/processing.py:52 | each raw line moves the offset by its full untrimmed length, accepted or not |
| SourceStream.LastPart | script_tools/processing.py:39 | `split(".")[-1]` is the text after the last '.', or the whole name when it has none |
| SourceStream.GzipIffSuffix | script_tools/processing.py:38-43 | the source is read through gzip exactly when the name ends in ".gz" or is "gz" itself; the same code is at line_gen.py:12-17 |
| Segmenter.Segments | script_tools/processing.py:69-98 | at least one segment; all but the last have exactly size characters; the last has at most size, and at least 1 when any text was accepted; concatenated segment data equals the accepted text; empty input gives exactly (0, 0, 0, 0, ""); each raw span starts where the previous one ended; each full segment ends at the raw position of its cut; the last ends at the last piece's end; when the pieces are well formed (`SourceStream.WellFormed`: each span as long as its non-empty text, spans in order and not overlapping, as the line filter yields them), the first segment starts at the first piece's start and every raw span is at least as long as its filtered span; the same code is at species/processing.py:48-77 |
| Segmenter.CutFull | script_tools/processing.py:85-96 | the inner while loop keeps the generator invariant and leaves at most size characters buffered |
| Segmenter.CutStep | script_tools/processing.py:86-96 | one cut: the segment's raw end is the running end minus the remainder's length; the next segment starts there; line 95's expression changes nothing; the filtered offset moves by size; the same code is at species/processing.py:64-75 |
| Segmenter.FeedFirst | script_tools/processing.py:75-79 | with an empty buffer the piece's text and raw span start a new segment |
| Segmenter.FeedNext | script_tools/processing.py:80-83 | with a non-empty buffer the piece's text is appended and the raw end moved to the piece's end |
| Segmenter.SegmentStart | script_tools/processing.py:90-96 | segment k's filtered span starts at k * size |
| Segmenter.TiledEnd | script_tools/processing.py:98 | the last filtered span ends at the total length of the data |
| Segmenter.SegmentsSliceText | script_tools/processing.py:86-98 | segment k's data is the slice [k * size, fEnd) of the accepted text |
| Segmenter.DataSlice | script_tools/processing.py:90-98 | every segment's data sits at its filtered span in the concatenated data |
| Transforms.RevComp | script_tools/processing.py:113-117 | succeeds exactly on strings over {A, C, G, T, blank}; same length; character i is the complement of character n-1-i; otherwise KeyError names the last character outside the table |
| Transforms.RevCompInvolution | script_tools/processing.py:116-117 | revcomp of revcomp gives the string back on the table's characters |
| Transforms.RevCompInTable | script_tools/processing.py:113-117 | revcomp stays inside the table |
| Transforms.RevCompBases | script_tools/processing.py:124-126 | the reverse complement of an A/C/G/T string is again A/C/G/T only |
| Transforms.WordSplitterKeepsBases | script_tools/processing.py:101-110 | the splitter only inserts blanks and removes N: with blanks and N dropped, output and upper-cased input agree |
| Transforms.WordSplitterDropsN | script_tools/processing.py:101-110 | the output holds no 'N' |
| Transforms.WordSplitterUpperCase | script_tools/processing.py:104-110 | the output holds no lower-case letter |
| Transforms.SplitterOrderExample | script_tools/processing.py:101-110 | "ATCG" becomes "A TC G" because CG is split before AT |
| Transforms.SplittersDifferOnLowerCase | species/processing.py:79-86 | the earlier splitter keeps a lower-case "n" that the later one drops |
| Transforms.VariantPassesLowerCase | species/processing.py:79-86 | text without upper-case letters passes the earlier splitter unchanged |
| Transforms.MakeDeletions | script_tools/processing.py:120-126 | 2n strings: each drawn string followed by its reverse complement, all of the drawn length and over A/C/G/T |
| Transforms.DeleteOnlyRemoves | script_tools/processing.py:128-132 | the deleter only removes characters: the output's multiset of characters is contained in the input's and it is never longer |
| Transforms.EmptyReplaceNothing | script_tools/processing.py:124-130 | with subsequence length 0 the strings are empty and `replace('', '')` leaves the line as it is |
| Transforms.LongWords | script_tools/processing.py:139 | every kept word is at least minWordLen long and comes from the input |
| Transforms.WordFilterWords | script_tools/processing.py:135-141 | reading the filtered line back gives exactly the long words, in order; the same code is at species/processing.py:88-93 |
| Transforms.WordFilterIdempotent | script_tools/processing.py:135-141 | filtering twice is filtering once |
| Transforms.Process | script_tools/processing.py:144-152 | one output per segment, its four offsets unchanged, its data transformed; the same code is at species/processing.py:95-103 |
| Sampler.WriteSamples | script_tools/processing.py:174-185 | with number_samples 0, nothing written and ZeroDivisionError; otherwise a "same" line and a "reversed" line holding its reverse complement per window, in order, stopping at the first window whose reverse complement raises |
| Sampler.SamplesInside | script_tools/processing.py:176-181 | with at least words_per_sample * number_samples words, every window lies inside the list, holds words_per_sample words, and ends before the next starts |
| Sampler.OversampledWindowExample | script_tools/processing.py:177-181 | oversampling gives a negative start, and Python's slice then yields an empty first window |
| LineGen.Chunks | line_gen.py:21-31 | at least one line; every line but the last has exactly linelen characters; the last has at most linelen; the lines concatenated are the kept stripped text; the last is empty exactly when nothing was kept |
| LineGen.Feed | line_gen.py:22-29 | one line is stripped, and unless the filter rejects it, appended and cut; nothing is lost or reordered |
| LineGen.CutFull | line_gen.py:26-29 | the inner loop writes full chunks until at most linelen characters remain |
| LineGen.KeptSnoc | line_gen.py:23-25 | a rejected line adds nothing; a kept one adds its stripped text |
| LineGen.NothingKept | line_gen.py:30-31 | empty or fully rejected input keeps nothing, so the file is one empty line |
| LineGen.LastChunk | line_gen.py:30-31 | the remainder is written last, and is empty only when everything is |
| LineGen.FlattenWidth | line_gen.py:27-29 | full chunks laid end to end are width times their number long |
| LineGen.ChunkIsSlice | line_gen.py:27-29 | chunk k is the kept text from k * linelen on |
| LineGen.OutputLength | line_gen.py:27-31 | full chunks, each written with its '\n', take linelen + 1 characters apiece |
| LineGen.OutputPrefix | line_gen.py:27-31 | the file is written front to back: the text of the first m chunks is a prefix of the whole |
| LineGen.OutputLine | line_gen.py:27-31 | after k full chunks, chunk k starts at k * (linelen + 1) in the file and is followed by '\n' |
| LineGen.FileLine | line_gen.py:21-31 | line k of the file is the kept text from k * linelen on, at most linelen characters, ending in '\n' |
| Mk50.NWriter.constructor | mk50.py:4-8 | numbering starts at 1 with an empty buffer and no files |
| Mk50.NWriter.WriteFile | mk50.py:10-14 | the buffer becomes file fileNumber, the number moves on, the buffer is not cleared |
| Mk50.NWriter.Add | mk50.py:16-20 | everything added so far (files in order, then the buffer) grows by exactly the line; exactly when the buffer reaches numberLines it becomes the next file and is emptied; files stay numbered from 1 without gaps, each holding numberLines lines, and the buffer stays below a full batch |
| Mk50.PathsDistinct | mk50.py:11 | different file numbers give different paths |
| Mk50.NumberLinesRead | mk50.py:23-25 | without a second argument a file holds 100 lines; a second argument written as str(k) gives k; an empty one raises ValueError |
| Mk50.Run | mk50.py:22-31 | files 1..count in order concatenate to the input; for n >= 1 all but the last hold n lines, the last holds fewer (possibly none) and count = len(lines) // n + 1; for n <= 0 the buffer never fills and every line goes to file 1 |
| Mk50.ConcatUpdate | mk50.py:10-14 | writing file n after files 1..n-1 appends its lines to theirs |
| MkSearch.RevComp | mksearch.py:26-28 | revcomp preserves length |
| MkSearch.CompInvolution | mksearch.py:13-23 | comp undoes itself on every character |
| MkSearch.CompFixes | mksearch.py:13-23 | comp fixes exactly the characters outside A, C, G, T |
| MkSearch.RevCompInvolution | mksearch.py:26-28 | revcomp undoes itself on every string |
| MkSearch.AgreesWithTable | mksearch.py:13-28 | where the pipeline's table-driven revcomp succeeds, it gives the same string |
| MkSearch.Generate | mksearch.py:30-44 | the loop produces the actions of every line, in order |
| MkSearch.QualifyingLines | mksearch.py:30-32 | a line produces output exactly when it is longer than searchSize, newline included, and then four actions |
| MkSearch.WindowFiles | mksearch.py:33-44 | the forward file is named species.chromosome.(n * sectionSize) and holds "data is " + the window + newline; the ".revcomp" file holds its reverse complement without newline; the forward command is printed first |
| MkSearch.ActionCount | mksearch.py:30-44 | four actions per qualifying line and none for the others |
| ComplementOnly.RevComp | revreq.py:26-28 | the result has the input's length |
| ComplementOnly.NoReversal | revreq.py:26-28 | character i of the result is comp of character i of the input: no reversal |
| ComplementOnly.OutputAlphabet | revreq.py:16-28 | only A, C, G and T come out, whatever goes in; the same code is at data/xq.py:15-27 |
| ComplementOnly.InvolutionOnBases | revreq.py:16-24 | applying it twice gives back a string over A, C, G, T |
| ComplementOnly.NotInvolutionOnN | revreq.py:16-24 | N goes to A and then to T |
| ComplementOnly.DiffersFromMkSearch | revreq.py:16-24 | it agrees with mksearch's comp on A, C, G, T and differs on every other character |
| ComplementOnly.DiffersFromReverse | revreq.py:26-28 | "AC" gives "TG" here and "GT" in mksearch |
| Esgen.Recode | esgen.py:23-39 | the while loop computes `Recoded`: "line." + the replace calls joined by '.', the line itself after an unknown keyword, IndexError for a short SPLIT item |
| Esgen.AppendSplit | esgen.py:27-30 | one `replace('x', 'x[0] x[1]')` per SPLIT item, or IndexError at an item shorter than two characters |
| Esgen.AppendRemove | esgen.py:31-34 | one `replace('x', '')` per REMOVE item |
| Esgen.SplitEditsItems | esgen.py:28-30 | SPLIT succeeds exactly when every item has two characters, and item k gives edit k |
| Esgen.UnknownKeyword | esgen.py:35-36 | an unknown keyword first returns the line unchanged |
| Esgen.UnknownStops | esgen.py:35-36 | after an unknown keyword nothing later is read |
| Esgen.OddTokenIgnored | esgen.py:26 | a trailing odd token is never read |
| Esgen.SplitRemoveConfig | esgen.py:23-39 | "SPLIT xs REMOVE ys" compiles to the SPLIT edits followed by one removal per REMOVE item |
| Esgen.SplitterConfig | esgen.py:23-39 | "SPLIT CG,GC,AT,TA REMOVE N" compiles to the pipeline's AT_CG_SPLIT table |
| Esgen.TokenRecodeOperator | esgen.py:41-46 | "TOKENS op" becomes the list filter with op read back between its fixed prefix and ']'; another first word returns the line; an empty line or a bare TOKENS raises IndexError |
| Esgen.Generate | esgen.py:54-72 | the loop writes the CREATE and DATA lines of every stripped input line and its processed text, with the id and location counters |
| Esgen.EmitRecord | esgen.py:55-72 | one iteration: the id idprefix_(n+1), the location before the line, the next location = location + len(stripped) |
| Esgen.CreateAt | esgen.py:58-61 | bulk line 2k is record k's CREATE line, with id idprefix_(k+1) |
| Esgen.DataAt | esgen.py:55-72 | bulk line 2k+1 is record k's DATA line: the same id, its processed text, and as location the length of the stripped lines before it |
| Esgen.BulkPrefix | esgen.py:54-72 | the records of the first m lines are the first 2m records |
| Esgen.LocationStep | esgen.py:56-57 | each location is the previous one plus the previous stripped line's length |
| Esgen.IdsDistinct | esgen.py:59 | different record numbers give different ids |
| Esgen.DataLineJoin | esgen.py:18 | no placeholder holds '"', so the DATA line's replacements act field by field |
| Esgen.FilledSlots | esgen.py:68-71 | with values free of '"' and "__", id, data, chromosome and species land in '"'-fields 3, 7, 11 and 15, and the location in the last |
| Esgen.DataLineSplit | esgen.py:17-18 | split on '"', a DATA line read back with its line ending has 19 fields, with data at 7, chromosome at 11 and species at 15 |
| Esgen.NumberClean | esgen.py:56 | str(location) can never disturb the layout |
| Esgen.IdClean | esgen.py:59 | an id whose prefix is clean and does not end in '_' cannot disturb the layout |
| BulkReader.ReadFields | data/x.py:15-21 | the fields at '"'-split indices 7, 15 and 11, or IndexError when the line has fewer than 16 fields |
| BulkReader.XBounds | data/x.py:13-15 | a line offset at or past the end prints only the bad-record message; otherwise record r is read from line 2r+1 |
| BulkReader.XReportOutcome | data/x.py:22-32 | num_entries 0 raises ZeroDivisionError after one line; a missing option raises TypeError; otherwise five lines, the whole sequence last |
| BulkReader.GroupSliceInside | data/x.py:24-29 | the group slice lies inside the entries, is entries_per_group long, and adjacent entries give adjacent slices |
| BulkReader.XOnRecord | data/x.py:9-32 | on a readable record x.py prints its species, chromosome and whole sequence |
| BulkReader.OffsetSelectsRecord | data/xq.py:36 | every offset in [k million, (k+1) million) selects line 2k+1 |
| BulkReader.PrefixLength | data/xq.py:49 | the printed data is the first `length` characters, or all of them |
| BulkReader.XqBounds | data/xq.py:29-51 | a missing file prints one message; an offset past the records prints the bad-offset message |
| BulkReader.XqOnRecord | data/xq.py:33-49 | on a readable line xq.py prints its species, chromosome and data prefix |
| BulkReader.EsgenFileLine | esgen.py:60-72 | line 2k+1 of esgen's file is record k's DATA line |
| BulkReader.ReadDataLine | data/xq.py:38-44 | a DATA line of clean values, read back, gives those values |
| BulkReader.ReadBack | data/x.py:13-21 | line 2k+1 of esgen's output gives record k's processed text, species and chromosome |
| BulkReader.XReadsEsgen | data/x.py:13-32 | x.py on record k of esgen's output prints that record's processed text |
| BulkReader.XqReadsEsgen | data/xq.py:36-49 | xq.py with an offset inside record k's million prints that record's processed text, cut to `length` |
| QueryLine.QLine | jjquery.py:14-42 | the method with its range loop computes `QLineText`; the same code is at species/es_search.py:13-41 and, never called, at script_tools/sample_query.py:16-44 |
| QueryLine.RangeOpVals | jjquery.py:28-41 | the range loop computes `OpVals(data, 1)` |
| QueryLine.OpValsError | jjquery.py:31-41 | the range loop raises IndexError exactly when an operator sits in the last operator position |
| QueryLine.OpValsSnoc | jjquery.py:32-41 | an operator and its value add their fragment at the end; an unknown token there adds nothing |
| QueryLine.OpValsCount | jjquery.py:32-41 | at most one fragment per operator position |
| QueryLine.FindAfterStrip | jjquery.py:15-21 | on the stripped line, `find(" ...") > 0` is containment |
| QueryLine.KindByContains | jjquery.py:15-28 | " is not " wins over " is ", which wins over the comparisons |
| QueryLine.BlankLineNoMatch | jjquery.py:14-42 | a line of blanks matches nothing and gives None |
| QueryLine.IsNotLine | jjquery.py:22-24 | "f is not v ..." is must_not on f with v alone |
| QueryLine.IsLine | jjquery.py:25-27 | "f is w1 w2 ..." is must on f with the words after "is" joined by single blanks |
| QueryLine.RangeLine | jjquery.py:28-42 | a comparison line is a range clause on its first token with the loop's fragments |
| QueryLine.RenderMatchClause | jjquery.py:10-27 | must_not and must render as their templates with field and value in place |
| QueryLine.RenderRange | jjquery.py:42 | a range renders as its template with the field and the ','-joined fragments in place |
| QueryLine.QueryBody | jjquery.py:46 | the body is the query template with the fragments in the bool slot |
| QueryLine.JoinFragments | jjquery.py:46 | `",".join` raises TypeError exactly when a query line gave None |
| QueryLine.CollectAppend | jjquery.py:44 | the query lines of two parts are those of each part in order; an error in the first wins |
| QueryLine.CommentAndEmptyLines | jjquery.py:44 | a '#' line contributes nothing; an empty line raises IndexError; the same code is at species/es_search.py:44 |
| QueryLine.BodyOutcome | jjquery.py:44-46 | no body exactly when there are no query lines; TypeError when one is None; otherwise the template with the ','-joined fragments |
| QueryLine.BlankLineLines | jjquery.py:44 | a blank line "\n" contributes None between the query lines around it |
| QueryLine.BlankLineFails | jjquery.py:44-46 | a blank line in the file makes both scripts fail with TypeError; the same code is at species/es_search.py:43-46 |
| QueryLine.SameRequest | jjquery.py:43-54 | jjquery.py and ES_Search.query build the same request and differ only when there is none |
| QueryLine.CommentsOnly | jjquery.py:53-54 | a file of comment lines sends nothing, and jjquery.py prints "File has no query" |
| QueryLine.CollectAround | jjquery.py:44 | a non-comment line giving None sits between the query lines around it |
| SampleQuery.ParseSample | script_tools/sample_query.py:49-50 | too few parts raise ValueError |
| SampleQuery.SampleRoundTrip | script_tools/sample_query.py:49-50 | seven space-free fields and a data part, with a trailing newline, unpack to those parts; the data keeps its spaces |
| SampleQuery.FewSpaces | script_tools/sample_query.py:49-50 | fewer than seven spaces before the trailing blanks raise ValueError |
| SampleQuery.SplitMaxCount | script_tools/sample_query.py:50 | split(' ', maxsplit) gives at most one part more than there are separators |
| SampleQuery.SampleQueryShape | script_tools/sample_query.py:51-54 | the request is the query template holding must on "data" with the sample's data |
| SampleQuery.Rows | script_tools/sample_query.py:63-72 | one row per hit |
| SampleQuery.RowReadBack | script_tools/sample_query.py:64-72 | split on ',', a row gives its eleven fields back, with the int score at 3, mloc at 6 and seg_size = sEO - segloc at 8 |
| SampleQuery.ShortLinesIgnored | script_tools/sample_query.py:47-48 | lines of at most 100 characters print nothing and raise nothing |
| SampleQuery.DoQueryError | script_tools/sample_query.py:46-50 | the script stops with ValueError exactly when some sample line cannot be unpacked |
| Experiment.NotConfigured | species/script_writers/experiment.py:20-21 | "# " + s + " is NOT part of configuration" |
| Experiment.PlainValue | species/script_writers/experiment.py:35-48 | a string not starting with "env." is its own value |
| Experiment.VariableValue | species/script_writers/experiment.py:35-46 | "env.NAME" is NAME's value, or unresolved when NAME is unset |
| Experiment.VariablePathValue | species/script_writers/experiment.py:35-46 | "env.NAME/rest" is NAME's value + "/" + rest, or unresolved when NAME is unset |
| Experiment.EnvExpandOutcome | species/script_writers/experiment.py:102-118 | env_expand succeeds exactly when the four values resolve; otherwise the process exits |
| Experiment.MissingTool | species/script_writers/experiment.py:103 | a missing TOOL_PATH entry raises KeyError |
| Experiment.ExpandResolved | species/script_writers/experiment.py:112-117 | the four replacements in order, with OUTPUT_PATH replaced by the resolved path + "/" + the raw title |
| Experiment.ExpandWithoutNames | species/script_writers/experiment.py:112-117 | text naming none of the four names comes back unchanged |
| Experiment.ExpandOutputPath | species/script_writers/experiment.py:112-117 | a leading OUTPUT_PATH expands to the resolved path, "/", the raw title and the rest |
| Experiment.WaitUntilStartedCases | species/script_writers/experiment.py:135-139 | the expanded entry when configured, the not-configured comment otherwise |
| Experiment.SampleSizePercent | species/script_writers/experiment.py:152-156 | one trailing '%' is removed, and only one |
| Experiment.PercentStrippedOnce | species/script_writers/experiment.py:152-156 | "x%" gives x and "x%%" gives "x%" |
| Experiment.SampleSizeInfo | species/script_writers/experiment.py:158-159 | the count unchanged; for a size ending in '%', the percentage is the size with that one '%' removed; any other size unchanged |
| MkCsv.X2 | data/mkcsv.py:21-25 | 2A and 2B become 2; anything else is itself |
| MkCsv.X2Idempotent | data/mkcsv.py:21-25 | x2 is idempotent |
| MkCsv.IncludeHitCases | data/mkcsv.py:27-31 | with "same", 2/2A/2B match each other and anything else only itself; otherwise only chromosome2 matches |
| MkCsv.AboveBelowInverse | data/mkcsv.py:48-62 | above and below undo each other on the three species and never give the species itself |
| MkCsv.SpeciesYKeys | data/mkcsv.py:64-69 | species_y always holds three species: the checked one at 200, above at 400, below at 0 |
| MkCsv.ChkChromoCases | data/mkcsv.py:71-75 | "ALL" matches everything; otherwise only equality |
| MkCsv.ParseFileName | data/mkcsv.py:79-81 | the name raises ValueError exactly when the part before its first '.', split on '_', has fewer than three parts; no other error is raised |
| MkCsv.ParseFileNameFields | data/mkcsv.py:79-81 | for a name of n '_'-separated fields and an extension: fewer than three fields raise ValueError; otherwise the last three fields are species, chromosome and location, and the sample is reversed exactly when n == 4 (five or more fields are not reversed) |
| MkCsv.ParseFileNameRoundTrip | data/mkcsv.py:79-81 | "[prefix_]species_chromosome_location.ext" parses back into its parts, reversed exactly when the prefix is there |
| MkCsv.ShowHit | data/mkcsv.py:33-42 | a row only for a hit from another species, on an included chromosome, with score above 250; ValueError exactly for a non-numeric location; a graph row raises KeyError for a species not in species_y |
| MkCsv.ShownColor | data/mkcsv.py:37-42 | a shown row ends with "inversed" exactly for a reversed sample |
| MkCsv.ShownGivesRow | data/mkcsv.py:38-42 | every shown hit gives a row, when graphing once species_y knows both species |
| MkCsv.AddCounts | data/mkcsv.py:86-90 | every hit above 250 adds one to its "species_chromosome" key; no other key changes |
| MkCsv.JsonFiles | data/mkcsv.py:13 | an entry is kept exactly when it is in the listing and its name ends in ".json"; nothing is added |
| MkCsv.CountMode | data/mkcsv.py:13-90 | the counts over the selected `.json` files of the listing, or ValueError for the first bad name among them; other entries never raise |
| MkCsv.CountFiles | data/mkcsv.py:77-90 | the loop gives, per key, the number of hits above 250 in the selected files (the reference `CountOf` over `CountedHits`), or ValueError exactly when a file name cannot be unpacked |
| MkCsv.CountOfAppend | data/mkcsv.py:86-90 | counts over two runs of hits add up |
| MkCsv.CountedHitsError | data/mkcsv.py:78-80 | a bad file name after good ones makes count mode fail |
| Files.ExtractSpecies | data/files.py:3-12 | human exactly when "huref" is found past index 0; gorilla when "orilla" is and "huref" is not; chimp otherwise; the "ptr" test decides nothing |
| Files.FoundPastStartIff | data/files.py:5-6 | find(p) > 0 holds exactly when p occurs but not at index 0 |
| Files.LeadingMatchIgnored | data/files.py:6-12 | a name starting with "huref" and without "orilla" is labelled chimp |
| Files.ChromosomeOf | data/files.py:17 | the chromosome is the text after the first "_chr" of the second-to-last '.'-component |
| Files.ChromosomeError | data/files.py:17 | IndexError exactly when there is no '.' or that component has no "_chr" |
| Files.ListingOutcome | data/files.py:14-18 | one printed line per path, or IndexError at the first path without a chromosome |
| Files.ListingRow | data/files.py:18 | each line is "species chromosome path" |
| PyStrings.StripEmptyIffBlank | script_tools/processing.py:19 | `len(line.strip()) > 0` exactly when the line is not all blanks |
| PyStrings.SplitJoin | script_tools/processing.py:138-140 | joining tokens by single blanks and splitting again gives the tokens back |
| PyStrings.JoinSplitStr | species/script_writers/experiment.py:37-45 | joining split(sep) with sep gives the string back |
| PyStrings.TruncDiv | script_tools/processing.py:176-178 | int(a/b) truncates toward zero |
| PyStrings.PySlice | script_tools/processing.py:181 | Python slicing agrees with plain slicing on in-range bounds and never grows |
| PyStrings.SplitMax | script_tools/sample_query.py:50 | split(sep, maxsplit) gives between 1 and maxsplit + 1 parts |
| PyStrings.Find | data/files.py:4-6 | find returns the lowest index of an occurrence, or -1 |
| PyStrings.PyIntOfString | data/mkcsv.py:35 | int(str(i)) == i |
| PyStrings.PyIntGrouped | data/mkcsv.py:35 | int() reads "1_0" as 10: a single underscore between digits is skipped |
| PyStrings.PyIntDoubleUnderscore | data/mkcsv.py:35 | int() refuses "1__0" with ValueError |
| PyStrings.PyIntEdgeUnderscore | data/mkcsv.py:35 | int() refuses a leading or trailing underscore with ValueError |

## Left out

- File, gzip and standard-output handling: sources are sequences of lines, and written files are sequences or maps of lines. The `open_datasource` decision itself is modelled.
- The HTTP requests to the search service (`jjquery.py`, `species/es_search.py`, `script_tools/sample_query.py`, `revreq.py`). The request is modelled as its URL and body, and the response as a function parameter (`SampleQuery.DoQuery`'s `search`).
- `eval` of user-supplied Python in `line_gen.py`, `esgen.py` and `revreq.py`: the filter is a predicate parameter and the three evaluated lines are functions in `Esgen.Config`. revreq.py's query flow (read, complement, eval, send) is left out for the same reason; only its `comp`/`revcomp` are modelled.
- Transforms.MakeDeletions: the random draws of `deleterFactory` are an input list, so the random seeding in `Experiment.__init__` is not modelled.
- `prepare_for_es` and the earlier pipeline's `__main__`: they only chain the modelled stages and write lines. `prepare_for_es` also reads the undefined globals `species` and `chromosome`.
- `convert_str_to_number`, `Transformations.min_word_length` and the other YAML accessors that only index dictionaries: float arithmetic or no logic.
- Sampler.WriteSamples: the percentage is an integer, so a fractional `sample_size_percent` (float arithmetic) is not modelled.
- PyStrings.TruncDiv: Python's `int(a/b)` goes through a float; the model divides exactly, which differs only above 2^53.
- PyStrings.Upper: upper-cases ASCII letters only; Python's Unicode case mapping is not modelled.
- MkCsv.ShowHit: the score is taken as an integer; `int(float(score))` on the JSON value is not modelled. The `int(int(location)/1000000)` conversion is modelled, and the printing loop over listed files and JSON hits is left out.
- MkCsv.CountMode: the final print loop's dictionary order and the header line printed at the start are left out; the counts themselves are modelled.
- Experiment.EnvExpand: the `print` of the warning and `error_out`'s output are left out, and `exit` is the `Exit` error. `fs_ensure_folder_exists`, `get_output_folders` and `input_data_specification` touch the file system and are left out.
- Experiment.Lookup: a nested YAML lookup (`configuration["segment"]["sample"]`) is modelled as its final string value; its KeyErrors are left out.
- The `search` parameter of `SampleQuery.DoQuery` stands for the JSON hits already read: `SampleQuery.Hit` holds the results of `int(y['_score'])`, `int(y['_source']['segloc'])` and `int(y['_source']['sEO'])` as integers, so those conversions (and their ValueErrors) are not modelled, nor the KeyErrors of the `y['_source'][...]` lookups for a missing field.
- `mksearch.py`'s `int(sys.argv[...])` parsing of its arguments: they are integer parameters.
- PyStrings.PyInt: only ASCII digits are read; Python's `int()` also accepts the other Unicode decimal digits (Arabic-Indic, full-width and the like), which the model refuses with ValueError.
- BulkReader.ReadBack: the bulk file is modelled as the list of lines esgen wrote, so `Readable` requires that no written value contains '\n' or '\r'; a value with a line break would shift every later line of the real file, and that case is not modelled.
- Segmenter.Segments: requires a segment size of at least 1. With size 0 the source's cutting loop (script_tools/processing.py:85-96) never ends once any text is accepted, and non-termination is not modelled.
- LineGen.Chunks: requires a line length of at least 1. With linelen 0 the source's loop (line_gen.py:26-29) never ends once any text is kept, and non-termination is not modelled.
