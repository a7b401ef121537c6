# Booklet builder, modelled in Dafny

`outputs_to_booklet.py` collects the text sidecar files that an image
generator writes next to each generated PNG. It parses each file into a
record, enriches the record from a hand-written model table, sorts the
records by model and creation time, and renders one HTML booklet. That
booklet has a table of contents, one section per model, and one block per
image.

This project models the pure pipeline of that script:

- **Reading a file.** `readlines` splits the text into lines (`Text.ReadLines`).
- **Parsing the trailing line.** The last line is `key: value, key: value, ...`. It is split on every comma, each segment is split on every colon, and the pieces go through `dict()` (module `Metadata`, built on `Text` and `OrderedDict`).
- **Enriching the record.** Lines 42 to 45 look up the model name by hash and add the prompt, the image path and the creation time. Lines 47 and 48 add the optional negative prompt (module `Records`).
- **The model tables.** The two lookup tables and the sort priority they define are in module `ModelTable`.
- **The sort.** The stable sort on `(priority, created)` is in module `Ordering`. It is written as an insertion sort over any key function.
- **Collecting files.** Images that are missing are skipped. The first parse failure aborts the run (module `Booklet`).
- **Layout.** Layout covers:
  - the table of contents;
  - grouping the sorted records into sections wherever the model hash changes;
  - the attribute table of each record, which drops five keys.

  All of this is in module `Layout`.

Python dicts are modelled as sequences of `(key, value)` pairs with distinct keys (`OrderedDict.Dict`):

- Assigning to an existing key keeps its position.
- Assigning a new key appends it.
- `dict(pairs)` lets the last value win but keeps each key at its first position.

Every exception the script can raise on a file is a `Metadata.Failure`. The run's result is a `Result`, so the error paths are modelled rather than excluded. In source order the failures are:

- an empty file;
- a segment that does not split into exactly two pieces;
- a missing `Model hash`;
- an unknown hash;
- a one-line file;
- a negative-prompt line without a colon.

Three behaviours of the code are easy to miss, and the model keeps them:

- **Splitting segments.** A segment is split on every colon, and `dict()` rejects a segment with more or fewer than two pieces. So a value holding a colon aborts the run (`Metadata.ColonInValueFails`).
- **The attribute table.** The table leaves out five keys: `Model hash`, `Model name`, `img`, `prompt` and `Negative prompt` (`Layout.Excluded`).
- **Unknown hashes in the sort.** `Ordering.Rank` ranks an unknown hash last. Line 42 already rejects such a hash, so the sort never sees one.

## Model

| member | source | states |
|---|---|---|
| Text.ReadLines | outputs_to_booklet.py:40 | the lines concatenate back to the text; each is non-empty with a line feed at most at its end; all but the last end in a line feed; empty text has no lines |
| Text.Strip | outputs_to_booklet.py:41 | the result has no surrounding whitespace, is no longer than the input, and is empty exactly when the input is all whitespace |
| Text.StripShape | outputs_to_booklet.py:41 | the stripped text is a slice of the input with only whitespace cut off on either side |
| Text.StripTrimmed | outputs_to_booklet.py:41 | stripping text without surrounding whitespace leaves it unchanged |
| Text.StripIdempotent | outputs_to_booklet.py:41 | stripping twice is stripping once |
| Text.Occurrences | outputs_to_booklet.py:41 | the count is positive exactly when the character occurs |
| Text.Split | outputs_to_booklet.py:41 | `str.split(c)` gives one more piece than there are separators, and no piece contains the separator |
| Text.JoinSplit | outputs_to_booklet.py:41 | joining the pieces with the separator gives the text back |
| Text.SplitJoin | outputs_to_booklet.py:41 | splitting the join of separator-free pieces gives the pieces back |
| Text.SplitOnce | outputs_to_booklet.py:41 | text with exactly one separator splits into what is before and what is after it |
| Text.FirstIndex | outputs_to_booklet.py:48 | the index of the first occurrence of a character, or the length exactly when it does not occur |
| Outcomes.Traverse | outputs_to_booklet.py:41 | mapping a fallible function over a list succeeds exactly when every element succeeds, and then yields each element's value in place |
| Outcomes.TraverseError | outputs_to_booklet.py:41 | a failed traversal reports the error of the first failing element, all elements before it having succeeded |
| OrderedDict.Find | outputs_to_booklet.py:42 | a lookup finds a value exactly when the key is present, and the pair is in the dict |
| OrderedDict.FindDistinct | outputs_to_booklet.py:42 | with distinct keys, looking up the i-th key gives the i-th value |
| OrderedDict.Set | outputs_to_booklet.py:43 | after `d[k] = v`, `k` maps to `v` and every other key is unchanged |
| OrderedDict.SetKeys | outputs_to_booklet.py:42-45 | assignment keeps the key order, appending the key only when it is new |
| OrderedDict.DropAddKey | outputs_to_booklet.py:109 | filtering after an assignment adds the key at the end only when it is new and not filtered |
| OrderedDict.SetNewKey | outputs_to_booklet.py:42-45 | assigning a new key appends the pair at the end |
| OrderedDict.SetDistinct | outputs_to_booklet.py:42-45 | assignment keeps keys distinct |
| OrderedDict.FromPairs | outputs_to_booklet.py:41 | `dict(pairs)` has distinct keys, exactly the keys of the pairs, and only entries taken from the pairs |
| OrderedDict.FromPairsLastWins | outputs_to_booklet.py:41 | in `dict(pairs)`, each key maps to the last value given for it |
| OrderedDict.FromPairsKeyOrder | outputs_to_booklet.py:41 | in `dict(pairs)`, keys keep the order of their first occurrence |
| OrderedDict.FromDistinctPairs | outputs_to_booklet.py:41 | pairs with distinct keys become the dict unchanged |
| OrderedDict.Without | outputs_to_booklet.py:109 | the dict comprehension without the given keys maps those keys to nothing, keeps every other key's value, and keeps keys distinct |
| OrderedDict.WithoutKeys | outputs_to_booklet.py:109 | a key remains exactly when it was present and is not filtered out |
| OrderedDict.WithoutKeyOrder | outputs_to_booklet.py:109 | the remaining keys keep their insertion order |
| OrderedDict.IndexOf | outputs_to_booklet.py:52 | `list.index`: the first position holding the key |
| ModelTable.TablesAgree | outputs_to_booklet.py:15-26 | both tables have the same keys in the same order, each key once |
| ModelTable.ModelName | outputs_to_booklet.py:42 | `model_hash_names[h]` succeeds exactly for the hashes in the table |
| ModelTable.ModelNameOfEntry | outputs_to_booklet.py:21-26 | looking up the i-th table hash gives the i-th display name |
| ModelTable.Priority | outputs_to_booklet.py:52 | a known hash's priority is the position of that hash in `model_hash_files` |
| ModelTable.PriorityIsPosition | outputs_to_booklet.py:52 | the i-th entry of the name table is known and has priority i |
| ModelTable.PriorityInjective | outputs_to_booklet.py:52 | distinct known hashes have distinct priorities |
| Metadata.ParseSegment | outputs_to_booklet.py:41 | a segment parses exactly when it has one colon, into the stripped text either side of it; otherwise the error names the segment and its piece count |
| Metadata.ParseSegments | outputs_to_booklet.py:41 | all segments parse exactly when each has one colon, giving one pair per segment in order |
| Metadata.ParseSegmentsError | outputs_to_booklet.py:41 | a failure reports the first segment without exactly one colon |
| Metadata.ParseSettings | outputs_to_booklet.py:41 | the trailing line parses exactly when every comma segment of the stripped line has one colon; the dict's keys are distinct and its keys and values are stripped |
| Metadata.ParseSettingsError | outputs_to_booklet.py:41 | a failed trailing line reports its first bad segment and that segment's piece count |
| Metadata.ParseSettingsLastWins | outputs_to_booklet.py:41 | for a repeated key the settings hold the last value, and keys stay in first-occurrence order |
| Metadata.BlankLineFails | outputs_to_booklet.py:41 | a blank trailing line fails on its single empty segment |
| Metadata.SplitSerialise | outputs_to_booklet.py:41 | splitting a written settings line on commas gives back the written fields |
| Metadata.RoundTrip | outputs_to_booklet.py:41 | parsing a settings line written from plain, distinct, colon-free and comma-free pairs gives those pairs back |
| Metadata.ColonInValueFails | outputs_to_booklet.py:41 | a written value that contains a colon makes the whole trailing line fail |
| Metadata.NegativePrompt | outputs_to_booklet.py:47-48 | a negative prompt is taken exactly when the line starts with the marker; a marker line without a colon fails; the prompt is stripped |
| Metadata.NegativeAfterFirstColon | outputs_to_booklet.py:48 | the negative prompt is the stripped rejoin of everything after the first colon, as `split(':', 1)[1]` gives it |
| Metadata.NegativeRoundTrip | outputs_to_booklet.py:47-48 | a written `Negative prompt: t` line gives back `t` |
| Records.AsValuesKeys | outputs_to_booklet.py:41 | turning the parsed strings into record values keeps the keys, their order and their distinctness |
| Records.AsValuesFind | outputs_to_booklet.py:41 | each key keeps its parsed text as its value |
| Records.Annotate | outputs_to_booklet.py:42-45 | the record gains the model name, prompt, image and creation time, with every other key unchanged and keys distinct; existing keys keep their place and the new ones are appended in assignment order |
| Records.EnrichKeys | outputs_to_booklet.py:41-45 | an accepted record's keys are the parsed keys in their order, followed by whichever of `Model name`, `prompt`, `img`, `Created` are new |
| Records.Enrich | outputs_to_booklet.py:42 | enrichment fails with a missing hash when the settings lack `Model hash`, fails on an unknown hash, and succeeds exactly otherwise |
| Records.EnrichRecord | outputs_to_booklet.py:41-45 | the enriched record carries the hash, prompt, image and time, and every key the script does not assign keeps its parsed value |
| Records.AddNegative | outputs_to_booklet.py:47-48 | a marker line sets `Negative prompt` to the parsed text (appending the key when it is new), any other line leaves the record as it is, and the hash and time are kept; it fails exactly when the marker line lacks a colon |
| Records.EnrichedSet | outputs_to_booklet.py:48 | setting any key other than `Model hash` and the four keys of lines 42-45 keeps the record enriched, with the same hash and time |
| Records.ParseLines | outputs_to_booklet.py:41-48 | an empty line list fails for want of a trailing line; an accepted one has at least two lines and a parsable trailing line, and yields an enriched record with the file's creation time (the failure order is in `Records.ParseLinesOutcome`) |
| Records.ParseLinesKeys | outputs_to_booklet.py:41-48 | an accepted file's keys are its trailing line's keys, then the new assigned keys, then `Negative prompt` when line 1 has the marker and the key is new |
| Records.ParseFile | outputs_to_booklet.py:39-40 | a file fails for want of lines exactly when it is empty |
| Records.ParseLinesOutcome | outputs_to_booklet.py:41-48 | the failures happen in the script's order: bad trailing line, missing hash, unknown hash, missing second line, then the negative prompt |
| Records.ParseLinesRecord | outputs_to_booklet.py:41-45 | a parsed record has the settings' hash, that hash's table name, line 0 as prompt, the image and the time |
| Records.ParseLinesSettings | outputs_to_booklet.py:41-48 | a parsed record holds the negative prompt of the second line when it has the marker, otherwise any settings value for that key, and every unassigned settings key's value |
| Records.ParseFileEnriched | outputs_to_booklet.py:39-48 | every parsed file is an enriched record with a known hash |
| Ordering.Rank | outputs_to_booklet.py:52 | a known hash ranks at its position in `model_hash_files`, an unknown one after all of them; `Ordering.KeyOf` pairs the rank with the creation time |
| Ordering.Insert | outputs_to_booklet.py:52 | insertion adds exactly the one element |
| Ordering.Sort | outputs_to_booklet.py:52 | the sort is a permutation of its input |
| Ordering.InsertSorted | outputs_to_booklet.py:52 | inserting into a sorted list keeps it sorted |
| Ordering.SortSorted | outputs_to_booklet.py:52 | the sorted list is ordered by priority, then by creation time |
| Ordering.InsertWithKey | outputs_to_booklet.py:52 | insertion puts the element ahead of every element with an equal key and keeps their order |
| Ordering.SortStable | outputs_to_booklet.py:52 | the sort is stable: elements with equal keys keep their relative order |
| Layout.Blocks | outputs_to_booklet.py:89-95 | the reference layout of the first n records: between n and 2n blocks, opening with the first record's section (since `last_model` starts as `None`) and ending with the last record's entry |
| Layout.Group | outputs_to_booklet.py:89-95 | the loop over the sorted records emits exactly the blocks of the reference layout |
| Layout.BlocksEntries | outputs_to_booklet.py:90-102 | the layout shows every record once, in order |
| Layout.BlocksSections | outputs_to_booklet.py:91-93 | the section headers are those of the records where the hash changes |
| Layout.BlocksCurrent | outputs_to_booklet.py:91-95 | after each record, the open section is that record's model |
| Layout.EntryInOwnSection | outputs_to_booklet.py:91-95 | every record sits under the header of its own model |
| Layout.SectionsFromElements | outputs_to_booklet.py:91-93 | every header comes from a record whose hash differs from the previous record's, with that record's hash and name |
| Layout.ElementsOpened | outputs_to_booklet.py:91-95 | every record's model has a section |
| Layout.OpeningsFromElements | outputs_to_booklet.py:91-95 | every section belongs to the model of some record |
| Layout.OpeningRaisesRank | outputs_to_booklet.py:52 | in the sorted list, a record opening a section has a higher priority than every record before it |
| Layout.SectionsIncrease | outputs_to_booklet.py:89-95 | after the sort, section priorities strictly increase, so no model gets two sections |
| Layout.SortedSections | outputs_to_booklet.py:89-95 | a sorted list lays out as one section per model, in priority order, each record under its own model |
| Layout.RecordsRanked | outputs_to_booklet.py:52 | the record key's first component is the rank of the record's hash |
| Layout.TocOf | outputs_to_booklet.py:84-85 | one contents item per table entry, in table order |
| Layout.TocLinksSection | outputs_to_booklet.py:84-85 | each known model's contents item sits at its priority and links to its section's anchor with its name |
| Layout.Attributes | outputs_to_booklet.py:109 | the attributes drop exactly the five excluded keys, keep every other value, and keep the remaining keys in insertion order |
| Layout.Cells | outputs_to_booklet.py:112-115 | one shown value per entry, in order |
| Layout.Render | outputs_to_booklet.py:104-107 | the negative-prompt paragraph is rendered exactly when the record has that key |
| Layout.HeaderKeys | outputs_to_booklet.py:109-111 | the header row lists exactly the record's keys other than the five excluded, in insertion order |
| Layout.CellsAligned | outputs_to_booklet.py:109-115 | the data row has one cell per header, and each cell shows that header key's value |
| Layout.FileHeader | outputs_to_booklet.py:41-111 | a file's header row is its trailing line's keys in first-occurrence order less the excluded ones, then `Created` unless the trailing line set it |
| Layout.CreatedColumn | outputs_to_booklet.py:109-115 | the creation time has a column, and its cell is the formatted time |
| Booklet.Build | outputs_to_booklet.py:30-95 | the run succeeds exactly when every file with an image parses, and then carries the full contents list and the missing images in order; otherwise it fails with the first failing file's error |
| Booklet.ParseEnriched | outputs_to_booklet.py:39-48 | every parsed input is an enriched record |
| Booklet.Collect | outputs_to_booklet.py:33-50 | on success the collected records and the missing-image warnings together number the inputs |
| Booklet.CollectSucceeds | outputs_to_booklet.py:33-50 | collection succeeds exactly when every input with an image parses |
| Booklet.CollectRecords | outputs_to_booklet.py:33-50 | the warnings name the missing images in order, and the records are the parses of the inputs with images, in order |
| Booklet.CollectErr | outputs_to_booklet.py:33-50 | a failed run reports the error of the first input with an image that fails to parse |
| Booklet.CollectedEnriched | outputs_to_booklet.py:33-50 | every collected record is enriched |
| Booklet.PermutationKnown | outputs_to_booklet.py:52 | reordering keeps every hash known |
| Booklet.SortedEnriched | outputs_to_booklet.py:52 | the sorted records are still enriched |
| Booklet.SectionNamed | outputs_to_booklet.py:93 | every section header names a known model with its table name |
| Booklet.BuildEntries | outputs_to_booklet.py:50-52 | the booklet shows a permutation of the collected records, sorted and stable for equal keys |
| Booklet.BuildSections | outputs_to_booklet.py:89-95 | the booklet has one section per model present, in priority order, each record under its own model |
| Booklet.BuildHeaders | outputs_to_booklet.py:84-95 | each section header shows the table name of its model, and the contents item at that model's priority links to it |

## Left out

- The file system is left out: the glob, the image-existence check, `stat`, `open` and the final write (lines 28-37, 39, 45, 123-124). Each input carries its text, image path, image flag and creation time.
- Creation times are integers that encode the naive local `datetime` of line 45: its wall-clock reading counted in microseconds, so integer order is Python's naive `datetime` order, which ignores `fold` in a repeated daylight-saving hour. Turning `st_ctime` into that reading with `datetime.fromtimestamp` belongs to the file-system step left out above, because it depends on the clock's time zone. `isoformat(timespec='minutes', sep=' ')` becomes a formatter parameter `fmt: int -> string`.
- `tqdm`, `logging` and `print` (lines 6, 8, 11-12, 33, 36, 90, 92) only report progress. The missing-image warnings are kept as `Collected.missing`.
- The HTML boilerplate (lines 57-82, 87, 97-102 apart from their values, 117-121) is constant text. The model keeps the text of the contents items and the content of everything that depends on the data: each section header's hash and name (lines 93-94, without their markup), and the cells of the table rows.
- `Text.IsSpace`: Python's `str.strip()` also removes non-ASCII Unicode whitespace, and the model knows only the ASCII whitespace characters.
- `Text.ReadLines`: the text is assumed to have its newlines already translated to line feeds, as universal-newline mode does.
- `Metadata.RoundTrip` is stated only for pairs with distinct keys whose keys and values are stripped and free of commas and colons, and whose values are non-empty. The non-empty restriction belongs to the lemma, not to the parser: `a: ` parses to `("a", "")`. The lemma leaves that case out because the written line then ends in a blank that stripping removes, which its proof does not follow.
- `Ordering.Sort` is an insertion sort. It has the same result as Python's Timsort on every input, because both are stable sorts by the same key, but not its running time.
- `Records.TextAt`, `Records.HashOf` and `Records.CreatedOf` are total. They return a fallback value for a missing key, and they are only applied to enriched records, where the key is always present.
- `Layout.Render` keeps the values of lines 97-115 but not the surrounding markup. Its contract states only when the negative paragraph appears; the table rows are covered by `Layout.HeaderKeys` and `Layout.CellsAligned`.
- `Collected.missing` holds each missing image relative to the outputs folder, the form line 44 stores. The warning of line 36 prints the full path under that folder.
