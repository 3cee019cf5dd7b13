# XML to table converter: a verified model

This project models the conversion core of a small web service that turns XML documents into tables. It covers four Python sources:

- **core.py** finds the repeating "row" element of an XML document. It normalises each row into nested dicts and lists, flattens those into dotted keys, and assembles a table. Its columns are the sorted union of all keys.
- **app.py** is the FastAPI front end:
  - `/start` validates the uploads and registers a queued job;
  - `_run_job` converts the files one after another. It writes each table as an Excel workbook, split into 16384-column sheets when wider, and records its progress in the in-memory job registry;
  - `/progress` streams events derived from the job record;
  - `/download` hands out the finished archive.
- **tasks.py** holds the Celery task `convert_task`. It converts saved uploads to CSV, Parquet or XLSX, optionally projects the columns, zips several files together and reports progress per file.
- **job_store.py** holds `JobStore`, which keeps the same job records as JSON in Redis. The archive bytes are held as base64 text.

The model is written in Dafny, one module per concern:

| file | module | models |
|---|---|---|
| wrappers.dfy | `Wrappers` | `Option`, `Result` |
| assoc.dfy | `Assoc` | Python dicts as insertion-ordered association lists (`d[k] = v`, `d.get`, `d.update`) |
| text.dfy | `Text` | `str.strip`, `str(n)`, `sorted` on strings, ASCII `str.lower`, `endswith` |
| xml_tree.dfy | `XmlTree` | a parsed element tree, `localname` |
| normalize.dfy | `Normalize` | `element_to_dict` |
| flatten.dfy | `Flatten` | `flatten_dict_all` |
| detect.dfy | `Detect` | `detect_repeating_rows` (stack walk and functional specification) |
| table.dfy | `Table` | `xml_rows_to_dataframe`, `apply_aliases`, the column projection of `convert_task` |
| sheets.dfy | `Sheets` | the `MAX_COLS` sheet-slicing block |
| naming.dfy | `Naming` | `os.path.splitext(os.path.basename(name))[0]`, the `.xml` upload filter |
| jobs.dfy | `Jobs` | the app.py job registry: `/start`, `_run_job`, `/progress`, `/download` |
| tasks.dfy | `Tasks` | `convert_task` |
| job_store.dfy | `JobStore` | `JobStore.create_job`, `update_job`, `get_job` |

Loops in the source become methods with loop invariants. Each method is proved equal to a specification function, and the promised properties are lemmas about those functions:

- `Detect.DetectRepeatingRows` is proved equal to `Detect.RowsOf`;
- `Table.XmlRowsToDataFrame` to `Table.DataFrameOf`;
- `Sheets.WriteSheets` to `Sheets.WorkbookOf`;
- `Jobs.Registry.RunJob` to `Jobs.Trace` over the outcome of each file;
- `Tasks.ConvertTask` to `Tasks.TaskOutcome`.

The two job registries change state in place, so they are classes: `Jobs.Registry` with a `jobs` map, and `JobStore.Store` with a `records` map.

Two notes on the code itself:

- `convert_task` drops requested columns the table lacks, and keeps the whole table when none of them exist (tasks.py:33-35).
- app.py:29-129 repeats the helpers of core.py almost verbatim. They are modelled once, from core.py.

## Model

| member | source | states |
|---|---|---|
| XmlTree.LocalName | core.py:7-8 | without `}` the tag is returned unchanged; otherwise the result is exactly what follows the first `}` |
| XmlTree.LocalNameNotIdempotent | core.py:7-8 | only the first `}` separates: applied twice to `{a}b}c`, `localname` gives `b}c` then `c` |
| Text.StripSpec | core.py:32 | `strip()` keeps one contiguous stretch of the text, and only whitespace lies before and after it |
| Text.StripEnds | core.py:32 | the stripped text starts and ends with a non-space; it is empty exactly when the text is all whitespace |
| Text.StripUnchanged | core.py:32 | a text with no whitespace at either end is its own strip |
| Text.DecimalRoundTrip | app.py:332 | the digits `str(n)` writes read back as `n` |
| Text.NatToString | app.py:332 | `str(n)` is a non-empty run of decimal digits with no leading zero |
| Text.NatToStringInjective | app.py:332 | distinct part numbers give distinct sheet names `Rows_{part}` |
| Text.SortStrings | core.py:97 | `sorted(df.columns)` is ascending and a permutation of its input |
| Text.InsertSorted | core.py:97 | inserting into an ascending list keeps it ascending |
| Text.LexLessTransitive | core.py:97 | Python's string order is transitive |
| Text.LexLessTotal | core.py:97 | any two distinct strings are ordered one way or the other |
| Text.LexLessIrreflexive | core.py:97 | no string is less than itself |
| Text.LowerHasNoCapitals | app.py:292 | no ASCII capital is left after `lower()` |
| Text.LowerIdempotent | app.py:292 | lower-casing twice is lower-casing once |
| Text.LowerEqual | app.py:292 | two names lower-case alike exactly when they have the same length and agree position by position up to ASCII case |
| Assoc.PutSemantics | core.py:23-28 | dict assignment: the key then maps to the value, other keys keep theirs, keys stay unique, a new key is added |
| Assoc.Put | core.py:23-28 | `d[k] = v` keeps the size and keys when `k` is present, and appends `(k, v)` otherwise |
| Assoc.UpdateAllGet | core.py:29 | after `data.update(b)` a key of `b` has its value in `b`, and any other key keeps its value |
| Assoc.UpdateAllKeys | core.py:29 | the keys after `data.update(b)` are exactly those of `data` and of `b` |
| Assoc.UpdateAllFresh | core.py:29 | when `b` brings only new keys, `data.update(b)` appends them in order |
| Assoc.LatestNone | core.py:42-47 | a run of assignments leaves no value for a key exactly when it never assigns that key |
| Assoc.LatestAppend | core.py:42-47 | of two runs of assignments one after the other, the second run's last assignment to a key wins |
| Assoc.LatestUnique | core.py:42-47 | with distinct keys, the last assignment to a key is its only one |
| Assoc.UpdateAllLatest | core.py:42-47 | after `flat.update(b)`, for any `b`, a key `b` assigns has the value `b` assigned it last, and any other key keeps its value |
| Assoc.UpdateAllStep | core.py:42-47 | if two records hold the last values of two runs of assignments, the first updated by the second holds the last values of the runs in sequence |
| Assoc.IndexOf | core.py:23 | the position of the first entry with the key, and -1 exactly when the key is absent |
| Assoc.Get | core.py:23 | `get` finds nothing exactly when the key is absent |
| Normalize.ElementToDict | core.py:10-33 | never a list; a dict exactly when the element has children |
| Normalize.ChildPairs | core.py:20-22 | one (local name, value) pair per child in document order, no value a list |
| Normalize.BucketsSpec | core.py:19-28 | bucket keys are the distinct child names in first-occurrence order; a name's bucket is its single value, or the list of all its values in document order when it occurs twice or more |
| Normalize.BucketsGet | core.py:19-28 | the bucket of any name: absent when no child has it, otherwise as `BucketsSpec` says |
| Normalize.BucketsKeys | core.py:19-28 | the bucket keys are the child names in first-occurrence order |
| Normalize.AddToBucketGet | core.py:23-28 | one loop step, seen from any name: the bucket follows the values with that name |
| Normalize.AddToBucketSame | core.py:23-26 | a repeat turns a single value into a two-element list, or extends the list |
| Normalize.AddToBucketOther | core.py:20-28 | a loop step leaves the buckets of other names alone |
| Normalize.FirstOccurrencesDistinct | core.py:19-28 | the bucket keys are pairwise distinct |
| Normalize.FirstOccurrencesMembers | core.py:19-28 | every child name, and nothing else, has a bucket |
| Normalize.LeafValue | core.py:31-33 | a leaf ignores its attributes and gives its stripped text, or None exactly when that text is all whitespace |
| Normalize.AttrKey | core.py:15 | an attribute key starts with `@` |
| Normalize.AttrEntriesUnique | core.py:13-15 | the attribute record has distinct keys: attributes sharing a local name collapse to one key |
| Normalize.AttrEntriesLast | core.py:13-15 | an attribute no later attribute overrides is found under `@` plus its local name with its own text: of several with one local name, the last wins |
| Normalize.AttrEntriesAbsent | core.py:13-15 | a key no attribute gives is absent from the attribute record |
| Normalize.AttrEntriesKeys | core.py:13-15 | each attribute gives the key `@` plus its local name, and every attribute key has that form |
| Normalize.ElementDictGet | core.py:12-30 | a child name maps to its bucket (children overwrite attributes); any other key keeps the attribute's text |
| Normalize.ElementDictKeys | core.py:12-30 | the keys of an element with children are its `@` keys, then its distinct child names in first-occurrence order |
| Flatten.Flatten | core.py:35-54 | the flat record has unique keys, scalar values only, and every key extends the parent key |
| Flatten.FlattenSpec | core.py:35-54 | a path is a key of the flat record exactly when some scalar leaf lies at it, and its value is that of the last leaf at that path in document order |
| Flatten.FlattenLatest | core.py:35-54 | every path's value in the flat record is the last leaf value at that path |
| Flatten.EntriesLatest | core.py:38-47 | after all of a dict's entries, each path's value is the last leaf value at that path among them |
| Flatten.EntriesNext | core.py:39-47 | folding one more entry keeps "each path holds its last leaf value" |
| Flatten.EntriesStep | core.py:42-47 | `flat.update(part)` after an entry keeps "each path holds its last leaf value", given it holds for the entry itself |
| Flatten.EntryLatest | core.py:40-47 | what one entry writes holds, at each path, its last leaf value |
| Flatten.ItemsLatest | core.py:43-45 | after all of a list's members, each path's value is the last leaf value at that path among them |
| Flatten.ItemsNext | core.py:44-45 | folding one more member keeps "each path holds its last leaf value" |
| Flatten.ItemOf | core.py:44-45 | names the member whose indexed path a key extends |
| Flatten.ItemStepKeys | core.py:44-45 | a key after member `m` was there before or was written by member `m` |
| Flatten.FlattenEntries | core.py:38-47 | after any prefix of a dict's entries, the record keeps those three invariants |
| Flatten.EntryPart | core.py:40-47 | what one entry writes keeps the invariants under the path `parent.k` |
| Flatten.FlattenItems | core.py:44-45 | after any prefix of a list's items, the invariants hold under `key` |
| Flatten.ChildKey | core.py:40 | a child path extends its parent path |
| Flatten.IndexKey | core.py:45 | an indexed path `key[i]` extends `key` |
| Flatten.UpdateAllInvariants | core.py:42-47 | `flat.update(part)` keeps keys unique, values scalar and the key prefix |
| Flatten.ItemKeys | core.py:44-45 | each key written for a list starts with `key[i]` for some member index `i` |
| Flatten.EntryKeys | core.py:39-47 | each key written for a dict starts with `parent.k` (or `k` at top level) for one of its entries |
| Flatten.EntryOf | core.py:39-47 | names the entry whose path a key extends |
| Flatten.EntryStepKeys | core.py:39-47 | a key after entry `m` was there before or was written by entry `m` |
| Flatten.NothingToFlatten | core.py:51-54 | a bare top-level scalar, an empty dict and an empty list contribute nothing |
| Flatten.TopLevelListKeys | core.py:48-50 | a top-level list writes keys starting with `[i]` |
| Flatten.EntriesStepFresh | core.py:39-47 | an entry that writes only new keys is appended after the earlier ones |
| Flatten.ItemsStepFresh | core.py:44-45 | a member that writes only new keys is appended after the earlier ones |
| Flatten.ScalarPart | core.py:46-47 | a scalar entry is stored under its own path |
| Flatten.SingleEntry | core.py:38-47 | `{k: s}` under `key` flattens to the single pair at `key.k` |
| Flatten.NestedShape | core.py:38-47 | `{a: s, b: {c: t}}` flattens to `{a: s, "b.c": t}` when the two paths differ |
| Flatten.DistinctChildren | core.py:17-30 | without attributes and with distinct child names, the dict is the children's pairs in order |
| Flatten.BucketsDistinct | core.py:19-28 | with distinct names the bucketing loop changes nothing |
| Flatten.NestedNormalised | core.py:10-33 | `<row><a>1</a><b><c>2</c></b></row>` normalises to `{"a": "1", "b": {"c": "2"}}` |
| Flatten.NestedExample | core.py:35-54 | that row flattens to `{"a": "1", "b.c": "2"}` |
| Flatten.NestedFlattened | core.py:35-54 | the nested dict flattens to the dotted record |
| Flatten.OneEntryItems | core.py:43-45 | any number of repeated one-field members flatten member by member to `key[i].k`, in order |
| Flatten.IndexKeysDiffer | core.py:45 | two distinct member indices give distinct paths `key[i].k` |
| Flatten.ThreeItems | core.py:43-45 | three one-field members give `key[0].k`, `key[1].k`, `key[2].k` |
| Flatten.ListExample | core.py:43-45 | repeated `<item>` siblings flatten to `item[0].v`, `item[1].v`, `item[2].v`, counted from 0 |
| Flatten.CollisionShape | core.py:39-47 | paths are not injective: a literal key `b.c` is overwritten by the nested `b` then `c` |
| Flatten.CollisionExample | core.py:39-47 | `{"a.b": "1", "a": {"b": "2"}}` flattens to the single pair `"a.b": "2"` |
| Detect.DetectRepeatingRows | core.py:58-85 | the stack walk returns exactly `RowsOf(root)` |
| Detect.GroupChildren | core.py:72-74 | the grouping loop gives the children grouped by local name, in first-seen order |
| Detect.Consider | core.py:76-79 | a group replaces the best one exactly when it has at least 2 elements and is larger, or as large and deeper; the best count never drops |
| Detect.ExamineGroups | core.py:72-79 | examining one parent's groups is the selection fold over its candidates |
| Detect.PushChildren | core.py:80-81 | pushing the children, first to last, queues their subtrees to be popped last child first |
| Detect.GroupsGet | core.py:72-74 | the group of a name holds exactly the children with that local name, in document order |
| Detect.AddToGroupGet | core.py:73-74 | one `append`, seen from any name: the group follows the children with that name |
| Detect.GroupEntry | core.py:72-74 | each group is the non-empty list of the children with its name |
| Detect.GroupOf | core.py:72-74 | every local name among the children has a group |
| Detect.SelectAppend | core.py:75-79 | examining two runs of candidates one after the other is one fold |
| Detect.SelectSpec | core.py:75-79 | the chosen candidate is the first whose count beats the best, and no candidate beats it; otherwise the initial best is kept |
| Detect.SelectNone | core.py:78 | when nothing beats the initial best, it stays |
| Detect.SelectStep | core.py:68-79 | popping one more parent adds its groups after all earlier ones |
| Detect.PopStep | core.py:68-81 | popping a parent and pushing its children keeps the walk's order |
| Detect.Visit | core.py:67-81 | the walk from a node starts at that node |
| Detect.WalkCoversTree | core.py:67-81 | the walk reaches the root and every child of every node it reaches, one level deeper |
| Detect.ChildVisited | core.py:80-81 | a reached node's children are reached one level deeper |
| Detect.InVisitKids | core.py:80-81 | a node reached below a parent lies in one child's subtree |
| Detect.KidsContain | core.py:80-81 | every child is reached below its parent |
| Detect.KidsSubtree | core.py:80-81 | everything in a child's subtree is reached below its parent |
| Detect.CandidateOrigin | core.py:68-79 | every candidate comes from a group of one reached parent |
| Detect.CandidateOf | core.py:68-79 | every group of every reached parent is a candidate |
| Detect.CandidateShape | core.py:72-79 | a candidate's elements are the children with its name, its count is their number, its depth is the parent's |
| Detect.RepeatOffered | core.py:72-79 | every local name among a reached parent's children is offered with its count and depth |
| Detect.RowsFallback | core.py:82-85 | with no repeated sibling name anywhere, the rows are the root's children, else the root itself |
| Detect.RowsBest | core.py:58-85 | with a repeat, the rows are one parent's children sharing a local name, at least 2 of them, and no group is larger, or as large and deeper |
| Detect.RowsFirstOfTies | core.py:75-79 | among the best groups, the first one examined wins |
| Detect.RowsNonEmpty | core.py:82-85 | at least one row element is always returned |
| Table.XmlRowsToDataFrame | core.py:87-98 | returns exactly `DataFrameOf(doc)`: the parse error, or the sorted-column table of the detected rows |
| Table.RowRecords | core.py:90-94 | the row loop gives each row element's flattened record, in order |
| Table.BuildFrame | core.py:95-97 | the frame with columns sorted only when non-empty equals `TableOf(rows)` |
| Table.SortedFrame | core.py:95-97 | sorting only non-empty frames gives the same table as always sorting |
| Table.SortedRows | core.py:97 | reindexing by the sorted labels gives the table of the records |
| Table.SortedCell | core.py:97 | each cell after reindexing is the record's value under that label |
| Table.FrameOfRectangular | core.py:95 | `pd.DataFrame(rows)` has one cell per row and column |
| Table.AllKeysMembers | core.py:95 | a label is a column exactly when some record has it |
| Table.TableSpec | core.py:95-97 | the columns are sorted, distinct, and exactly the keys of the records; each cell is the record's value, or missing |
| Table.DataFrameRows | core.py:87-98 | a malformed document gives its error; a parsed one gives one row per detected row element, each cell that row's flattened value |
| Table.DistinctPermutation | core.py:97 | sorting distinct labels keeps them distinct |
| Table.DistinctOnce | core.py:97 | distinct labels occur once each |
| Table.DistinctCounts | tasks.py:41 | labels are distinct exactly when none occurs twice |
| Table.IsUnique | tasks.py:41 | `columns.is_unique` holds exactly when the labels are distinct |
| Table.TwiceCounted | core.py:97 | a label at two positions occurs at least twice |
| Table.ColumnIndex | core.py:97 | the first position of a label, and -1 exactly when it is absent |
| Table.AliasesSkip | app.py:133-134 | no aliases, or an empty frame: the frame is returned unchanged |
| Table.AliasesSpec | app.py:131-136 | the rows are unchanged, and a column is renamed exactly when it has a non-empty alias |
| Table.KeepExistingSpec | tasks.py:34 | the kept columns are the requested ones the table has, with the requested multiplicities, and no others |
| Table.ProjectSpec | tasks.py:33-35 | no request, or none present: the table is unchanged; otherwise its columns are the kept ones, each cell the original's |
| Sheets.WriteSheets | app.py:324-336 | the writing block gives exactly `WorkbookOf(f)`: the sheets of `SheetsOf(f)`, or the size error |
| Sheets.WriteSlices | app.py:327-334 | the slicing loop gives exactly `WorkbookOf(f)`: stops at the first sheet `to_excel` refuses |
| Sheets.WorkbookSpec | app.py:324-336 | the workbook is written exactly when there are at most 1048576 rows; each sheet then passes `to_excel`'s limits and has every row; otherwise the error names the row count and the first sheet's width |
| Sheets.RowThreshold | app.py:332-336 | 1048576 rows are written; 1048577 rows in one column fail with `This sheet is too large! Your sheet size is: 1048577, 1 ...` |
| Sheets.SheetsSpec | app.py:326-336 | up to 16384 columns: one sheet `Rows`; wider: sheets `Rows_1`, `Rows_2`, ... of consecutive column slices |
| Sheets.SheetsFromSpec | app.py:328-334 | sheet `k` is named `Rows_{part+k}` and holds columns `start+k*16384` up to the next multiple or the end; there are as many sheets as such slices |
| Sheets.SheetsFromCount | app.py:328-334 | the number of sheets is the number of 16384-column slices that cover the rest |
| Sheets.SheetAt | app.py:330-334 | sheet `k` is the `k`-th slice, named `Rows_{part+k}`, and is non-empty |
| Sheets.SliceCountStep | app.py:331 | one slice covers up to 16384 columns; otherwise one more than the rest needs |
| Sheets.SheetsFromJoin | app.py:330-334 | every sheet has every row, and the sheets side by side give back the columns and each row |
| Sheets.SheetsFromColumns | app.py:330-334 | the sheets' columns, concatenated, are the table's columns from `start` on |
| Sheets.WideNames | app.py:329-333 | a wide table gives at least two sheets, named `Rows_1`, `Rows_2`, ... |
| Sheets.WideWidths | app.py:331-332 | every sheet but the last is exactly 16384 columns wide, and the last is 1 to 16384 wide |
| Sheets.WideRows | app.py:332 | no row is lost or cut: the sheets side by side give each row |
| Sheets.TwentyThousandColumns | app.py:326-336 | 20000 columns give `Rows_1` with 16384 columns and `Rows_2` with 3616 |
| Sheets.SplitThreshold | app.py:327 | 16384 columns give one `Rows` sheet; 16385 give two, the second 1 column wide |
| Naming.LastIndexOf | app.py:338 | the position found is -1 or inside the path |
| Naming.LastIndexOfSpec | app.py:338 | the position found holds the character, and none follows it |
| Naming.LastIndexOfAt | app.py:338 | the last position holding the character is the one found |
| Naming.AllDotsSpec | app.py:338 | the leading-dots test holds exactly when every character is `.` |
| Naming.BasenameSpec | app.py:338 | `basename` has no `/`, ends the path, and follows the last `/` |
| Naming.AfterLast | app.py:338 | nothing after the last `/` is a `/`, and the character before that tail, when there is one, is the `/` |
| Naming.SplitExtSpec | app.py:338 | `splitext` splits the name into root + extension; the extension starts at the last dot, not counting leading dots, and is empty exactly when there is no such dot |
| Naming.StemAt | app.py:338 | the stem is the text between the last `/` and the last dot |
| Naming.StemDropsExtension | app.py:338 | `base.ext` has stem `base` |
| Naming.StemDropsDirectory | app.py:338 | the directory part never reaches the member name |
| Naming.DotNameKept | app.py:338-339 | a name like `.xml` is all stem: its member is `.xml.xlsx` |
| Naming.UploadFilterSpec | app.py:292 | a name passes exactly when it ends in `.xml` in any letter case |
| Naming.UploadFilterExamples | app.py:292 | `DATA.XML` and `a.Xml` pass; `data.xml.txt` and `xml` do not |
| Jobs.Registry.constructor | app.py:140 | the registry starts empty |
| Jobs.Registry.Start | app.py:281-306 | answers `StartOutcome`; on success the job is registered as queued with the number of files, and on an error the registry is unchanged |
| Jobs.Registry.CheckNames | app.py:290-295 | the upload loop finds the first name that is not `.xml`, if any |
| Jobs.Registry.ConvertFile | app.py:320-339 | one file's conversion is `Convert`: parse error, size error, or the member named `{base}.xlsx` with the renamed table's sheets |
| Jobs.Registry.RunFile | app.py:317-340 | the loop body writes the `parsing` record, then `written` or the error; its outcome is the file's `Outcomes` entry; the trace advances by those two records |
| Jobs.Registry.RunJob | app.py:312-344 | the records written are `Trace` over the files' outcomes, and the record left behind is its last; a completed run stores a fresh archive buffer |
| Jobs.Registry.Progress | app.py:346-370 | an unknown id gives one `unknown job` error event; otherwise the events are `EventsOf` the records polled |
| Jobs.Registry.Download | app.py:372-381 | `Not ready` unless the job exists and has an archive; the first download streams the archive and reads its buffer to the end, so every later one gets an empty body; the records are unchanged |
| Jobs.StartSpec | app.py:281-306 | a start succeeds exactly when there are files, the aliases parse, and every name ends in `.xml`; the checks come in that order; blank aliases give an empty map |
| Jobs.FirstBadNameNone | app.py:291-293 | no bad name exactly when every name ends in `.xml` |
| Jobs.FirstBadNameAt | app.py:291-293 | the name reported is the first that fails, and all before it pass |
| Jobs.FirstBadNameExtends | app.py:291-293 | a bad name found in a prefix is the one reported for the whole list |
| Jobs.FrameReady | app.py:320-322 | the renamed table is rectangular |
| Jobs.ConvertSpec | app.py:317-339 | a malformed file gives its parse error; a parsed one converts exactly when it has at most 1048576 records, else fails with the size error; the member is `{base}.xlsx` holding the renamed table's sheets; "converts exactly when" holds for rows nested within Python's recursion limit (see "## Left out") |
| Jobs.Outcomes | app.py:317-339 | one outcome per file |
| Jobs.OutcomesAt | app.py:317-339 | outcome `k` is file `k`'s conversion |
| Jobs.Trace | app.py:317-344 | the records a run writes are never empty |
| Jobs.TraceCompletes | app.py:317-342 | with no failure: `2n+1` records, and the last is `done`/`complete`, holds every member in order, leaves the error untouched and has index `n` |
| Jobs.TraceFails | app.py:317-344 | with file `f` the first failure: `2(f-i)+2` records, and the last is `done`/`error` with its message, index `f+1` and name, the archive untouched |
| Jobs.TraceStep | app.py:317-340 | every record but the last is file `k/2`'s, numbered from 1, `parsing` then `written`, and not `done` |
| Jobs.JobCompletes | app.py:312-342 | if every file converts, the job ends `done`/`complete`, with no error, index = number of files, and an archive of each file's member in upload order |
| Jobs.JobFails | app.py:312-344 | if file `f` is the first to fail, the job ends `done`/`error` with its message, index `f+1`, its name, and no archive |
| Jobs.TraceOrdered | app.py:312-344 | `done` appears only on the last record, which is `complete` or `error`; the indices never decrease |
| Jobs.TraceShape | app.py:312-344 | `TraceOrdered` for any outcomes of the files |
| Jobs.Overwrite | app.py:318 | writing a record twice leaves the second |
| Wrappers.FirstFailure | app.py:316-344 | the first failing outcome of a loop that stops at the first exception, with every earlier one successful (shared with tasks.py:27-64) |
| Jobs.Members | app.py:339 | the members of successful outcomes, in order |
| Jobs.ClassifySpec | app.py:361-367 | a truthy error gives `error`; otherwise `done` with `complete` gives `done`; anything else gives an update with the record's fields |
| Jobs.EventsOfSpec | app.py:351-368 | one event per poll, each classifying its record; all but the last are updates; the stream is short only when it has ended |
| Jobs.EventsOfStops | app.py:361-366 | once a final event is sent, later polls add nothing |
| Jobs.SilentFailureKeepsUpdating | app.py:361-367 | a job that failed with an empty message never ends its stream: every poll gives another update |
| Tasks.ConvertTask | tasks.py:14-97 | `convert_task`'s outcome is exactly `TaskOutcome` with the format chosen from the string |
| Tasks.ArchiveLoop | tasks.py:25-64 | the several-files branch is the archive loop over each pair's outcome |
| Tasks.ConvertOne | tasks.py:29-57 | one file's artifact or error is `Output`, including the Parquet and workbook writers' refusals |
| Tasks.ConvertAt | tasks.py:28-57 | pair `k`'s conversion is outcome `k` |
| Tasks.FormatSpec | tasks.py:37-44 | `csv` and `parquet` choose their own writer and extension; any other string chooses the workbook and `.xlsx` |
| Tasks.Projectable | tasks.py:32-35 | a parsed table can be projected: rectangular, with distinct columns |
| Tasks.Kept | tasks.py:33-35 | the projected table is rectangular |
| Tasks.KeptDistinct | tasks.py:33-35 | the projected columns are distinct exactly when no column the table has is requested twice |
| Tasks.KeptRows | tasks.py:33-35 | projection keeps one row per detected record |
| Tasks.RenderSpec | tasks.py:37-57 | CSV always writes; Parquet fails exactly on a repeated column name, with `Duplicate column names found: [...]`; the workbook fails exactly beyond 1048576 rows, with the size error; otherwise the content is the table in that format |
| Tasks.Outputs | tasks.py:28 | one outcome per pair of `zip(file_ids, file_names)` |
| Tasks.OutputSpec | tasks.py:29-57 | a missing upload gives the `open` error and a malformed one its parse error; a parsed one converts exactly when Parquet gets no column requested twice and a workbook at most 1048576 records, each refusal with its writer's message; the artifact is `Stem(name)` + extension and holds the projected table in the chosen format; "converts exactly when" holds for rows nested within Python's recursion limit (see "## Left out") |
| Tasks.OutputsNamed | tasks.py:36 | each converted pair is named after its upload's base name and the format's extension |
| Tasks.ArchiveFromSpec | tasks.py:27-64 | from pair `i` on, the loop writes members in order up to the first failure, with one report per member numbered from `i+1`; it gives the archive name, or the first failure's message |
| Tasks.ArchiveOf | tasks.py:27-64 | the whole archive loop: members `0..stop` in order, report `k` says `k+1` of the total with that file's name |
| Tasks.ArchiveSpec | tasks.py:25-64 | several files: `converted_files.zip` when every pair converts, else the first failure's message; members of the pairs before it, in order; a report after each |
| Tasks.ProgressSpec | tasks.py:59-63 | reports count from 1 with a constant total; they reach the number of pairs on success, and stay below the number of ids when names are fewer |
| Tasks.DuplicateBases | tasks.py:36-57 | two converted files with the same base name give two members under one name; nothing is renamed or dropped |
| Tasks.SingleSpec | tasks.py:66-97 | one file: the result is the artifact's own name and no report is made; an empty id or name list fails with `list index out of range` |
| JobStore.Encode | job_store.py:31 | the text form has one character per byte |
| JobStore.CodecRoundTrip | job_store.py:31 | decoding gives back the bytes encoded, and a text that decodes is the encoding of its result |
| JobStore.Load | job_store.py:35-43 | a record that loads keeps every key, and every field but the archive as stored |
| JobStore.Store.constructor | job_store.py:12-13 | the store starts empty |
| JobStore.Store.CreateJob | job_store.py:15-25 | writes the initial record under the id, replacing any record there |
| JobStore.Store.GetJob | job_store.py:35-43 | nothing for an unknown id; otherwise the record with its archive decoded, or the decoding error |
| JobStore.Store.UpdateJob | job_store.py:27-33 | read, merge and write back; a failure in reading or writing leaves the store unchanged |
| JobStore.CreateThenLoad | job_store.py:15-43 | a fresh record is plain JSON and reads back as written, queued at index 0 with no archive |
| JobStore.MergeSpec | job_store.py:27-33 | an update keeps unmentioned fields and sets the given ones, a buffer archive in text form; it succeeds exactly when no buffer remains |
| JobStore.UpdateAbsent | job_store.py:28 | updating an unknown id creates a record holding just the given fields |
| JobStore.ZipRoundTrip | job_store.py:27-43 | a buffer stored as the archive reads back as the same bytes |
| JobStore.ZipBlocksUpdate | job_store.py:27-43 | once an archive is stored, an update that does not itself pass `zip_bytes` fails to serialise; one that passes it goes through |

## Left out

- Parsing XML bytes (`ET.fromstring`) is not modelled. A document is given already parsed (`Parsed(root)`) or as the parser's error message (`Malformed(msg)`). `el.text` of None is the empty string.
- pandas, openpyxl and pyarrow are not modelled. A table is a grid of optional scalars, and a workbook is its list of sheets. CSV and Parquet output keep the table as it is (`CsvTable`, `ParquetTable`), without their byte encodings.
- ZIP files and `BytesIO` are not modelled. An archive is its list of members, and a buffer is its byte sequence.
- The percentages (`int((idx / total) * 100)`, app.py:360 and tasks.py:60) use floating point and are not modelled. The progress reports keep the counts they are computed from.
- Threads (app.py:308-309), Celery (tasks.py:9-12, 23), the event-stream framing (`sse`, app.py:152-153) and `time.sleep` polling are not modelled. `/progress` is modelled over the sequence of records its polls see.
- Concurrent access to a job record by the worker and the stream is not modelled.
- Redis is not modelled; the store is a map from id to record. An empty stored value (`if not raw`) cannot arise in that map.
- The file system is not modelled: `temp_uploads/{fid}.xml` is a map from id to parsed document, and the output paths `outputs/{job_id}.ext` are not modelled.
- Job ids from `time.time()` are not modelled; the id is a parameter.
- Logging (app.py:11-23) is not modelled.
- The HTML page, `/` and `/health` (app.py:157-278, 383-385) are not modelled.
- The download header's file name (app.py:380) is not modelled.
- JobStore.Encode and JobStore.Decode stand for base64 as a one-character-per-byte text form that round-trips exactly. The real base64 alphabet, its padding and the exact set of texts `b64decode` rejects are not modelled.
- Text.Lower: lower-cases ASCII letters only. Non-ASCII characters never lower-case to `.`, `x`, `m` or `l`, so the `.xml` test is unaffected.
- Jobs.Registry.Start: the aliases field is modelled as blank, an object of names, or invalid JSON. Valid JSON that is not an object of strings is not modelled.
- Naming.StemDropsExtension, Naming.StemDropsDirectory and Naming.DotNameKept state `splitext`/`basename` behaviour for every name of their shape, not for particular literals.
- Jobs.Trace: its own contract only says the trace is non-empty. Its content is stated by Jobs.TraceCompletes, Jobs.TraceFails and Jobs.TraceStep.
- Tasks.Kept: its own contract only says the projected table is rectangular. Its columns and cells are stated by Table.ProjectSpec.
- Sheets.TooLarge: the size message is the one `to_excel` raises. Whether closing the `ExcelWriter` after a refused sheet raises an error of its own, which would replace that message, is not modelled.
- Sheets.WorkbookOf: the limit is `to_excel`'s count of data rows. The header row makes a 1048576-record sheet one row longer than an Excel sheet holds; that is not modelled.
- Tasks.DuplicateColumns: the names in `Duplicate column names found: [...]` are written as `'name'`. The escaping Python's `repr` applies to quotes, backslashes and unprintable characters is not modelled.
- Normalize.ElementToDict and Flatten.Flatten: Python's recursion limit (1000 frames by default) is not modelled. Both recurse once per nesting level (core.py:10-33, core.py:35-54), so in the source a row element nested about a thousand levels deep fails with `RecursionError`, and that message becomes the job's error (app.py:343-344) or `convert_task`'s failure. The model converts a tree of any depth.
- Jobs.ConvertSpec and Tasks.OutputSpec: their "converts exactly when" holds only for rows nested within that recursion limit; deeper rows fail in the source with `RecursionError`, which the model does not produce.
