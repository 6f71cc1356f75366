# A verified model of colstore's read path

colstore keeps tables in `.cstore` files. A file is a list of records, a record is a header and
the columns' cells one column behind the other, and a dataset is a list of files read as one
table. Its meaning is one simple thing: the concatenated column. This project models the code
that reads it fast, the code that rewrites files, and the predicate language, and proves that
each gives what that simple meaning gives.

Conventions of the model:

- All file mappings live in one address space, a function from integer address to byte. An
  element is the byte sequence of its `itemsize`. A child reader is its file (a base address, a
  record list and a schema) and whether it has been closed. While it is open, its file's bytes are
  at their addresses; afterwards nothing is known of what a load from there returns.
- A thread schedule is an arbitrary interleaving of the workers' single stores
  (`Schedule.AnyInterleaving`), and the order in which jobs, chunks or indices are taken is an
  arbitrary permutation. Whether the extension is available, whether a mask passes a density gate,
  and a caller's sortedness hint are arbitrary parameters.
- Selectors are normalized, as the reading seam requires: indices lie in `[0, n_rows)`, a mask has
  the table's length, a slice has a non-zero step. A dataset has at most `2^63 - 1` rows, which
  its `int64` offsets need, and record row counts sum to the file's committed rows.
- Checksums are arbitrary functions. Row-wise operations on values are arbitrary functions.
- Code that updates state in place is a method or a class with its fields, proved against
  functions and predicates; the lemmas are about those.

## The files

| file | about |
|---|---|
| Sequences, LittleEndian, Schedule | prefix sums, concatenation and selection; integers as bytes; interleavings of disjoint writers |
| MagicDivide, Segments, MaskKernel, CopyRuns | the native kernels: reciprocal division, segment search, bins, uniform grid, cursor walk, two-pass mask, byte-balanced run copy |
| Selectors, Decompose, FillJobs, SortOnce, ContiguousFill | how a dataset splits a request over files and puts the parts together |
| Files, FileReads, ReaderColumns, Mappings, Schemas, Dataset | the record layout, one file's own reads of one column and of several, what a mapping shows, schema reconciliation, and the dataset class with its memos, growth and ownership |
| RecordIndex, Compaction, Splice, CompactProtocol, CompactRivals, Footer | the record-header walk, compaction at byte level, as a crash protocol, and several at once, the statistics footer |
| Query, QueryParse, RecordSkip | expression trees, the string form, and skipping records by their statistics |
| Numa | the order in which workers are spread over cores |

## What was found

- A borrowed reader may be closed by its owner while a dataset still has it. Reads that ask the child
  then raise, but a native pass over several files uses the remembered segment table and asks no child
  (src/colstore/dataset.py:624-630, 704-727), so it loads from addresses that `close` has given up
  (src/colstore/reader.py:476-487); the model does not say what such a load returns. `OneFailure` and
  `ManyFailure` say exactly which reads fail; `ReadBehindClose` is the input: read, close, read, with one
  row refused alone and read as a list. A memo equals a fresh stitch exactly while every child with rows
  is open, or if it holds no table (`MemoFresh`), and, no closed file's blocks lying over an open file's,
  what a read returns depends on nothing but the open files exactly if it reaches no closed one
  (`SettledIffOpen`).
- A closed reader of several records reports a missing attribute instead of its own message on the two
  multi-column routes that use its mapping first (src/colstore/reader.py:1342, 1433). `ManyTrouble` says
  exactly when.
- Without the compiled extension a reader of a multi-record file cannot read at all: it imports the
  kernels before it looks at the selector (src/colstore/reader.py:876), so the NumPy range copy that is
  documented for this case (src/colstore/reader.py:1109-1114) is not reached. A dataset of several open
  files then fails exactly if the selection reaches a file of several records (`ExtensionMatters`).
- A read of no columns is answered with an empty mapping, except for fancy rows and reversed slices of
  several files: they look at the first of no tables and raise (src/colstore/dataset.py:748-752). Without
  the extension these and dense masks fail on the import instead. `NoNames` says exactly when.
- A unit-step slice with `start > stop` makes a multi-record reader raise, because it allocates an
  array of `stop - start` elements (src/colstore/reader.py:1116-1118). A dataset of one file hands the
  slice to its reader and raises too (`ChildFailure`); a dataset of several files returns the empty result.
- In strict mode a reader without columns that is appended first lets later readers set a schema
  that the first one does not have. `StrictAppendExact` says exactly when the schema invariant
  survives; the writer refuses empty column mappings, so stored files meet it.
- The native record-index walk and its Python fallback are documented as byte-identical. They differ
  on a checksummed header with a negative row count, because one truncates and one floors when
  rounding up (`WalksDisagree`, `AlignmentsAgree`). When the native walk succeeds, the fallback returns
  the same exactly if for every record but the last the count times the row width is at least -7 or has
  residue 1 modulo 8 (`AcceptedExact`). Errors included, `WalksAgreeExactly` gives the exact condition on
  what the native walk meets.
- When the source is shorter than expected, the `sendfile` splice raises and the portable splice
  silently copies less; both leave the same bytes (`CopyRange`). After the header walk neither happens.
- Compaction promises that on any error the temporary file is removed. Where its name was free, it is
  left behind exactly after a failed unlock, close or rename, complete and beside the untouched source,
  or after a failed unlink of a target that had been opened (`TemporaryRemoved`, `StrandedComplete`);
  `FailureStrands` gives the runs.
- Compaction gives up its lock before the rename. A writer that commits in between loses that commit
  (`CommitInWindowIsLost`); the safety theorem needs the absence of such a writer.
- A second compaction of the same file that takes the lock in that window opens the same temporary name
  and truncates the finished file, which the first one then renames over the source. If the second fails
  to write, its unlink misses, and the source stays empty although the first has ended well
  (`RivalEmpties`). For any number of calls the source survives every run exactly if none takes the lock
  of another that stands before its rename (`SurvivesIffWindowClosed`, `SourceSurvivesRivals`).
- A target path that is a hard link of the source passes the comparison of resolved paths
  (src/colstore/compaction.py:57) and is then opened for writing, which truncates the source. The source
  survives every run exactly if the target is not another name of its inode (`SurvivesIffNotLinked`).
- A footer with a column of zero-byte elements is never parsed back (`FooterRoundTrip`). Such columns,
  of dtype `S0` or `U0` (a field of a structured array can have one), are not refused when a record is
  written: src/colstore/format.py:526-539 checks dimensions, kind and length only. What else the
  writer and the reader do with them is not part of this model; `StoredFile` has none.
- The cores of a node are documented as ascending. They come in the order of first mention in the CPU
  list (`NodeCoreCpus`), and for CPUs 4 and 5 whose sibling lists are 4 and 3, 5 that is 4, 3
  (`CoresDescend`). They ascend exactly if every CPU that brings in a core stands for a higher one than
  all CPUs before it (`CoresAscendIff`), as where the list ascends and holds every lowest sibling
  (`WholeCoresAscend`).
- A query may have a column on the right of `in`. It is parsed, its tree references the left side only,
  and it fails when it is validated, because NumPy boxes the column expression instead of reading it
  (`MembershipInColumn`). A tree that is built can be evaluated exactly if this does not occur in it
  (`BuiltIffEvaluable`).

## Model

| member | source | states |
|---|---|---|
| Schedule.AnyInterleaving | include/colstore/gather.hpp:229-241 | every complete interleaving of workers that store to disjoint positions leaves, at each position, what its one worker alone would leave |
| Schedule.OutcomeUnique | include/colstore/gather.hpp:229-241 | there is only one such result, so the schedule cannot matter |
| MagicDivide.LogBelow64 | src/cpp/gather.cpp:220-246 | the reciprocal's shift is always below the word size |
| MagicDivide.DivideExact | src/cpp/gather.cpp:197-259 | the multiply-high reciprocal equals division for every 64-bit numerator and every non-zero divisor, wrap-around included |
| Segments.BinRecord | src/cpp/gather.cpp:376-387 | the branch-free search returns the last boundary not above the row |
| Segments.UniformSegmentRowsSound | src/colstore/dataset.py:72-92 | the grid test answers a row count exactly on uniform grids: every segment equal, the last possibly partial or empty |
| Segments.GridSegment | include/colstore/gather.hpp:201-219 | on a uniform grid, clamped division by the row count is the segment a search would find |
| Segments.GatherSegment | src/cpp/gather.cpp:417-447 | the searched segment gather fills the output with the indexed column, in any index order, with duplicates |
| Segments.GatherSegmentBins | src/cpp/gather.cpp:453-485 | the same, and the recorded bins are the segments of the indices |
| Segments.GatherSegmentWithBins | src/cpp/gather.cpp:490-517 | replaying bins recorded on shared boundaries gives the right cell in every other column |
| Segments.GatherSegmentUniform | src/cpp/gather.cpp:526-560 | the division kernel equals indexing the column |
| Segments.GatherSegmentUniformBins | src/cpp/gather.cpp:566-603 | the division kernel that records bins: the output and the bins |
| Segments.SortedWalk | src/cpp/gather.cpp:622-686 | the cursor walk is correct for indices in any order; on a non-decreasing chunk it searches once and moves at most as often as there are segments |
| Segments.GatherSegmentSorted | src/cpp/gather.cpp:622-686 | all chunks, in any order and interleaving, leave the indexed column |
| MaskKernel.SelectedExact | include/colstore/gather.hpp:323-343 | the filter: exactly the true positions, in order |
| MaskKernel.CountChunks | src/cpp/gather.cpp:1017-1028 | the first pass: each chunk's output offset is the number of true positions before it |
| MaskKernel.CompactWord | src/cpp/gather.cpp:1041-1149 | one eight-row word is compacted without branches, storing at most eight cells from the write position on |
| MaskKernel.MaskWalk | src/cpp/gather.cpp:1041-1149 | one chunk's walk, with skipped words, copied runs and compacted words, writes its filtered rows and nothing outside its own output window |
| MaskKernel.GatherSegmentMask | src/cpp/gather.cpp:1041-1149 | for every chunking and every schedule the output is the in-order filter of the column; a wrong output length returns 1 and leaves the output untouched |
| CopyRuns.CopyLogicalRange | src/cpp/gather.cpp:1320-1381 | one worker's share of the logical byte span, from the middle of a run to the middle of another, copies exactly its bytes |
| CopyRuns.ParallelCopyRuns | src/cpp/gather.cpp:1320-1381 | byte-balanced shares in any order and interleaving copy every run and touch nothing else |
| Selectors.IndicesAreSortedExact | src/colstore/_base.py:54-72 | the sampled gate equals the full adjacent-pair test for every length, and its sample positions are in range |
| Selectors.SliceRows | src/colstore/dataset.py:912-916 | which rows a slice takes, bound by bound: not before a given start, before a given stop, negative bounds counted from the end, whole steps from the first row inside the table; ascending or descending with the step |
| Selectors.RowsExactly | src/colstore/dataset.py:897-920 | for every kind of selector, what it asks for is exactly one list of rows, and that list is the selected one |
| Selectors.ReadExactly | src/colstore/dataset.py:922-1007 | a read holds the column's cells at those rows, one by one |
| Selectors.BackwardExactly | src/colstore/reader.py:1116-1118 | in terms of the given bounds, exactly the unit-step slices whose start lies behind their stop once both are brought into the table |
| Selectors.RangeSplit | src/colstore/dataset.py:398-418 | a range splits at any point without losing its phase |
| Decompose.SliceParts | src/colstore/dataset.py:398-418 | for every offset vector and step of at least 1, the per-file slices in order select exactly the global range, each unchanged by normalization against its file's length |
| Decompose.MaskParts | src/colstore/dataset.py:563-572 | the per-file masks in order select exactly the mask's rows; files without a selected row are left out |
| Decompose.ContiguousRegions | src/colstore/dataset.py:481-488 | regions tile the output without gap or overlap, one per part |
| Decompose.OffsetRegions | src/colstore/dataset.py:472-479 | the offset regions tile `[0, total)` and select every row, empty files included |
| Decompose.PartsReadFlat | src/colstore/dataset.py:563-580 | reading each part from its own file and concatenating is indexing the concatenated column |
| Decompose.PartsReach | src/colstore/dataset.py:398-418 | the files that have a part are exactly the files the selected rows lie in |
| FillJobs.RunFillJobs | src/colstore/dataset.py:437-449 | disjoint fill jobs in any order and any interleaving write every region and nothing else |
| FillJobs.ConsecutiveFilled | src/colstore/dataset.py:490-539 | jobs over consecutive regions leave the concatenation of their data |
| SortOnce.SortedBlocks | src/colstore/dataset.py:582-604 | the stable-or-not sorting permutation cuts into one block per non-empty file, with local rows in range |
| SortOnce.BlocksReach | src/colstore/dataset.py:582-604 | the files that have a block are exactly the files the requested rows lie in |
| SortOnce.BufferSorted | src/colstore/dataset.py:806-814 | the blocks gathered back to back are the column at the sorted indices |
| SortOnce.Unsorted | src/colstore/dataset.py:806-844 | scattering back by the permutation gives the column at the original indices |
| SortOnce.GatherBlocks | src/colstore/dataset.py:816-844 | the whole fallback for one column, on a sort shared with other columns |
| Files.SegmentTableCorrect | src/colstore/reader.py:693-741 | a reader's own segment table, folded addresses included, stands for its column cell by cell |
| Files.CellByte | src/colstore/reader.py:693-741 | byte by byte, where a cell lies: file start, record body, blocks of the columns before it, cells before it, and within each number or character in host order |
| Files.StitchExact | src/colstore/dataset.py:632-656 | there is a stitched table exactly if there are rows, all of them in native order |
| Files.StitchRepresents | src/colstore/dataset.py:632-656 | the stitched table of any list of files, empty ones included, stands for the concatenated column |
| Files.StitchStartsShared | src/colstore/dataset.py:729-773 | the row boundaries are the same for every column, so bins and the grid carry over |
| FileReads.ViewCorrect | src/colstore/reader.py:639-687 | there is a zero-copy view exactly of native columns of at most one record, for whole columns, rows and slices, and it reads what indexing reads |
| FileReads.CopyMultirecordRange | src/cpp/gather.cpp:1190-1204 | a range over many records is one block copy per overlapping record and equals the column's slice |
| FileReads.StridedWalk | src/cpp/gather.cpp:761-840 | for both signs of step the walk visits the right record, and its cursor moves one way only, at most once per record |
| FileReads.DetectUniformExact | src/colstore/reader.py:802-828 | a layout is reported exactly if record bodies lie in equal steps and all records but a last, smaller one have the same rows |
| FileReads.GatherStrided | src/cpp/gather.cpp:761-840 | all chunks under any schedule give the strided rows |
| FileReads.UniformOffsetCorrect | src/cpp/gather.cpp:854-898 | the affine byte offset of a uniform layout, partial last record included, is the row's own address |
| FileReads.GatherUniform | src/cpp/gather.cpp:854-898 | the uniform multi-record gather equals indexing |
| FileReads.GatherUniformBins | src/cpp/gather.cpp:908-963 | and so does the variant that records bins, with the right bins |
| FileReads.GatherUniformWithBins | src/cpp/gather.cpp:966-1008 | so does its replay from recorded bins |
| FileReads.GatherBytes | src/cpp/gather.cpp:1181-1188 | the byte-offset gather equals indexing |
| FileReads.RawMulti | src/colstore/reader.py:837-1139 | every selector on a multi-record file reads the column, except that without the extension all fail, and with it backward unit slices do |
| FileReads.GatherChild | src/colstore/reader.py:568-637 | one child's read: host byte order, every selector, and exactly the failing cases in the order in which the code meets them: closed, no extension, backward slice |
| ReaderColumns.GatherColumns | src/colstore/reader.py:1242-1301 | a reader's read of several columns by any of its routes: exactly the requested columns, each with its read, or exactly the error of `ManyTrouble` |
| ReaderColumns.ManyTroubleExactly | src/colstore/reader.py:1242-1491 | case by case: what a reader's read of several columns fails with, open and closed, and which requests meet the mapping before the check |
| ReaderColumns.GatherMasked | src/colstore/reader.py:1313-1358 | the mask kernel for the native columns and lowered rows for the others read the masked rows of every column |
| ReaderColumns.GatherBinned | src/colstore/reader.py:1360-1491 | records found once, for the first native column, and replayed for the others, uniform or searched, read the rows of every column |
| Mappings.StaleCell | src/colstore/reader.py:476-487 | every cell depends on its bytes: change one and exactly that is seen |
| ContiguousFill.RouteRegion | src/colstore/dataset.py:490-539 | a region goes to the copy kernel only when its bytes are one run; otherwise its job holds the region's data, or raises what its file's gather raises |
| ContiguousFill.PlanColumn | src/colstore/dataset.py:490-539 | every region is written exactly once, by a run or by a job; the first region whose file cannot be read decides the error |
| ContiguousFill.FillColumn | src/colstore/dataset.py:490-561 | kernel shares and side jobs, each in any order, leave the concatenated bytes of the regions, unless a region's file cannot be read |
| ContiguousFill.RegionsRead | src/colstore/dataset.py:965-1007 | those bytes are the selected rows of the concatenated column |
| Schemas.CheckStrict | src/colstore/dataset.py:228-258 | strict reconciliation, reader by reader, is the reference check |
| Schemas.StrictExact | src/colstore/dataset.py:228-258 | it passes exactly if every reader has the same set of columns, names and dtypes, as the exposed schema, or as the first new reader where there is none |
| Schemas.StrictAppendExact | src/colstore/dataset.py:228-258 | the invariant that every exposed column is in every child survives a strict append exactly if the dataset was empty, had columns, gains nothing, or gains a reader without columns first |
| Schemas.StrictAppendCounterexample | src/colstore/dataset.py:310-345 | two accepted appends that break it |
| Schemas.CommonSchemaExact | src/colstore/dataset.py:260-283 | drop mode exposes exactly the columns every reader has under one dtype |
| Schemas.CommonSchemaOrder | src/colstore/dataset.py:260-283 | they stand in the first reader's order, under distinct names |
| Schemas.DropExact | src/colstore/dataset.py:314-325 | a drop append is accepted exactly if the files have a column in common, or there are none |
| Schemas.CommonSchemaExposed | src/colstore/dataset.py:260-283 | and each of them is in every reader |
| Schemas.DropGrouping | src/colstore/dataset.py:293-350 | in drop mode the outcome does not depend on how files are grouped into append calls, refusals included |
| Dataset.Dataset.RebuildOffsets | src/colstore/dataset.py:285-291 | offsets are the prefix sums of the children's rows and both memos are forgotten |
| Dataset.Dataset.Locate | src/colstore/dataset.py:393-396 | a global row's file and local row, empty files included |
| Dataset.Dataset.CoerceToChildren | src/colstore/dataset.py:193-226 | every source's readers stand at its place among the children, in the order of the sources and in the source's own order, owned exactly if opened here; on failure everything it opened is closed |
| Dataset.Dataset.Append | src/colstore/dataset.py:293-350 | succeeds exactly if open, resolvable and reconcilable; on failure nothing changes and what was opened is closed; on success the new children follow the old ones in the order of the sources, the schema is the reference's or the common one, and the invariant holds |
| Dataset.OnePathInOrder | src/colstore/dataset.py:200-212 | the files of one directory or glob become children in the order in which they are listed |
| Dataset.AcceptsExactly | src/colstore/dataset.py:293-350 | reconcilable means: the same columns as the reference in strict mode, a column in common in drop mode |
| Dataset.Dataset.Close | src/colstore/dataset.py:1102-1109 | exactly the readers the dataset opened are closed, once |
| Dataset.GrowThenClose | src/colstore/dataset.py:293-350 | over any sequence of appends, failed ones included, and then close: every reader ever opened ends closed, no other reader is touched |
| Dataset.Dataset.StitchNativeSegmentTable | src/colstore/dataset.py:632-656 | the loop computes the stitch of the current children, and none if a child with rows is closed |
| Dataset.Dataset.NativeSegmentTable | src/colstore/dataset.py:606-630 | the remembered table if there is one, else a fresh stitch, which is then remembered; no other entry and no later answer changes, and nothing is remembered without the extension |
| Dataset.Dataset.MemoFresh | src/colstore/dataset.py:606-656 | a remembered value is what a fresh stitch would give exactly if it is none or every child with rows is open |
| Dataset.Dataset.ClosingKeepsValid | src/colstore/reader.py:476-487 | whatever readers others close, the invariant of the dataset holds |
| Dataset.Dataset.UniformSegmentGrid | src/colstore/dataset.py:691-702 | the grid value, remembered once, is right for this column whichever column computed it |
| Dataset.GridForAll | src/colstore/dataset.py:691-702 | a grid test on one column's boundaries holds for every column |
| Dataset.Dataset.NativeGather | src/colstore/dataset.py:704-727 | sorted, uniform or searched, the native gather reads the concatenated column |
| Dataset.Dataset.NativeGatherMany | src/colstore/dataset.py:729-773 | several columns natively, with or without bins recorded on the first; no columns fail on the first table |
| Dataset.Dataset.FancyOne | src/colstore/dataset.py:775-814 | fancy reads, native or sort-once; without a table they fail with the first trouble among the files reached |
| Dataset.Dataset.FancyMany | src/colstore/dataset.py:816-844 | fancy reads of many columns or of none, native or on one shared sort, with the exact failure |
| Dataset.Dataset.MaskNative | src/colstore/dataset.py:846-880 | exactly when the mask kernel takes the mask, declines, or fails on the import; taken, it reads the masked rows of every column |
| Dataset.Dataset.RowsTroubleExact | src/colstore/dataset.py:451-539 | per-file reads are refused exactly if the rows reach a closed child or, without the extension, one of several records |
| Dataset.Dataset.FirstRefusal | src/colstore/dataset.py:451-539 | the first such child in file order decides whether the error is a closed reader or the missing extension |
| Dataset.Dataset.ExtensionMatters | src/colstore/reader.py:837-877 | with all children open, what the missing extension makes fail, exactly |
| Dataset.Dataset.NoNames | src/colstore/dataset.py:729-773 | a read of no columns fails exactly on a non-empty ordered selection of several files, or on the import |
| Dataset.Dataset.NativeTakesExactly | src/colstore/dataset.py:897-920 | which selections of several files a native pass may take: dense masks, non-empty row lists, backward slices that take a row |
| Dataset.Dataset.OpenReads | src/colstore/dataset.py:922-1007 | a read that reaches open children only is the same in every address space that shows their files |
| Dataset.Dataset.SettledIffOpen | src/colstore/dataset.py:704-727 | provided that no closed file's blocks lie over an open file's (`Apart`), its answer is settled by the open files exactly if it reaches no closed one |
| Dataset.Dataset.ListedBehindClose | src/colstore/dataset.py:624-630 | a table remembered and a child closed: a fresh stitch would have none, and a list of the child's rows is still read |
| Dataset.ReadBehindClose | src/colstore/dataset.py:606-630 | the same as calls: a read that remembers, a close, one row refused, the same row read as a list |
| Dataset.Dataset.GatherOne | src/colstore/dataset.py:922-1007 | for every list of children, column and selector, whichever route is taken, a read returns what indexing the concatenated column returns, in the files' own bytes if it reaches open ones only; it fails exactly with the error of `OneFailure`: closed, unknown, refused by the only child, or the first trouble among the files reached unless a native pass serves it; it remembers a table exactly where it asks for one, and changes none |
| Dataset.Dataset.GatherMany | src/colstore/dataset.py:1009-1045 | the same for any list of columns: exactly the requested names, each with its read, or exactly the error of `ManyFailure`, the empty list and the only child's own routes included |
| Dataset.ReadBytes | src/colstore/dataset.py:922-1045 | so every byte of every element of a read is the mapped byte of the row that the selector asks for in that place, found by file, record and column |
| LittleEndian.DecodeEncodeSigned | src/cpp/record_index.cpp:63-77 | two's complement fields read back what was packed |
| LittleEndian.EncodeSignedByte | src/cpp/record_index.cpp:63-77 | byte `k` of a packed field is the digit of weight `256^k`, negative numbers taken modulo the field |
| RecordIndex.WrittenHeaderAccepted | src/colstore/format.py:354-371 | a packed record header passes magic, index and checksum and gives back its row count |
| RecordIndex.HeaderChecked | src/cpp/record_index.cpp:190-214 | a header is accepted exactly if magic, packed index and row count and the checksum of all bytes before it stand in their places; otherwise exactly the first of the three that is wrong is reported, with its values |
| RecordIndex.WalkIffChain | src/cpp/record_index.cpp:153-237 | the walk succeeds exactly on files whose good headers, byte by byte, chain, each starting where the padded body before it ends |
| RecordIndex.WalkIffFault | src/cpp/record_index.cpp:153-237 | it fails exactly with the first fault behind a chain of good headers: before the file, cut off, bad, or a body past the end |
| RecordIndex.WalkRecovers | include/colstore/record_index.hpp:22-50 | over any file of headers and padded bodies, whatever surrounds them, the walk recovers body offsets and row counts |
| RecordIndex.RecordsApart | include/colstore/record_index.hpp:22-50 | walked records never overlap, headers included, and every body lies inside the file |
| RecordIndex.ReadRecordIndex | src/cpp/record_index.cpp:153-237 | with a buffer of any size that slides and is refilled by arbitrarily short reads, it fills the arrays from a chain of good headers, or returns the first fault behind one |
| RecordIndex.AlignmentsAgree | src/cpp/record_index.cpp:84-86 | to which multiple of 8 truncating and flooring round; they agree exactly from -7 on or on residue 1 |
| RecordIndex.AcceptedExact | src/colstore/format.py:207-297 | when the native walk succeeds, the fallback returns the same exactly if the two sizes agree for every record but the last, count by count |
| RecordIndex.WalksAgreeExactly | src/colstore/format.py:207-297 | for up to 2^56 records both give the same arrays or the same first error exactly under a condition on what the native walk meets |
| RecordIndex.WalksDisagree | src/colstore/format.py:207-209 | a two-record file, checksums valid, on which they do not |
| Compaction.OpenedInside | src/colstore/compaction.py:111-117 | in a file whose headers were walked every record body lies inside the file, so no splice can run short |
| Compaction.ByteInBody | src/colstore/compaction.py:196-220 | byte by byte, where the spliced body holds each source cell |
| Compaction.CellPreserved | src/colstore/compaction.py:182-220 | the value at (column, global row) of the one record is the value at body offset plus prefix times rows plus local row times size of the source |
| Compaction.CompactedIndex | src/colstore/compaction.py:188-228 | the output's header walk finds one record, its body starts with the spliced bytes, and body plus pad is the 8-aligned body size |
| Compaction.CompactionPreserves | src/colstore/compaction.py:98-155 | the compacted file opens with the same logical table, column by name, and compacting it again changes nothing |
| Splice.CopyRange | src/colstore/compaction.py:237-274 | for every pattern of short transfers both splice paths append exactly the range's bytes the source has; only `sendfile` reports a short source |
| Splice.CopyFileObj | src/colstore/compaction.py:290-310 | reading through the bound copies at most the bound, whatever the read sizes |
| Splice.WriteCompacted | src/colstore/compaction.py:164-234 | on a walked file it cannot fail; what it wrote is the compacted file, flushed and synced |
| CompactProtocol.SourceAlwaysComplete | src/colstore/compaction.py:75-161 | after any step of any run whose target is not a link of the source, and after a crash at any step, the source path holds the complete old file or, after a finished in-place run, the complete compacted file |
| CompactProtocol.SurvivesIffNotLinked | src/colstore/compaction.py:57-57 | for a source of several records, the source survives every run exactly if the target is not another name of its inode |
| CompactProtocol.LinkTruncated | src/colstore/compaction.py:111-123 | the run that opens such a target: the source is empty |
| CompactProtocol.CompactionCompletes | src/colstore/compaction.py:75-161 | undisturbed, the machine runs to its end, in place or with an output path, copying or compacting, over a free or a taken target name: the result at its path, the lock free |
| CompactProtocol.CrashShowsEither | src/colstore/compaction.py:150-155 | a crash right after a finished in-place run may bring back the old file or keep the new one; both happen |
| CompactProtocol.CrashTearsTarget | src/colstore/compaction.py:122-142 | a crash while the target is being written may leave it holding anything |
| CompactProtocol.TableSurvives | src/colstore/compaction.py:75-161 | so what a crash leaves opens to the source's logical table |
| CompactProtocol.LockReleased | src/colstore/compaction.py:157-161 | no run ends holding the lock or the descriptor |
| CompactProtocol.WriterUndisturbed | src/colstore/compaction.py:77-82 | while a writer holds the lock the run is outside its protected part |
| CompactProtocol.TemporaryRemoved | src/colstore/compaction.py:125-142 | exactly when an ended run leaves a target: in place, if the name was free, after a failed unlock, close or rename, or a failed unlink of a target it had opened |
| CompactProtocol.StrandedComplete | src/colstore/compaction.py:144-161 | after a failed unlock, close or rename the target is complete and the source untouched |
| CompactProtocol.FailureStrands | src/colstore/compaction.py:144-161 | for each of unlock, close and rename a run from the start in which it fails and the complete temporary file stays |
| CompactProtocol.FailureReached | src/colstore/compaction.py:75-142 | for each other way to fail a run from the start that ends in it |
| CompactProtocol.FinishedInPlace | src/colstore/compaction.py:99-155 | an in-place run that has finished shows the compacted file and no temporary name, or, for a source of one record, both names as they were |
| CompactProtocol.FinishedOutOfPlace | src/colstore/compaction.py:99-142 | with an output path, a run that has finished shows there the whole copy of a source of one record or the compacted file, and the source as it was |
| CompactProtocol.CommitInWindowIsLost | src/colstore/compaction.py:64-74 | a run from the start up to the closed descriptor, then a writer's commit, then the rename: the commit is overwritten |
| CompactRivals.StepSound | src/colstore/compaction.py:75-161 | every step of every call, among any number of calls on one file, keeps what makes the source safe |
| CompactRivals.SourceSurvivesRivals | src/colstore/compaction.py:75-161 | if no call takes the lock of another before its rename, then at every step and after a crash at any step the source path shows a complete file that is the first one or a compaction of one |
| CompactRivals.RivalEmpties | src/colstore/compaction.py:144-155 | the run of two calls that leaves the source empty, one of them having ended well |
| CompactRivals.SurvivesIffWindowClosed | src/colstore/compaction.py:60-74 | the source survives every run of two or more calls exactly if none may enter another's window |
| Footer.SerializeStats | src/colstore/_footer.py:74-111 | the loops produce the footer bytes, and raise exactly when a count or length does not fit its field |
| Footer.ReadStats | src/colstore/_footer.py:114-157 | the loops with their offset cursor answer exactly on whole footers, with what the blocks hold, and with nothing on every other input |
| Footer.ParsedExactly | src/colstore/_footer.py:114-157 | what is accepted, whoever wrote it: magic, version, counts, a directory of readable entries, all blocks inside, and at the end the checksum of everything before; and what is then read, cell by cell |
| Footer.FooterRoundTrip | src/colstore/_footer.py:74-157 | for any checksum, records and columns, parsing what was serialized gives it back with the cursor ending at the checksum, or nothing at all if some column has zero-byte elements |
| Footer.FooterRecovered | src/colstore/_footer.py:74-157 | per column: exactly the written names, each with every minimum, maximum and flag |
| Query.RowIndependence | src/colstore/_query.py:316-463 | every row of an evaluated expression is that row's meaning |
| Query.WhereChooses | src/colstore/_query.py:434-463 | in every row `np.where` gives the first branch where its condition is true there, else the second |
| Query.OnlyReferencedColumns | src/colstore/_query.py:163-165 | evaluation depends only on the columns the expression references |
| Query.NamesOccur | src/colstore/_query.py:163-165 | the referenced columns are exactly those that occur outside the test values |
| Query.MaskIsRowwise | src/colstore/_query.py:644-652 | a mask exists exactly if the predicate references a column and tests no membership in an expression, and is row by row its meaning |
| Query.TypePreserved | src/colstore/_query.py:623-641 | in every row an expression has a value of the dtype that the empty probe shows |
| Query.ValidatedHasMask | src/colstore/_query.py:623-652 | a validated predicate has a mask of boolean values; where there are rows, a predicate with a mask is validated exactly if the mask is boolean |
| Query.RefusedExactly | src/colstore/_query.py:623-641 | what each refusal means: exactly the unknown columns first, then no column, then a membership test in an expression, then the dtype |
| Query.EvaluableExactly | src/colstore/_query.py:401-432 | an expression can be evaluated exactly if every membership test anywhere in it has a list of values |
| Query.BatchingIsSound | src/colstore/_query.py:644-652 | evaluating batch by batch, for any batch boundaries, and concatenating is evaluating the whole |
| Query.EmitPreservesMeaning | src/colstore/_query.py:177-184 | through any faithful builder an expression comes out meaning what it meant |
| Query.Substitution | src/colstore/_query.py:177-184 | rebuilding with expressions for columns is evaluating over the derived columns |
| Query.SubstitutionOnColumns | src/colstore/frame.py:1117-1141 | the same on whole columns |
| QueryParse.Build | src/colstore/_query.py:545-575 | the builder, loops included, makes the specified tree or the first error |
| QueryParse.BuildCompare | src/colstore/_query.py:578-597 | its comparison loop, with the running left operand |
| QueryParse.ParseQuery | src/colstore/_query.py:522-538 | a string is parsed to the built tree or its error, and refused when it is only a literal |
| QueryParse.BuiltIffSupported | src/colstore/_query.py:545-620 | a tree is built exactly for the supported syntax |
| QueryParse.BuiltReportsFirst | src/colstore/_query.py:545-620 | otherwise the first problem in reading order is reported, an operator before its operands, a link's right side before its operator |
| QueryParse.BuiltIffEvaluable | src/colstore/_query.py:578-597 | a built tree can be evaluated exactly if every membership test has a literal on its right |
| QueryParse.MembershipInColumn | src/colstore/_query.py:401-432 | with a column there, the tree references the left side only, and tests every row against one boxed object |
| QueryParse.BuildPreservesMeaning | src/colstore/_query.py:545-597 | a tree that can be evaluated means, in every row, what the syntax means |
| QueryParse.ChainMeans | src/colstore/_query.py:578-597 | a chained comparison of any length is the conjunction of its adjacent pairs |
| QueryParse.ParsedMask | src/colstore/_query.py:522-652 | so does the mask of a parsed predicate |
| RecordSkip.ColumnStatDescribes | src/colstore/_footer.py:53-71 | a prunable statistic is attained and bounds every cell, all of them finite; exactly the non-empty, all-finite records of a comparable kind are prunable |
| RecordSkip.OrderLaws | src/colstore/_query.py:374-388 | the comparisons are one total order on the numbers, infinities at its ends, and NaN is in no relation but `!=` |
| RecordSkip.BoundsExactly | src/colstore/_query.py:374-388 | exactly the comparisons other than `!=` of one bare column with one number, either way round, are lowered |
| RecordSkip.BoundsMean | src/colstore/_query.py:374-388 | the lowered comparison, flipped or not, says of each row what the expression says |
| RecordSkip.SkippedHasNoMatch | src/colstore/reader.py:415-431 | a skipped record has no matching row; for the orderings a prunable record is skipped exactly if it has none, for equality exactly if the scalar is outside its extremes |
| RecordSkip.TrySkipQueryMask | src/colstore/reader.py:402-438 | when it answers at all, and what the mask then holds in every record |
| RecordSkip.EvaluateQueryMask | src/colstore/reader.py:390-400 | with or without statistics, the mask is the full evaluation's |
| RecordSkip.FooterDescribes | src/colstore/_footer.py:1-12 | statistics computed, serialized, parsed and decoded describe the records they came from |
| Numa.NodeCoreCpus | src/colstore/_numa.py:449-464 | every listed CPU's core once, no others, in the order of first mention |
| Numa.CoresAscendIff | src/colstore/_numa.py:449-464 | the cores ascend exactly if every CPU that brings in a core stands for a higher one than all before it |
| Numa.CoresDescend | src/colstore/_numa.py:449-464 | a CPU list on which they do not |
| Numa.SpreadCpuOrder | src/colstore/_numa.py:467-490 | the nested loops take as many cores as asked for, core `i` of node `a` before core `j` of node `b` exactly if `i < j`, or `i == j` and `a < b`, and none is left out for a later one |
| Numa.SpreadIsRoundRobin | src/colstore/_numa.py:467-490 | the same of the order as a function, where no core belongs to two nodes |
| Numa.SpreadIsDistinct | src/colstore/_numa.py:467-490 | the lesser of `n` and all cores, distinct, each smaller result a prefix of the larger |
| Numa.SpreadIsBalanced | src/colstore/_numa.py:467-490 | among the first CPUs of the order, however many, a node is behind another by at most one, unless it is exhausted |

## Left out

- Real mappings, prefetching, thread caps, NUMA and `madvise` calls, and the values of the density gates: they choose routes, and every choice is covered.
- GatherOne: a native pass over a closed reader's mapping answers from whatever is at those addresses; that the process may not survive the load is not modelled.
- `itemsize <= 0`, which the kernels refuse with status -1: columns of stored files have elements.
- Preallocated `out=` buffers and zero-copy dataset views: thin wrappers around the reads.
- Tearing inside one element store: a store of one cell is one step, except in the run copy, where a step is one byte.
- Warnings as errors: `warnings.warn` never raises.
- IndicesAreSortedExact: the sample positions are the exact fractions; floating-point rounding of `linspace` could move one by a row, inside the range.
- StridedWalk: a slice is given as start, step and count, and the rows are synthesized as the kernel does.
- ReadRecordIndex: row counts and offsets are unbounded integers; 64-bit overflow, undefined in the kernel, is not modelled, nor are I/O errors other than a negative offset.
- The file header (magic, counters block, JSON manifest): `Compaction.Image` holds what it reports, and the header bytes of the output are arbitrary.
- SourceAlwaysComplete: the operating system honours the advisory lock.
- SurvivesIffNotLinked: a source of at most one record is not rewritten; copying it onto its own link is refused by `shutil.copyfile`.
- CompactProtocol.LockReleased: unlock and close in the final block do not themselves fail.
- FooterRoundTrip: names and dtype strings are their UTF-8 bytes, which decode. For zero-byte elements NumPy allocates one byte each, so the bytes written differ from the model's; they are not parsed back either way.
- `numpy.clip` on an expression, which builds two ufunc nodes; interleaving columns into record arrays.
- The footer that a compaction drops: statistics are advisory and a compacted file has none.
- String and bytes alignment in comparisons, list operands outside membership tests, and NumPy's own type promotion rules: dtypes of results are an arbitrary function of the operands' dtypes.
- SourceSurvivesRivals: the calls are in place, on one path, with no writer among them; a call whose locked inode is no longer the path's fails at the header walk, which reads by path and finds one record.
- RecordSkip.EvaluateQueryMask: scalars that cannot be compared, for which the code reads in full, do not occur among numbers.
- Configuration, conversion to other libraries, rendering, command line, streaming writers and shards.
