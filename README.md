# bam-window, modelled in Dafny

bam-window counts aligned sequencing reads in fixed-size windows along each reference
sequence. It writes one table row per window and one column per reporting category:
a single "Counts" column, one column per read length, per library, or per
(library, read length) pair.

This project models the counting core and proves properties of it:

- **Row assigner.** A read's 0-based half-open interval maps to the windows, or rows,
  it touches. There are two modes: span and start-only.
- **Column assigners.** There are four variants. Each has a header line, and a factory
  picks one from two switches. Read lengths are sampled from the first million reads.
- **Table builder.** It takes position-sorted reads. It keeps a buffer of pending rows,
  prints finished rows in window order, and pads the table to the window count on
  flush. It prints through the default row printer.
- **Warning collector.** It counts the reads that no column takes, and writes the
  end-of-run summary.
- **StreamJoin.** A delimiter join with a placeholder for an empty sequence.
- **Read filter and options.** The read filter tests mapping quality and SAM flags (the
  FLAG field, section 1.4 of the SAM format specification). Option validation covers
  the pair switches, disjoint flags and the window size.
- **Legacy C helpers of `bamwindow.c`.** These are:
  - linear search (`existsInArray`, `getIndex`);
  - the `qsort` comparison `intcmp`;
  - in-place `uniq` and in-place `quicksort`;
  - `countChNUM` and the tokenizer `separateString`;
  - the `@RG` header parser `parseRGlines`.

Modelling choices:

- **One module per component.** Each lives in its own file:
  - RowAssignment;
  - ColumnAssignment, with ColumnExamples holding the unit-test inputs;
  - TableBuilding, with TableExamples holding the table test;
  - RowPrinting, StreamJoining, Warnings, BamFiltering and BamOptions;
  - LegacyArrays, LegacyStrings and LegacyHeader.

  Shared helpers:
  - Wrappers: Option and Result.
  - Orders: strictly sorted sequences, the iteration order of the source's
    `flat_set`, `std::set` and `std::map`.
  - Decimal: `lexical_cast` and the stream output of numbers.
  - Text: tab-joined fields and splitting.
  - Flags: bitwise and/or on naturals.
  - Entries: the `uint32_t` type and the read record.
- **Objects whose methods update fields are classes.** These are RowAssigner,
  TableBuilder, DefaultRowPrinter, WarningCollector, StreamJoin and Options. Streams are
  `string` values: a writing method returns the text it appended to the output.
- **The table builder's printer is a log.** The builder's `printed` field is the
  sequence of calls the builder made to its printer. The ghost field `hits` holds the
  accepted reads. `Valid()` ties every buffered and every printed row to the number of
  accepted reads that cover it. `RowPrinting.RenderedTable` then proves that the text
  the default printer writes shows those counts.
- **Column assigners are values.** They do not change after construction, so they are
  a datatype. Their constructors and the sampling functions are methods with the
  source's loops. Each is proved against a predicate (`IsPerLengthFor`, `IsPerLibFor`,
  `IsPerLibAndLengthFor`) that states the columns and the index.
- **The `.cpp` wins over the `.hpp` where they disagree.** The column assigner header
  declares `rg_to_col`, `index` and a vector-based per-library-and-length constructor.
  The implementation uses `rg2lib_`, `index_` and a `PerLibReadLengths` argument, a map
  from library name to an ascending set of lengths. The model follows the
  implementation.
- **The table-builder test still uses the vector constructor.** It is modelled as both
  libraries having lengths {36, 150}.
- **The C arrays stay arrays.** `uniq`, `quicksort`, `separateString`'s container and
  `parseRGlines`' `LBs`/`RGs` are `array`s changed in place. C strings are
  `seq<char>`.
- **`parseRGlines` as written.** Buffers it never writes are modelled as `""`, where
  the C leaves them uninitialised. Its buffers of header lines and of line fields are
  shared arrays, overwritten line by line as the C overwrites them. So a short `@RG`
  line is searched together with fields left over from a longer earlier line. A value
  of an earlier line is carried over when a line lacks the tag, as the C does. The
  corrected reading `ReadGroupsFixed` reads every field of each line and carries
  nothing over.

## Model

| member | source | states |
|---|---|---|
| RowAssignment.RowAssigner.constructor | src/RowAssigner.cpp:5-11 | A new assigner keeps its sequence length and window size and starts in span mode; `numWins` is `1 + (seqLen - 1) / winSize` in uint32 arithmetic |
| RowAssignment.RowAssigner.SetStartOnly | src/RowAssigner.hpp:10-12 | Sets the start-only switch and changes nothing else |
| RowAssignment.RowAssigner.RowRange | src/RowAssigner.cpp:13-33 | The first row is the window holding the start. In start-only mode the last row equals it. In span mode the last row is the window of the last covered base, or of the start for an empty span `[x, x)`. `first <= last` always holds |
| RowAssignment.RowAssigner.RowRangeOf | src/RowAssigner.hpp:21-40 | The overload through an entry. In start-only mode it returns the start window without needing `firstPos <= lastPos`. Otherwise it agrees with `RowRange` |
| RowAssignment.RowAssigner.RowRangeIsOverlap | src/RowAssigner.hpp:14-15 | In span mode a window lies in the row range exactly when it shares a base with the interval. An empty interval counts as its start base |
| RowAssignment.RowAssigner.StartOnlyRowIsStartWindow | src/RowAssigner.cpp:20-23 | In start-only mode a window is in the range exactly when it holds the start |
| RowAssignment.SpanRows | src/RowAssigner.cpp:28-31 | The span-mode last row is `(last - 1) / winSize` after the bump of an empty span, and it is at least the first row |
| RowAssignment.BumpedEnd | src/RowAssigner.cpp:28-30 | An empty span `[x, x)` gives the same rows as `[x, x + 1)`, even at the top of the uint32 range |
| RowAssignment.WindowUnique | src/RowAssigner.hpp:24 | Every position lies in exactly one window |
| RowAssignment.RowAssigner.StartPosForWinIndex | src/RowAssigner.hpp:42-44 | The first position of a window is `idx * winSize`, and for an existing window it lies inside the sequence |
| RowAssignment.RowAssigner.StartPosBelowSeqLen | src/RowAssigner.hpp:42-44 | The start position of every window below `numWins` is below the sequence length |
| RowAssignment.RowAssigner.NumWinsBounds | src/RowAssigner.cpp:8 | For a non-empty sequence `1 <= numWins <= seqLen`. The last window holds the last base: `(numWins - 1) * winSize < seqLen <= numWins * winSize`, so `numWins = ceil(seqLen / winSize)` |
| RowAssignment.NumWinsExamples | src/test/TestRowAssigner.cpp:6-15 | Window counts (10, 1) -> 10, (10, 3) -> 4 and (11, 2) -> 6 |
| RowAssignment.RowRangeExamples | src/test/TestRowAssigner.cpp:17-109 | The ranges the span and start-only tests expect with 9-base windows, and the window starts 0, 9 and 18 |
| ColumnAssignment.ColumnAssigner.AssignColumnInRange | src/ColumnAssigner.hpp:34-41 | Every assigned column is -1, meaning no column, or an existing column below `num_columns()` |
| ColumnAssignment.ReadGroupIgnoredUnlessNeeded | src/ColumnAssigner.hpp:35-39 | An assigner that does not need the read group gives the same column without it |
| ColumnAssignment.SingleColumnAssigns | src/ColumnAssigner.hpp:61-68 | The single assigner has one column, "Counts", puts every read in column 0 and needs no read group; its header is `Chr\tStart\tCounts\n` |
| ColumnAssignment.PrintHeader | src/ColumnAssigner.hpp:42-48 | Writes `Chr\tStart`, a tab and each column name in order, and a newline, after the text already written |
| ColumnAssignment.HeaderFields | src/ColumnAssigner.hpp:42-48 | With tab-free names, the header is one line that splits at tabs into Chr, Start and the column names |
| ColumnAssignment.NewPerLength | src/ColumnAssigner.cpp:96-102 | The columns are the distinct sampled lengths in ascending order, each named by its decimal text |
| ColumnAssignment.PerLengthColumns | src/ColumnAssigner.cpp:104-109 | A sampled length gets its rank among the lengths, and that column is named by the length. Every other length gets -1, whatever the read group |
| ColumnAssignment.PerLengthDeterministic | src/ColumnAssigner.cpp:96-97 | Order and repetition of the sampled lengths do not change the assigner |
| ColumnAssignment.NewPerLib | src/ColumnAssigner.cpp:114-129 | The columns are the distinct library names, sorted. Each known read group indexes the column of its library |
| ColumnAssignment.CollectLibraries | src/ColumnAssigner.cpp:117-119 | The first loop gathers exactly the libraries of the map, sorted without repeats |
| ColumnAssignment.IndexLibraries | src/ColumnAssigner.cpp:121-127 | The second loop indexes every read group, and only those, with the position of its library |
| ColumnAssignment.PerLibColumns | src/ColumnAssigner.cpp:135-143 | A known read group gets the rank of its library among all libraries, a column named after the library. A missing or unknown group gets -1, whatever the length |
| ColumnAssignment.PerLibSameColumnIffSameLib | src/ColumnAssigner.cpp:121-127 | Two known read groups share a column exactly when they belong to the same library |
| ColumnAssignment.LayOutColumns | src/ColumnAssigner.cpp:159-167 | The column names are each library's block of `lib.len` names, in library order with lengths ascending. Each library's start is the number of columns before it, libraries without read groups included |
| ColumnAssignment.AppendBlock | src/ColumnAssigner.cpp:164-166 | The inner loop appends one `lib.len` name per length of the library |
| ColumnAssignment.LayoutAt | src/ColumnAssigner.cpp:162-165 | Column `start(lib) + j` is named after the library and its j-th length |
| ColumnAssignment.IndexGroup | src/ColumnAssigner.cpp:187-192 | The inner index loop adds exactly the pairs of one read group with each length of its library, at the library's start plus the length's rank |
| ColumnAssignment.IndexReadGroup | src/ColumnAssigner.cpp:171-193 | One step of the index loop: a group whose library has no lengths adds nothing, any other adds its pairs |
| ColumnAssignment.NewPerLibAndLength | src/ColumnAssigner.cpp:148-194 | The built assigner has exactly the layout, and an index holding exactly the indexable (group, length) pairs, each at its expected column |
| ColumnAssignment.PerLibAndLengthColumns | src/ColumnAssigner.cpp:196-205 | A read gets a column exactly when its group is known, its library has lengths and its length is among them. That column is the library's start plus the length's rank, named `lib.len`. Otherwise -1 |
| ColumnAssignment.PerLibAndLengthInRange | src/ColumnAssigner.cpp:187-191 | Every index entry is below the number of columns |
| ColumnAssignment.ColumnNameInjective | src/ColumnAssigner.cpp:165 | No two (library, length) pairs share a column name |
| ColumnAssignment.GetPerLibReadLengths | src/ColumnAssigner.cpp:15-45 | Looks at no more than `maxEntries` reads and skips those with a missing or unknown group. The result maps each library met to the lengths of its reads. It fails with the "Unable to determine read lengths" error exactly when no read was usable |
| ColumnAssignment.SampleRead | src/ColumnAssigner.cpp:26-35 | One read of the sampling loop adds its length to its library's set, or nothing when its group is missing or unknown |
| ColumnAssignment.GetReadLengths | src/ColumnAssigner.cpp:47-60 | The distinct lengths of the first `maxEntries` reads, each once |
| ColumnAssignment.Enumerate | src/ColumnAssigner.cpp:59 | Copying the unordered set into a vector lists each element once |
| ColumnAssignment.MakeColumnAssigner | src/ColumnAssigner.cpp:65-91 | (len, lib) gives per library and length over each library's lengths among the first million reads, failing exactly when that sample finds no usable read. (len, !lib) gives per length over the sampled lengths, (!len, lib) per library, (!len, !lib) the single column. Every success has its columns in range |
| ColumnExamples.PerLengthExample | src/test/TestColumnAssigner.cpp:36-63 | Lengths {20, 10}: columns "10" and "20", length 10 -> 0, 20 -> 1, any other -> -1 for every group |
| ColumnExamples.PerLibColumnsExample | src/test/TestColumnAssigner.cpp:66-77 | The test's map gives columns lib1, lib2 and lib3 |
| ColumnExamples.LibHeader | src/test/TestColumnAssigner.cpp:74-76 | Its header is `Chr\tStart\tlib1\tlib2\tlib3\n` |
| ColumnExamples.PerLibAssignExample | src/test/TestColumnAssigner.cpp:86-91 | rg1 and rg2 -> 0, rg3 -> 1 and rg4 -> 2, whatever the length |
| ColumnExamples.PerLibUnknownGroup | src/test/TestColumnAssigner.cpp:83 | An unknown read group gets -1 |
| ColumnExamples.PerLibAndLengthColumnsExample | src/test/TestColumnAssigner.cpp:95-111 | The library-and-length test's columns are lib1.36, lib1.75, lib2.75, lib2.100, lib3.150 and lib3.250, in that order |
| ColumnExamples.GroupRejects | src/test/TestColumnAssigner.cpp:151-164 | In the library-and-length test a known read group gets -1 for every length its library lacks |
| ColumnExamples.PerLibAndLengthAssignExample | src/test/TestColumnAssigner.cpp:149-156 | rg1 and rg2 go to columns 0 and 1 for lengths 36 and 75 and get -1 for 100 |
| ColumnExamples.PerLibAndLengthAssignLib2Example | src/test/TestColumnAssigner.cpp:158-160 | rg3 goes to 2 and 3 for 75 and 100 and gets -1 for 36 |
| ColumnExamples.PerLibAndLengthAssignLib3Example | src/test/TestColumnAssigner.cpp:162-167 | rg4 goes to 4 and 5 for 150 and 250 and gets -1 for 36, 75 and 100 |
| ColumnExamples.PerLibAndLengthUnknownGroup | src/test/TestColumnAssigner.cpp:134 | An unknown read group gets -1 |
| ColumnExamples.PerLibAndLengthRejectExample | src/test/TestColumnAssigner.cpp:151-164 | All six rejects of the test: rg1 and rg2 get -1 for 100, rg3 for 36, and rg4 for 36, 75 and 100 |
| ColumnExamples.PerLibAndLengthUnknownLength | src/test/TestColumnAssigner.cpp:137-147 | A length no library has gets -1 for every group |
| TableBuilding.TableBuilder.constructor | src/TableBuilder.hpp:56-69 | A new builder is at row 0 with nothing buffered, printed or counted, and it records whether the column assigner needs the read group |
| TableBuilding.TableBuilder.Ingest | src/TableBuilder.hpp:75-101 | A read without a column changes nothing. Otherwise the builder advances to the read's first row and counts the read once in each row of its range, its last row being below 2^32 - 1 (see "## Left out"). Rows already printed are never changed |
| TableBuilding.TableBuilder.IncrementCell | src/TableBuilder.hpp:103-110 | Appends zero rows of the column count until the row exists, then adds one to exactly that cell. Every buffered row keeps one count per column |
| TableBuilding.TableBuilder.IncrementRange | src/TableBuilder.hpp:98-100 | Adds one to the read's column in each row from the first to the last, and leaves all other cells as they were |
| TableBuilding.TableBuilder.CountHit | src/TableBuilder.hpp:96-100 | Counting an accepted read keeps every buffered and printed row equal to the true counts |
| TableBuilding.TableBuilder.SetCurrentRow | src/TableBuilder.hpp:112-116 | Moving back or staying put changes nothing; moving forward advances |
| TableBuilding.TableBuilder.AdvanceTo | src/TableBuilder.hpp:118-130 | Prints exactly `idx - currentRow` rows: the first `min(diff, buffered)` are buffered rows with their counts, the rest empty rows. The cursor ends at `idx` |
| TableBuilding.TableBuilder.EmitFront | src/TableBuilder.hpp:122-125 | Prints the oldest buffered row at the cursor's position and drops it |
| TableBuilding.TableBuilder.EmitEmpty | src/TableBuilder.hpp:127-129 | Prints an empty row at the cursor's position |
| TableBuilding.TableBuilder.PrintRow | src/TableBuilder.hpp:137-143 | Hands a row and its counts to the printer at position `winSize * row + 1` |
| TableBuilding.TableBuilder.PrintEmptyRow | src/TableBuilder.hpp:132-135 | Hands an empty row to the printer at position `winSize * row + 1` |
| TableBuilding.TableBuilder.NewRow | src/TableBuilder.hpp:145-147 | A new row has one zero per column |
| TableBuilding.TableBuilder.Flush | src/TableBuilder.hpp:149-159 | Prints every buffered row in order, then empty rows up to the window count. When the cursor has not passed the reach of the counted reads, the printed rows then total `max(reach, numWins)`. The constructor establishes that condition and `Ingest` keeps it, so it holds at the first flush |
| TableBuilding.TableBuilder.Destroy | src/TableBuilder.hpp:71-73 | The destructor flushes, which is how each sequence's table is completed. It prints every buffered row in order, then empty rows up to the window count, leaving the cursor at `max(cursor + buffered, numWins)`. When the cursor has not passed the reach of the counted reads, the printed rows total `max(reach, numWins)`. After an explicit flush it prints nothing more |
| TableBuilding.UntouchedIsZero | src/TableBuilder.hpp:127-129 | A row that no read covers has zero counts, so printing it empty loses nothing |
| TableBuilding.UntouchedBeyondReach | src/TableBuilder.hpp:118-130 | No read covers a row at or beyond the reach of the reads, so such a row is printed empty |
| TableBuilding.TouchedBelowReach | src/TableBuilder.hpp:118-130 | When every read starts at or before a row, that row is covered exactly when it lies below the reach |
| TableBuilding.FrontKeepsCounts | src/TableBuilder.hpp:122-125 | Printing the oldest buffered row keeps every printed row equal to its true counts |
| TableBuilding.EmptyKeepsCounts | src/TableBuilder.hpp:127-129 | Printing an empty row when nothing is buffered keeps the printed counts true |
| TableBuilding.HitKeepsCounts | src/TableBuilder.hpp:96-100 | Counting a read that starts at the cursor keeps the whole invariant |
| TableBuilding.PrintedAfterHit | src/TableBuilder.hpp:96-100 | A read never changes the counts of a row printed before its first row |
| TableExamples.BuildTestTable | src/test/TestTableBuilder.cpp:92-153 | The test's four reads in a 62-base sequence with 5-base windows, then a flush, print exactly 13 rows at positions 1, 6, ..., 61. Rows 0-2 and 6-9 hold the expected counts and rows 3-5 and 10-12 are empty |
| TableExamples.TableRanges | src/test/TestTableBuilder.cpp:96-101 | The row ranges of the test's reads |
| TableExamples.TableShape | src/test/TestTableBuilder.cpp:82-85 | The test's assigner has four columns and needs read groups |
| TableExamples.TableNumWins | src/test/TestTableBuilder.cpp:74-75 | 62 bases in 5-base windows make 13 windows |
| RowPrinting.DefaultRowPrinter.constructor | src/TableBuilder.hpp:14-22 | The printer prepares one `\t0` per column and writes nothing |
| RowPrinting.DefaultRowPrinter.PrintEmpty | src/TableBuilder.hpp:24-30 | Writes the sequence name, a tab, the position and one `\t0` per column, then a newline |
| RowPrinting.DefaultRowPrinter.PrintCounts | src/TableBuilder.hpp:32-43 | Writes the sequence name, a tab, the position and a tab before each count, then a newline |
| RowPrinting.EmptyLineIsZeroRow | src/TableBuilder.hpp:14-43 | An empty row prints exactly as a row of zeros, one per column |
| RowPrinting.RenderedCounts | src/TableBuilder.hpp:24-43 | Whatever the builder hands over for a row, data or empty, the line shows the row's true counts |
| RowPrinting.RenderedTable | src/TableBuilder.hpp:24-43 | The text printed for the builder's whole log shows every row's true counts |
| RowPrinting.RowLineParses | src/TableBuilder.hpp:32-43 | A data line with a tab-free sequence name splits at tabs into the name, the position and the counts, each reading back as the number written |
| Warnings.WarningCollector.constructor | src/WarningCollector.cpp:24-28 | A new collector holds the options and read-group map it was given, with no missing groups and empty maps |
| Warnings.WarningCollector.WarnInvalidCol | src/WarningCollector.cpp:30-55 | With one of the switches on (the source asserts this), raises exactly the counter of the read's key by one. A null group counts as missing under per-library. Otherwise the group's library, or `<unknown>`, is counted with the length or alone. Without per-library the length is counted |
| Warnings.BumpedRaisesOne | src/WarningCollector.cpp:30-55 | Counting under one key raises its tally by one and leaves every other tally unchanged |
| Warnings.TalliesCount | src/WarningCollector.cpp:30-55 | After any sequence of skipped reads, each tally is the number of reads with its key |
| Warnings.WarningCollector.Print | src/WarningCollector.cpp:57-83 | Writes the missing-group line, the lengths line, the libraries line and the per-library section. Each map is iterated in a given order of its keys |
| Warnings.SummaryEmpty | src/WarningCollector.cpp:57-83 | Nothing is written exactly when nothing was skipped |
| Warnings.LengthListEntries | src/WarningCollector.cpp:65-68 | The list of skipped lengths splits at its commas into one `len (n read[s])` entry per length, in iteration order |
| Warnings.Plural | src/WarningCollector.cpp:9-11 | "" exactly for one, "s" otherwise |
| Warnings.LengthCountCommaFree | src/WarningCollector.cpp:13-21 | An entry `key (n read[s])` for a length holds no comma |
| Warnings.WriteLibraryLines | src/WarningCollector.cpp:79-81 | The loop writes the line of each library with skipped lengths, in iteration order |
| StreamJoining.StreamJoin.constructor | src/StreamJoin.hpp:17-23 | A new join has the placeholder "." and the delimiter "," |
| StreamJoining.StreamJoin.EmptyString | src/StreamJoin.hpp:25-28 | Replaces only the placeholder and returns the same object |
| StreamJoining.StreamJoin.Delimiter | src/StreamJoin.hpp:30-33 | Replaces only the delimiter and returns the same object |
| StreamJoining.StreamJoin.WriteTo | src/StreamJoin.hpp:35-47 | Writes the placeholder for no items, otherwise the first item and a delimiter and item for each later one |
| StreamJoining.StreamJoin.WriteItems | src/StreamJoin.hpp:40-44 | The loop over the items writes the join of the non-empty sequence |
| StreamJoining.StreamJoin.ToString | src/StreamJoin.hpp:49-53 | Gives exactly what writing the join to an empty stream gives |
| StreamJoining.JoinedItemsFields | src/StreamJoin.hpp:40-44 | The join is the first item followed by each later item after a delimiter |
| StreamJoining.JoinedSplits | src/StreamJoin.hpp:40-44 | With a one-character delimiter no item holds, the join splits back into the items and holds exactly one delimiter fewer than items |
| BamFiltering.AcceptsBits | src/BamFilter.hpp:11-17 | A read is wanted exactly when its quality reaches the minimum, every required bit is set and no forbidden bit is set |
| BamFiltering.ClashingFlagsRejectAll | src/BamFilter.hpp:15-16 | When a bit is both required and forbidden, no read is wanted |
| BamFiltering.StricterAcceptsLess | src/BamFilter.hpp:14-16 | A higher minimum, more required bits or more forbidden bits never turn a rejected read into a wanted one |
| BamFiltering.NoFlagsOnlyQuality | src/BamFilter.hpp:14-16 | Without flag constraints only the mapping quality decides |
| BamFiltering.DefaultFilter | src/Options.cpp:140-168 | Under the default options, a read of non-negative quality is wanted exactly when it is neither secondary nor supplementary |
| BamFiltering.BamFilter.constructor | src/BamFilter.hpp:6-8 | The filter holds the options it was given |
| BamFiltering.BamFilter.ValidatedWantsSome | src/BamFilter.hpp:14-16 | With disjoint flags, a read whose flag word is exactly the required bits, at the minimum quality, is wanted |
| BamOptions.Options.constructor | src/Options.cpp:119-168 | The command-line defaults: window 1000, minimum quality 0, no required flags, forbidden flags secondary and supplementary, all switches off |
| BamOptions.Options.Validate | src/Options.cpp:201-218 | ORs in the paired bit for pairs-only and the paired and proper-pair bits for proper-pairs-only. It then fails with the disjointness error if a bit is both required and forbidden, and with the window error if the window is below one, in that order |
| BamOptions.Validated | src/Options.cpp:201-218 | Validation succeeds exactly when the flags after the switches are disjoint from the forbidden ones and the window is at least one. The first failing check supplies the error |
| BamOptions.ValidatedBits | src/Options.cpp:208-218 | Success exactly when the window is positive and no bit is both required, after the switches, and forbidden |
| BamOptions.PairFlagBits | src/Options.cpp:202-206 | Bit by bit, the switches set bit 0, or bits 0 and 1, and leave every other bit as it was |
| BamOptions.PairFlagsKeep | src/Options.cpp:201-206 | Validation only adds required bits |
| BamOptions.PairFlagsIdempotent | src/Options.cpp:201-206 | Applying the switches a second time changes nothing |
| BamOptions.PairsAgainstForbidden | src/Options.cpp:202-212 | Asking for pairs while forbidding paired reads is always an error |
| BamOptions.DefaultsValid | src/Options.cpp:119-218 | The defaults validate and leave the required flags empty |
| BamOptions.DefaultForbiddenBits | src/Options.cpp:164-168 | The default forbidden flags are 0x100 and 0x800 and no other bit |
| BamOptions.SignedValue | src/Options.cpp:208-211 | The C `int` a 32-bit flag pattern stands for, as printed in the error message |
| LegacyArrays.ExistsInArray | bamwindow.c:83-96 | 1 exactly when `val` occurs in `a[0..alen)`, 0 otherwise; a negative `alen` is an empty range |
| LegacyArrays.GetIndex | bamwindow.c:98-111 | The first `i` with `a[i] == val`, or -1 when there is none. So the result is non-negative exactly when `existsInArray` gives 1 |
| LegacyArrays.IntCmp | bamwindow.c:114-120 | -1, 0 or 1 exactly as `a < b`, `a == b` or `a > b` |
| LegacyArrays.IntCmpIsOrder | bamwindow.c:114-120 | The comparison is antisymmetric and transitive |
| LegacyArrays.Uniq | bamwindow.c:122-141 | With no elements it returns 1 and changes nothing. Otherwise it leaves `a[0..k)` equal to the input with each element equal to its predecessor dropped, and the rest as it was |
| LegacyArrays.UniqOnSorted | bamwindow.c:122-141 | On ascending input the kept prefix is strictly increasing, holds the same values and its length is the number of distinct values |
| LegacyArrays.DedupElems | bamwindow.c:127-136 | Dropping repeats keeps every value |
| LegacyArrays.DedupNoRepeats | bamwindow.c:127-136 | No two neighbours of the kept prefix are equal |
| LegacyArrays.ScanUp | bamwindow.c:369 | The upward scan stops at the first element not below the pivot, or at the end of the range |
| LegacyArrays.ScanDown | bamwindow.c:370 | The downward scan stops at the first element not above the pivot, guarded by the pivot itself |
| LegacyArrays.PartitionScans | bamwindow.c:365-381 | The scan-and-swap loop ends with the range split at the upward scan's stop, a permutation of its input |
| LegacyArrays.Partition | bamwindow.c:361-384 | Permutes the range so that the pivot sits between the elements not above it and those not below it |
| LegacyArrays.Quicksort | bamwindow.c:355-388 | Leaves the range an ascending permutation of its input and everything outside it unchanged; a range of at most one changes nothing |
| LegacyArrays.QuicksortStep | bamwindow.c:385-386 | Sorting both sides of a partitioned range sorts and permutes the whole range |
| LegacyStrings.CountChNUM | bamwindow.c:144-160 | The number of occurrences of `c` in the string |
| LegacyStrings.SeparateString | bamwindow.c:163-212 | Stores the pieces into `container[0..]` and returns their number, leaving later slots as they were. The pieces are the maximal non-empty runs without `c`, plus one piece `c` when the string ends with `c` |
| LegacyStrings.SeparateStep | bamwindow.c:172-207 | One pass of the loop over a character keeps the pieces stored so far equal to the prefix's pieces |
| LegacyStrings.CollectLast | bamwindow.c:174-185 | The last character always ends the last piece, even when it is the separator |
| LegacyStrings.CollectChar | bamwindow.c:187-206 | Any other non-separator character extends the piece. A following separator stores the piece |
| LegacyStrings.SeparatedFits | bamwindow.c:240-248 | The pieces number at most the separators plus one, so the `lineNum + 1` buffers suffice |
| LegacyStrings.SeparatedIsTokens | bamwindow.c:163-212 | When the string does not end with `c`, the pieces are exactly the non-empty runs between separators |
| LegacyStrings.TokensRoundTrip | bamwindow.c:163-212 | Cutting a string built from non-empty, separator-free fields gives the fields back |
| LegacyStrings.SplitCount | bamwindow.c:238 | A string has one more field than separators |
| LegacyHeader.CutHeader | bamwindow.c:238-248 | Allocates `lineNum + 1` buffers, `lineNum` being the newline count, and cuts the header into them |
| LegacyHeader.HeaderLines | bamwindow.c:238-250 | The lines the parser walks number exactly the newlines |
| LegacyHeader.CountRgLines | bamwindow.c:252-268 | The first pass gives the number of `@RG` lines and their largest tab count |
| LegacyHeader.MaxTabsBound | bamwindow.c:261-266 | No `@RG` line has more tabs than the bound |
| LegacyHeader.MaxTabsAttained | bamwindow.c:261-266 | The bound is the tab count of some `@RG` line, or 0 |
| LegacyHeader.ScanTags | bamwindow.c:288-301 | The search over the first `tabs` field buffers gives the value after `LB:` and after `ID:` of the last buffer carrying each, or the previous value |
| LegacyHeader.TagValueFinds | bamwindow.c:293-301 | The last buffer carrying the tag supplies the value |
| LegacyHeader.TagValueAbsent | bamwindow.c:293-301 | Without a buffer carrying the tag, the previous line's value stays |
| LegacyHeader.ReadRgLine | bamwindow.c:286-301 | One `@RG` line overwrites the first buffers with its fields, then searches the first `tabs` buffers |
| LegacyHeader.ReadRgLines | bamwindow.c:279-307 | The second pass stores, for each `@RG` line in order, the values the as-written scan gives, and leaves the later slots of `LBs` and `RGs` as they were |
| LegacyHeader.RgScan | bamwindow.c:279-307 | The as-written scan stores one library and one id per `@RG` line |
| LegacyHeader.ParseRGLines | bamwindow.c:215-324 | Returns the number of `@RG` lines among the header's lines. `LBs` and `RGs` get their as-written values, and later slots are unchanged |
| LegacyHeader.ParsedAsWritten | bamwindow.c:215-324 | The as-written reading gives one library and one id per `@RG` line |
| LegacyHeader.AsWrittenSkipsLastField | bamwindow.c:288 | For a header of one `@RG` line, the values come only from the fields before its last one |
| LegacyHeader.FixedReadsEveryField | bamwindow.c:288 | The corrected reading of the same header takes the values from all its fields |
| LegacyHeader.LastLibraryLost | bamwindow.c:288 | An `LB:` field placed last is lost as written and found by the corrected reading |
| LegacyHeader.LibraryLostExample | bamwindow.c:288 | For `@RG\tID:a\tLB:b\n` the as-written library is "" and the id "a"; the corrected reading gives library "b" and id "a" |
| LegacyHeader.ReadGroupsFixed | bamwindow.c:215-324 | The corrected parser gives one group per `@RG` line |
| LegacyHeader.GroupsFixedAppend | bamwindow.c:279-307 | The corrected reading carries nothing from one line to the next |

## Left out

- BAM and SAM input, the header reader, `main` and the run orchestration are left out. They are foreign calls into samtools and file I/O. Reads are an abstract record: start, end, length, read group, name, quality and flags.
- Downsampling with `srand48`/`drand48` and `rand()` is left out, because it is randomness.
- Option parsing with boost::program_options, the help text and the checks on `downsample` and the seed are left out. Only `validate`'s flag and window checks and the defaults are modelled.
- `fetch_func`, `grabReadLens` and `main` of `bamwindow.c` (khash, samtools callbacks, `printf`) are left out.
- The `qsort` library call is left out; only its comparison `intcmp` is modelled.
- Text written to `std::cerr` is left out. This covers the table builder's warning for a read without a column and the per-library-and-length warning for a read group without lengths. The builder's skip itself is modelled.
- `stream_join` has no member of its own. It ignores its `transform` argument and default-constructs the transform. The collector's transform is stateless, so the model builds each join with that transform directly.
- The iteration order of the collector's unordered maps is a parameter of `Print`: any order listing each key once.
- The order of `get_read_lengths`' unordered set is left open in the same way.
- `TableBuilding.TableBuilder.Flush`: the source pops the deque's front while iterating, which is undefined behaviour. The model prints every buffered row in order, which is what the code evidently means.
- `RowAssignment.RowAssigner.RowRange`: positions are `uint32` values with `firstPos <= lastPos`, as the source asserts. The bump of an empty span at the top of the range is written out.
- `RowAssignment.RowAssigner.NumWinsBounds` needs `seqLen >= 1`. For an empty sequence the wrap-around of `seqLen - 1` is modelled, but no bound is claimed.
- Counters (`size_t`, `uint32_t` counts and the cursor) are unbounded naturals. Their wrap-around after 2^32 or 2^64 reads is not modelled.
- `TableBuilding.TableBuilder.Ingest` requires an accepted read's last row to be below 2^32 - 1, and so do `CountHit` and `IncrementRange`. The source counts the rows with a `uint32_t` index and `i <= lst_row`. At the last `uint32_t` row that test never fails: the index wraps to 0, and the next `increment_cell` fails its `idx >= current_row_` assertion, or loops forever without asserts. That run is not modelled.
- `TableBuilding.TableBuilder.PosOf` wraps modulo 2^32, as the source's `uint32_t` product does. The row index itself is unbounded.
- `bamwindow.c`'s fixed buffers are left out: `MAX_LINE_LEN`, `MAX_TOKEN_LEN`, `headTemp` and the 1024-slot arrays. Their overflows are out of the model.
- Strings are sequences of characters. Embedded NUL bytes and `strncpy`'s padding are not modelled.
- `LegacyHeader.ParseRGLines`: buffers the C leaves uninitialised read as "". This covers `LBs`/`RGs` values before any `LB:`/`ID:` was seen and field buffers never written.
- `LegacyArrays.Quicksort`: for a range of two or more, one readable element must follow the range. Line 369 reads `data[i]` before testing `i < N`, and the caller allocates one extra slot.
- `Warnings.WarningCollector.WarnInvalidCol` requires one of the two switches to be on. The source asserts this; only those assigners reject reads.

## Findings

| source | as written | input that shows it | evidently intended | confidence | as-written member | corrected member |
|---|---|---|---|---|---|---|
| bamwindow.c:288 | The search runs over the first `tokenNum` field buffers, `tokenNum` being the largest tab count of an `@RG` line. A line with that many tabs has one field more, so its last field is never searched | the header `@RG\tID:a\tLB:b\n` gives library "" where "b" is expected | every field of every `@RG` line is searched, so the library is "b" | high, derived by proof, not executed | LegacyHeader.LibraryLostExample | LegacyHeader.FixedReadsEveryField |
