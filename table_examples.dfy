/**
 * The table builder on the reads of the repository's table-builder test: a 62-base
 * sequence cut into 5-base windows, two libraries each with 36 and 150 base reads,
 * four reads, then a flush. The whole printed table is derived.
 */
module TableExamples {
  import opened Wrappers
  import opened Orders
  import opened Entries
  import opened RowAssignment
  import opened ColumnAssignment
  import opened TableBuilding
  import ColumnExamples

  const TableRgToLib: RgToLibMap := map["rg1" := "lib1", "rg2" := "lib1", "rg3" := "lib2"]

  const TableLibNames: seq<string> := ["lib1", "lib2"]

  const TableReadLens: PerLibReadLengths := map["lib1" := [36, 150], "lib2" := [36, 150]]

  lemma TableLibOrder()
    ensures LibOrder(TableReadLens) == TableLibNames
  {
    LexIsStrictTotalOrder();
    assert LexLess("lib1", "lib2");
    assert TableReadLens.Keys == Elems(TableLibNames);
    SortedUnique(LibOrder(TableReadLens), TableLibNames, LexLess);
  }

  lemma TableLibStarts()
    ensures LibStart(TableLibNames, TableReadLens, 0) == 0
    ensures LibStart(TableLibNames, TableReadLens, 1) == 2
    ensures LibStart(TableLibNames, TableReadLens, 2) == 4
  {
    var libs := TableLibNames;
    assert libs[..0] == [] && libs[..1] == ["lib1"] && libs[..2] == libs;
    assert libs[..1][..0] == [];
    ColumnExamples.Layout2(libs, TableReadLens);
  }

  /** The read groups of the test and the index of their library. */
  predicate TableGroup(rg: string, k: nat) {
    || ((rg == "rg1" || rg == "rg2") && k == 0)
    || (rg == "rg3" && k == 1)
  }

  lemma TableGroupLib(rg: string, k: nat)
    requires TableGroup(rg, k)
    ensures k < 2 && rg in TableRgToLib && TableRgToLib[rg] == TableLibNames[k]
    ensures TableReadLens[TableLibNames[k]] == [36, 150]
  {
  }

  lemma TableLibIndex(k: nat)
    requires k < 2
    ensures IndexOf(LibOrder(TableReadLens), TableLibNames[k]) == k
  {
    TableLibOrder();
    LexIsStrictTotalOrder();
    assert StrictlySorted(TableLibNames, LexLess) by {
      assert LexLess("lib1", "lib2");
    }
    SortedIndexOf(TableLibNames, k, LexLess);
  }

  lemma TableLengthIndex(len: nat, j: nat)
    requires j < 2 && len == [36, 150][j]
    ensures IndexOf([36, 150], len) == j
  {
  }

  /** A read of a known group with a length of its library goes to the library's block. */
  lemma TableColumn(ca: ColumnAssigner, rg: string, k: nat, len: nat, j: nat)
    requires IsPerLibAndLengthFor(ca, TableRgToLib, TableReadLens) && TableGroup(rg, k)
    requires j < 2 && len == [36, 150][j]
    ensures ca.AssignColumn(Some(rg), len) == 2 * k + j
  {
    TableGroupLib(rg, k);
    assert Indexable(TableRgToLib, TableReadLens, (rg, len));
    TableLibIndex(k);
    TableLibOrder();
    TableLibStarts();
    TableLengthIndex(len, j);
  }

  /** The assigner of the test has four columns, each in range, and needs read groups. */
  lemma TableShape(ca: ColumnAssigner)
    requires IsPerLibAndLengthFor(ca, TableRgToLib, TableReadLens)
    ensures ca.NumColumns() == 4 && ca.ColumnsInRange() && ca.NeedsReadGroup()
  {
    TableLibOrder();
    TableLibStarts();
    assert TableLibNames[..2] == TableLibNames;
    PerLibAndLengthInRange(ca, TableRgToLib, TableReadLens);
  }

  /** The accepted reads of the test, as rows and columns. */
  const TableHits: seq<Hit> := [Hit(0, 0, 0), Hit(0, 0, 0), Hit(0, 2, 1), Hit(6, 9, 2)]

  /** The table the test expects: positions 1, 6, ..., 61 of chr1; rows 3 to 5 and 10 to 12 empty. */
  const ExpectedTable: seq<PrintedRow> := [
    DataRow("chr1", 1, [2, 1, 0, 0]),
    DataRow("chr1", 6, [0, 1, 0, 0]),
    DataRow("chr1", 11, [0, 1, 0, 0]),
    EmptyRow("chr1", 16),
    EmptyRow("chr1", 21),
    EmptyRow("chr1", 26),
    DataRow("chr1", 31, [0, 0, 1, 0]),
    DataRow("chr1", 36, [0, 0, 1, 0]),
    DataRow("chr1", 41, [0, 0, 1, 0]),
    DataRow("chr1", 46, [0, 0, 1, 0]),
    EmptyRow("chr1", 51),
    EmptyRow("chr1", 56),
    EmptyRow("chr1", 61)
  ]

  /** The rows the test's reads cover. */
  predicate TableTouched(row: nat) {
    row <= 2 || 6 <= row <= 9
  }

  /** The counts of a covered row of the test. */
  function TableCounts(row: nat): Counts {
    [if row == 0 then 2 else 0, if row <= 2 then 1 else 0, if 6 <= row <= 9 then 1 else 0, 0]
  }

  lemma TableTouchedRows(row: nat)
    ensures Touched(TableHits, row) <==> TableTouched(row)
  {
    var h0, h1, h2, h3 := Hit(0, 0, 0), Hit(0, 0, 0), Hit(0, 2, 1), Hit(6, 9, 2);
    TouchedSnoc([], h0, row);
    TouchedSnoc([h0], h1, row);
    TouchedSnoc([h0, h1], h2, row);
    TouchedSnoc([h0, h1, h2], h3, row);
    assert [] + [h0] == [h0] && [h0] + [h1] == [h0, h1] && [h0, h1] + [h2] == [h0, h1, h2];
    assert [h0, h1, h2] + [h3] == TableHits;
  }

  lemma TableCountsAt(row: nat, col: nat)
    requires col < 4
    ensures Count(TableHits, row, col) == TableCounts(row)[col]
  {
    var h0, h1, h2, h3 := Hit(0, 0, 0), Hit(0, 0, 0), Hit(0, 2, 1), Hit(6, 9, 2);
    CountSnoc([], h0, row, col);
    CountSnoc([h0], h1, row, col);
    CountSnoc([h0, h1], h2, row, col);
    CountSnoc([h0, h1, h2], h3, row, col);
    assert [] + [h0] == [h0] && [h0] + [h1] == [h0, h1] && [h0, h1] + [h2] == [h0, h1, h2];
    assert [h0, h1, h2] + [h3] == TableHits;
  }

  lemma ExpectedRowAt(k: nat)
    requires k < 13
    ensures ExpectedTable[k] == if TableTouched(k) then DataRow("chr1", 5 * k + 1, TableCounts(k)) else EmptyRow("chr1", 5 * k + 1)
  {
  }

  /** A printed row that agrees with the test's reads is the expected row. */
  lemma TableRowAt(p: PrintedRow, k: nat)
    requires k < 13 && RowMatches(p, k, TableHits, 4) && p.seqName == "chr1" && p.pos == 5 * k + 1
    ensures p == ExpectedTable[k]
  {
    TableTouchedRows(k);
    ExpectedRowAt(k);
    if p.DataRow? {
      forall c | 0 <= c < 4 ensures p.counts[c] == TableCounts(k)[c] {
        TableCountsAt(k, c);
      }
    }
  }

  lemma TableRows(printed: seq<PrintedRow>)
    requires |printed| == 13 && PrintedCount(printed, TableHits, 4)
    requires forall k :: 0 <= k < 13 ==> printed[k].seqName == "chr1" && printed[k].pos == 5 * k + 1
    ensures printed == ExpectedTable
  {
    forall k | 0 <= k < 13 ensures printed[k] == ExpectedTable[k] {
      TableRowAt(printed[k], k);
    }
  }

  /** The row ranges of the test's reads with 5-base windows. */
  lemma TableRanges(ra: RowAssigner)
    requires ra.Valid() && ra.winSize == 5 && !ra.startOnly
    ensures ra.RowRange(0, 4) == (0, 0) && ra.RowRange(2, 4) == (0, 0)
    ensures ra.RowRange(2, 14) == (0, 2) && ra.RowRange(30, 50) == (6, 9)
  {
  }

  /** The test's reads: start, end, length and read group. */
  const Read1: Entry := Entry(0, 4, 36, Some("rg1"), "", 0, 0)
  const Read2: Entry := Entry(2, 4, 36, Some("rg1"), "", 0, 0)
  const Read3: Entry := Entry(2, 14, 150, Some("rg2"), "", 0, 0)
  const Read4: Entry := Entry(30, 50, 36, Some("rg3"), "", 0, 0)

  /** A table builder set up as in the test. */
  ghost predicate TestBuilder(tb: TableBuilder)
    reads tb, tb.rowAssigner
  {
    && tb.Valid() && tb.seqName == "chr1" && tb.NumCols() == 4
    && tb.rowAssigner.winSize == 5 && !tb.rowAssigner.startOnly && tb.rowAssigner.numWins == 13
    && tb.ColumnFor(Read1) == 0 && tb.ColumnFor(Read2) == 0 && tb.ColumnFor(Read3) == 1 && tb.ColumnFor(Read4) == 2
  }

  method IngestFirstReads(tb: TableBuilder)
    requires TestBuilder(tb) && tb.currentRow == 0 && tb.hits == []
    modifies tb
    ensures TestBuilder(tb) && tb.currentRow == 0 && tb.hits == TableHits[..2]
  {
    TableRanges(tb.rowAssigner);
    tb.Ingest(Read1);
    tb.Ingest(Read2);
  }

  method IngestLastReads(tb: TableBuilder)
    requires TestBuilder(tb) && tb.currentRow == 0 && tb.hits == TableHits[..2]
    modifies tb
    ensures TestBuilder(tb) && tb.currentRow == 6 && tb.hits == TableHits
  {
    TableRanges(tb.rowAssigner);
    tb.Ingest(Read3);
    tb.Ingest(Read4);
  }

  lemma TableReach()
    ensures Reach(TableHits) == 10
  {
    var h0, h1, h2, h3 := Hit(0, 0, 0), Hit(0, 0, 0), Hit(0, 2, 1), Hit(6, 9, 2);
    assert TableHits[..3] == [h0, h1, h2] && [h0, h1, h2][..2] == [h0, h1];
    assert [h0, h1][..1] == [h0] && [h0][..0] == [];
    assert Reach([h0]) == 1;
    assert Reach([h0, h1]) == 1;
    assert Reach([h0, h1, h2]) == 3;
  }

  /** A printed row has the position of its row and the test's sequence name. */
  lemma FlushedTable(tb: TableBuilder)
    requires tb.Valid() && tb.seqName == "chr1" && tb.rowAssigner.winSize == 5
    requires tb.NumCols() == 4 && tb.hits == TableHits && |tb.printed| == 13
    ensures tb.printed == ExpectedTable
  {
    forall k | 0 <= k < 13 ensures tb.printed[k].seqName == "chr1" && tb.printed[k].pos == 5 * k + 1 {
      assert tb.PosOf(k) == 5 * k + 1;
    }
    TableRows(tb.printed);
  }

  lemma TableNumWins(ra: RowAssigner)
    requires ra.seqLen == 62 && ra.winSize == 5
    ensures ra.numWins == 13
  {
    assert Dec32(62) == 61;
    assert Inc32(61 / 5) == 13;
  }

  /** The test's builder, before any read. */
  method NewTestBuilder() returns (tb: TableBuilder)
    ensures fresh(tb) && TestBuilder(tb) && tb.currentRow == 0 && tb.hits == [] && tb.printed == []
  {
    var ra := new RowAssigner(62, 5);
    var ca := NewPerLibAndLength(TableRgToLib, TableReadLens);
    TableShape(ca);
    TableColumn(ca, "rg1", 0, 36, 0);
    TableColumn(ca, "rg2", 0, 150, 1);
    TableColumn(ca, "rg3", 1, 36, 0);
    tb := new TableBuilder("chr1", ra, ca);
    TableNumWins(ra);
  }

  /** Builds the test's table: four reads into a 62-base sequence with 5-base windows, then a flush. */
  method BuildTestTable() returns (printed: seq<PrintedRow>)
    ensures printed == ExpectedTable
  {
    var tb := NewTestBuilder();
    IngestFirstReads(tb);
    IngestLastReads(tb);
    TableReach();
    tb.Flush();
    FlushedTable(tb);
    printed := tb.printed;
  }
}
