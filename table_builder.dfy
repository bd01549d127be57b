/**
 * TableBuilder: accumulates per-window, per-column read counts for one reference
 * sequence from reads sorted by start position, and hands finished rows to a printer
 * in order, with rows that no read touched printed as empty rows.
 */
module TableBuilding {
  import opened Wrappers
  import opened Entries
  import opened RowAssignment
  import opened ColumnAssignment

  /** One row of counts, one per column. */
  type Counts = seq<nat>

  /** What the printer receives: a row without data, or a row with its counts. */
  datatype PrintedRow =
    | EmptyRow(seqName: string, pos: uint32)
    | DataRow(seqName: string, pos: uint32, counts: Counts)

  /** An accepted read: the rows it covers and its column. */
  datatype Hit = Hit(firstRow: nat, lastRow: nat, col: nat)

  predicate Covers(h: Hit, row: nat, col: nat) {
    h.col == col && h.firstRow <= row <= h.lastRow
  }

  /** The number of accepted reads counted in a cell. */
  function Count(hits: seq<Hit>, row: nat, col: nat): nat {
    if |hits| == 0 then 0
    else Count(hits[..|hits| - 1], row, col) + if Covers(hits[|hits| - 1], row, col) then 1 else 0
  }

  /** Whether some accepted read covers a row, in any column. */
  function Touched(hits: seq<Hit>, row: nat): bool {
    if |hits| == 0 then false
    else Touched(hits[..|hits| - 1], row) || hits[|hits| - 1].firstRow <= row <= hits[|hits| - 1].lastRow
  }

  /** A row no read covers counts zero in every column. */
  lemma {:induction false} UntouchedIsZero(hits: seq<Hit>, row: nat, col: nat)
    ensures !Touched(hits, row) ==> Count(hits, row, col) == 0
  {
    if |hits| > 0 {
      UntouchedIsZero(hits[..|hits| - 1], row, col);
    }
  }

  /** Rows from the reach of the reads on are not covered. */
  lemma {:induction false} UntouchedBeyondReach(hits: seq<Hit>, row: nat)
    requires row >= Reach(hits)
    ensures !Touched(hits, row)
  {
    if |hits| > 0 {
      UntouchedBeyondReach(hits[..|hits| - 1], row);
    }
  }

  /** When every read starts at or before a row, the row is covered exactly when it lies below the reach. */
  lemma {:induction false} TouchedBelowReach(hits: seq<Hit>, row: nat)
    requires forall k :: 0 <= k < |hits| ==> hits[k].firstRow <= row
    ensures Touched(hits, row) <==> row < Reach(hits)
  {
    if row >= Reach(hits) {
      UntouchedBeyondReach(hits, row);
    } else {
      var init := hits[..|hits| - 1];
      if row < Reach(init) {
        assert forall k :: 0 <= k < |init| ==> init[k] == hits[k];
        TouchedBelowReach(init, row);
      }
    }
  }

  /** One past the last row any accepted read covers. */
  function Reach(hits: seq<Hit>): (r: nat)
    ensures forall k :: 0 <= k < |hits| ==> hits[k].lastRow < r
  {
    if |hits| == 0 then 0
    else
      var r := Reach(hits[..|hits| - 1]);
      var h := hits[|hits| - 1];
      assert forall k :: 0 <= k < |hits| - 1 ==> hits[k] == hits[..|hits| - 1][k];
      if h.lastRow + 1 > r then h.lastRow + 1 else r
  }

  lemma {:induction false} CountBeyondReach(hits: seq<Hit>, row: nat, col: nat)
    requires row >= Reach(hits)
    ensures Count(hits, row, col) == 0
  {
    if |hits| > 0 {
      CountBeyondReach(hits[..|hits| - 1], row, col);
    }
  }

  lemma CountSnoc(hits: seq<Hit>, h: Hit, row: nat, col: nat)
    ensures Count(hits + [h], row, col) == Count(hits, row, col) + if Covers(h, row, col) then 1 else 0
  {
    assert (hits + [h])[..|hits|] == hits;
  }

  lemma TouchedSnoc(hits: seq<Hit>, h: Hit, row: nat)
    ensures Touched(hits + [h], row) == (Touched(hits, row) || h.firstRow <= row <= h.lastRow)
  {
    assert (hits + [h])[..|hits|] == hits;
  }

  lemma ReachSnoc(hits: seq<Hit>, h: Hit)
    ensures Reach(hits + [h]) == Max(Reach(hits), h.lastRow + 1)
  {
    assert (hits + [h])[..|hits|] == hits;
  }

  /** Buffered rows hold the counts of rows cur, cur + 1, ..., one count per column. */
  ghost predicate RowsCount(rows: seq<Counts>, cur: nat, hits: seq<Hit>, numCols: nat) {
    && (forall i :: 0 <= i < |rows| ==> |rows[i]| == numCols)
    && (forall i, c :: 0 <= i < |rows| && 0 <= c < numCols ==> rows[i][c] == Count(hits, cur + i, c))
  }

  /** Every printed row agrees with the counts of its row. */
  ghost predicate PrintedCount(printed: seq<PrintedRow>, hits: seq<Hit>, numCols: nat) {
    forall k :: 0 <= k < |printed| ==> RowMatches(printed[k], k, hits, numCols)
  }

  /** Every accepted read covers at least one row, has an existing column and starts at or before row cur. */
  ghost predicate HitsInRange(hits: seq<Hit>, numCols: nat, cur: nat) {
    forall k :: 0 <= k < |hits| ==> hits[k].firstRow <= hits[k].lastRow && hits[k].col < numCols && hits[k].firstRow <= cur
  }

  /** rows is rows0, extended with zero rows, with one added in column col of rows fst to lst. */
  ghost predicate Incremented(rows0: seq<Counts>, rows: seq<Counts>, cur: nat, fst: nat, lst: nat, col: nat, numCols: nat) {
    && (forall i :: 0 <= i < |rows0| ==> |rows0[i]| == numCols)
    && (forall i :: 0 <= i < |rows| ==> |rows[i]| == numCols)
    && (forall i, c :: 0 <= i < |rows| && 0 <= c < numCols ==>
          rows[i][c] == (if i < |rows0| then rows0[i][c] else 0)
                        + (if c == col && fst <= cur + i <= lst then 1 else 0))
  }

  /** Counting a read that starts at the first buffered row keeps every part of the invariant. */
  lemma HitKeepsCounts(rows0: seq<Counts>, rows: seq<Counts>, cur: nat, printed: seq<PrintedRow>,
                       hits0: seq<Hit>, h: Hit, numCols: nat)
    requires RowsCount(rows0, cur, hits0, numCols) && PrintedCount(printed, hits0, numCols)
    requires HitsInRange(hits0, numCols, cur) && cur + |rows0| == Max(cur, Reach(hits0))
    requires |printed| == cur == h.firstRow <= h.lastRow && h.col < numCols
    requires |rows| == Max(|rows0|, h.lastRow + 1 - cur)
    requires Incremented(rows0, rows, cur, h.firstRow, h.lastRow, h.col, numCols)
    ensures RowsCount(rows, cur, hits0 + [h], numCols) && PrintedCount(printed, hits0 + [h], numCols)
    ensures HitsInRange(hits0 + [h], numCols, cur) && cur + |rows| == Max(cur, Reach(hits0 + [h]))
  {
    RowsAfterHit(rows0, rows, cur, hits0, h, numCols);
    PrintedAfterHit(printed, hits0, h, numCols);
    ReachSnoc(hits0, h);
    assert forall k :: 0 <= k < |hits0| ==> (hits0 + [h])[k] == hits0[k];
  }

  /** Printing the oldest buffered row as a data row keeps the counts invariant. */
  lemma FrontKeepsCounts(rows: seq<Counts>, cur: nat, printed: seq<PrintedRow>, hits: seq<Hit>, numCols: nat,
                         name: string, pos: uint32)
    requires RowsCount(rows, cur, hits, numCols) && PrintedCount(printed, hits, numCols)
    requires HitsInRange(hits, numCols, cur) && |printed| == cur
    requires |rows| > 0 && cur + |rows| == Max(cur, Reach(hits))
    ensures RowsCount(rows[1..], cur + 1, hits, numCols)
    ensures PrintedCount(printed + [DataRow(name, pos, rows[0])], hits, numCols)
    ensures HitsInRange(hits, numCols, cur + 1)
  {
    TouchedBelowReach(hits, cur);
    var next := printed + [DataRow(name, pos, rows[0])];
    forall k | 0 <= k < |next| ensures RowMatches(next[k], k, hits, numCols) {
      if k < |printed| {
        assert next[k] == printed[k];
      }
    }
    forall i, c | 0 <= i < |rows[1..]| && 0 <= c < numCols ensures rows[1..][i][c] == Count(hits, cur + 1 + i, c) {
      assert rows[1..][i] == rows[i + 1];
    }
  }

  /** Printing an empty row when nothing is buffered keeps the counts invariant. */
  lemma EmptyKeepsCounts(cur: nat, printed: seq<PrintedRow>, hits: seq<Hit>, numCols: nat, name: string, pos: uint32)
    requires PrintedCount(printed, hits, numCols) && HitsInRange(hits, numCols, cur)
    requires |printed| == cur && cur >= Reach(hits)
    ensures PrintedCount(printed + [EmptyRow(name, pos)], hits, numCols)
    ensures HitsInRange(hits, numCols, cur + 1)
  {
    UntouchedBeyondReach(hits, cur);
    var next := printed + [EmptyRow(name, pos)];
    forall k | 0 <= k < |next| ensures RowMatches(next[k], k, hits, numCols) {
      if k < |printed| {
        assert next[k] == printed[k];
      }
    }
  }

  /** Buffered rows that gained one in the hit's cells count the hits plus the new one. */
  lemma RowsAfterHit(rows0: seq<Counts>, rows: seq<Counts>, cur: nat, hits0: seq<Hit>, h: Hit, numCols: nat)
    requires RowsCount(rows0, cur, hits0, numCols)
    requires cur + |rows0| >= Reach(hits0) && |rows0| <= |rows|
    requires Incremented(rows0, rows, cur, h.firstRow, h.lastRow, h.col, numCols)
    ensures RowsCount(rows, cur, hits0 + [h], numCols)
  {
    forall i, c | 0 <= i < |rows| && 0 <= c < numCols ensures rows[i][c] == Count(hits0 + [h], cur + i, c) {
      CountSnoc(hits0, h, cur + i, c);
      if i >= |rows0| {
        CountBeyondReach(hits0, cur + i, c);
      }
    }
  }

  /** Printed rows all come before the hit's first row, so they still agree with the counts. */
  lemma PrintedAfterHit(printed: seq<PrintedRow>, hits0: seq<Hit>, h: Hit, numCols: nat)
    requires PrintedCount(printed, hits0, numCols)
    requires |printed| <= h.firstRow
    ensures PrintedCount(printed, hits0 + [h], numCols)
  {
    forall k | 0 <= k < |printed| ensures RowMatches(printed[k], k, hits0 + [h], numCols) {
      RowMatchesExtend(printed[k], k, hits0, h, numCols);
    }
  }

  function Max(a: nat, b: nat): nat {
    if a < b then b else a
  }

  function Min(a: nat, b: nat): nat {
    if a < b then a else b
  }

  /**
   * A printed row agrees with the reads: a row some read covers is a data row holding its
   * counts, a row no read covers is an empty row (and its counts are zeros, UntouchedIsZero).
   */
  ghost predicate RowMatches(p: PrintedRow, row: nat, hits: seq<Hit>, numCols: nat) {
    match p
    case EmptyRow(_, _) => !Touched(hits, row)
    case DataRow(_, _, counts) =>
      Touched(hits, row) && |counts| == numCols && forall c :: 0 <= c < numCols ==> counts[c] == Count(hits, row, c)
  }

  /** A read that starts after a row does not change what that row should hold. */
  lemma RowMatchesExtend(p: PrintedRow, row: nat, hits: seq<Hit>, h: Hit, numCols: nat)
    requires RowMatches(p, row, hits, numCols) && row < h.firstRow
    ensures RowMatches(p, row, hits + [h], numCols)
  {
    assert (hits + [h])[..|hits|] == hits;
  }

  class TableBuilder {
    const seqName: string
    const rowAssigner: RowAssigner
    const colAssigner: ColumnAssigner
    const needsReadGroup: bool
    var currentRow: nat
    var rows: seq<Counts>
    /** The calls the printer has received, in order. */
    var printed: seq<PrintedRow>
    /** The accepted reads so far. */
    ghost var hits: seq<Hit>

    function NumCols(): nat {
      colAssigner.NumColumns()
    }

    /** The 1-based output position of a row, in uint32 arithmetic. */
    function PosOf(row: nat): uint32 {
      (rowAssigner.winSize * row + 1) % U32
    }

    /** The printer calls for buffered rows rs, the first of them being row start. */
    function DataRows(rs: seq<Counts>, start: nat): (r: seq<PrintedRow>)
      ensures |r| == |rs|
    {
      if |rs| == 0 then []
      else DataRows(rs[..|rs| - 1], start) + [DataRow(seqName, PosOf(start + |rs| - 1), rs[|rs| - 1])]
    }

    /** The printer calls for the empty rows from up to, but not including, to. */
    function EmptyRows(from: nat, to: nat): (r: seq<PrintedRow>)
      ensures |r| == if to <= from then 0 else to - from
    {
      if to <= from then [] else EmptyRows(from, to - 1) + [EmptyRow(seqName, PosOf(to - 1))]
    }

    ghost predicate Valid()
      reads this
    {
      && rowAssigner.Valid()
      && colAssigner.ColumnsInRange()
      && needsReadGroup == colAssigner.NeedsReadGroup()
      && |printed| == currentRow
      && (forall k :: 0 <= k < |printed| ==> printed[k].seqName == seqName && printed[k].pos == PosOf(k))
      && PrintedCount(printed, hits, NumCols())
      && RowsCount(rows, currentRow, hits, NumCols())
      && HitsInRange(hits, NumCols(), currentRow)
      && currentRow + |rows| == Max(currentRow, Reach(hits))
    }

    constructor (seqName: string, rowAssigner: RowAssigner, colAssigner: ColumnAssigner)
      requires rowAssigner.Valid() && colAssigner.ColumnsInRange()
      ensures Valid()
      ensures this.seqName == seqName && this.rowAssigner == rowAssigner && this.colAssigner == colAssigner
      ensures currentRow == 0 && rows == [] && printed == [] && hits == []
    {
      this.seqName := seqName;
      this.rowAssigner := rowAssigner;
      this.colAssigner := colAssigner;
      this.needsReadGroup := colAssigner.NeedsReadGroup();
      currentRow := 0;
      rows := [];
      printed := [];
      hits := [];
    }

    /** The column a read goes to; the read group is only looked at when the assigner needs it. */
    function ColumnFor(e: Entry): int {
      colAssigner.AssignColumn(if needsReadGroup then e.readGroup else None, e.length)
    }

    function NewRow(): (r: Counts)
      ensures |r| == NumCols() && forall c :: 0 <= c < |r| ==> r[c] == 0
    {
      seq(NumCols(), _ => 0)
    }

    method PrintRow(c: Counts)
      requires |c| == NumCols()
      modifies this`printed
      ensures printed == old(printed) + [DataRow(seqName, PosOf(currentRow), c)]
    {
      printed := printed + [DataRow(seqName, PosOf(currentRow), c)];
    }

    method PrintEmptyRow()
      modifies this`printed
      ensures printed == old(printed) + [EmptyRow(seqName, PosOf(currentRow))]
    {
      printed := printed + [EmptyRow(seqName, PosOf(currentRow))];
    }

    /** Adds one to a cell, first appending zero rows until the cell's row exists. */
    method IncrementCell(idx: nat, col: nat)
      requires idx >= currentRow && col < NumCols()
      requires forall i :: 0 <= i < |rows| ==> |rows[i]| == NumCols()
      modifies this`rows
      ensures forall i :: 0 <= i < |rows| ==> |rows[i]| == NumCols()
      ensures |rows| == Max(old(|rows|), idx - currentRow + 1)
      ensures forall i, c :: 0 <= i < |rows| && 0 <= c < NumCols() ==>
                rows[i][c] == (if i < old(|rows|) then old(rows)[i][c] else 0)
                              + (if i == idx - currentRow && c == col then 1 else 0)
    {
      var localIdx := idx - currentRow;
      while localIdx >= |rows|
        invariant old(|rows|) <= |rows| <= Max(old(|rows|), localIdx + 1)
        invariant rows[..old(|rows|)] == old(rows)
        invariant forall i :: 0 <= i < |rows| ==> |rows[i]| == NumCols()
        invariant forall i, c :: old(|rows|) <= i < |rows| && 0 <= c < NumCols() ==> rows[i][c] == 0
        decreases localIdx + 1 - |rows|
      {
        rows := rows + [NewRow()];
      }
      rows := rows[localIdx := rows[localIdx][col := rows[localIdx][col] + 1]];
    }

    /** Prints the oldest buffered row and drops it: one step of advance_to and of flush. */
    method EmitFront()
      requires Valid() && |rows| > 0
      modifies this`currentRow, this`rows, this`printed
      ensures Valid()
      ensures currentRow == old(currentRow) + 1 && rows == old(rows)[1..]
      ensures printed == old(printed) + [DataRow(seqName, PosOf(old(currentRow)), old(rows)[0])]
    {
      FrontKeepsCounts(rows, currentRow, printed, hits, NumCols(), seqName, PosOf(currentRow));
      PrintRow(rows[0]);
      rows := rows[1..];
      currentRow := currentRow + 1;
    }

    /** Prints an empty row when nothing is buffered: the other step of advance_to and of flush. */
    method EmitEmpty()
      requires Valid() && |rows| == 0
      modifies this`currentRow, this`printed
      ensures Valid()
      ensures currentRow == old(currentRow) + 1
      ensures printed == old(printed) + [EmptyRow(seqName, PosOf(old(currentRow)))]
    {
      EmptyKeepsCounts(currentRow, printed, hits, NumCols(), seqName, PosOf(currentRow));
      PrintEmptyRow();
      currentRow := currentRow + 1;
    }

    /** Prints and drops the n oldest buffered rows. */
    method EmitBuffered(n: nat)
      requires Valid() && n <= |rows|
      modifies this`currentRow, this`rows, this`printed
      ensures Valid()
      ensures currentRow == old(currentRow) + n && rows == old(rows)[n..]
      ensures printed == old(printed) + DataRows(old(rows)[..n], old(currentRow))
    {
      var i := 0;
      while i < n
        invariant 0 <= i <= n
        invariant Valid()
        invariant currentRow == old(currentRow) + i
        invariant rows == old(rows)[i..]
        invariant printed == old(printed) + DataRows(old(rows)[..i], old(currentRow))
      {
        EmitFront();
        assert old(rows)[..i + 1][..i] == old(rows)[..i];
        i := i + 1;
      }
    }

    /** With nothing buffered, prints empty rows until row to. */
    method EmitEmptyUpTo(to: nat)
      requires Valid() && rows == [] && currentRow <= to
      modifies this`currentRow, this`printed
      ensures Valid() && currentRow == to
      ensures printed == old(printed) + EmptyRows(old(currentRow), to)
    {
      while currentRow < to
        invariant Valid() && rows == []
        invariant old(currentRow) <= currentRow <= to
        invariant printed == old(printed) + EmptyRows(old(currentRow), currentRow)
        decreases (to as int) - currentRow
      {
        EmitEmpty();
      }
    }

    /** Prints the rows before idx: buffered rows with their counts, the rest as empty rows. */
    method AdvanceTo(idx: nat)
      requires Valid() && idx >= currentRow
      modifies this`currentRow, this`rows, this`printed
      ensures Valid() && currentRow == idx
      ensures var n := Min(idx - old(currentRow), old(|rows|));
              && rows == old(rows)[n..]
              && printed == old(printed) + DataRows(old(rows)[..n], old(currentRow)) + EmptyRows(old(currentRow) + n, idx)
    {
      var nWithData := Min(idx - currentRow, |rows|);
      EmitBuffered(nWithData);
      if |rows| == 0 {
        EmitEmptyUpTo(idx);
      }
    }

    method SetCurrentRow(idx: nat)
      requires Valid()
      modifies this`currentRow, this`rows, this`printed
      ensures Valid() && currentRow == Max(old(currentRow), idx)
      ensures idx <= old(currentRow) ==> rows == old(rows) && printed == old(printed)
      ensures old(currentRow) < idx ==>
                var n := Min(idx - old(currentRow), old(|rows|));
                && rows == old(rows)[n..]
                && printed == old(printed) + DataRows(old(rows)[..n], old(currentRow)) + EmptyRows(old(currentRow) + n, idx)
    {
      if idx > currentRow {
        AdvanceTo(idx);
      }
    }

    /**
     * Counts one read: a read without a column is skipped; otherwise every finished row
     * before its first row is printed and each row of its range gains one in its column.
     * Reads must come sorted by start row.
     */
    method Ingest(e: Entry)
      requires Valid() && e.firstPos <= e.lastPos
      requires ColumnFor(e) < 0 || rowAssigner.RowRange(e.firstPos, e.lastPos).0 >= currentRow
      // a uint32 loop index ending at the last uint32 row would wrap and never stop
      requires ColumnFor(e) < 0 || rowAssigner.RowRange(e.firstPos, e.lastPos).1 < U32 - 1
      modifies this
      ensures Valid()
      ensures var col := ColumnFor(e);
              var r := rowAssigner.RowRange(e.firstPos, e.lastPos);
              && (col < 0 ==> currentRow == old(currentRow) && rows == old(rows) && printed == old(printed) && hits == old(hits))
              && (col >= 0 ==> currentRow == r.0 && hits == old(hits) + [Hit(r.0, r.1, col)])
              && printed[..old(|printed|)] == old(printed)
      ensures old(currentRow) <= Reach(old(hits)) ==> currentRow <= Reach(hits)
    {
      var range := rowAssigner.RowRange(e.firstPos, e.lastPos);
      var fstRow, lstRow := range.0, range.1;
      var rg := if needsReadGroup then e.readGroup else None;
      var col := colAssigner.AssignColumn(rg, e.length);
      if col < 0 {
        // the source writes a warning to standard error and skips the read
        return;
      }
      colAssigner.AssignColumnInRange(rg, e.length);
      SetCurrentRow(fstRow);
      CountHit(fstRow, lstRow, col);
    }

    /** Counts an accepted read covering rows fst to lst in column col, all rows from fst on being buffered. */
    method CountHit(fst: nat, lst: nat, col: nat)
      requires Valid() && currentRow == fst <= lst < U32 - 1 && col < NumCols()
      modifies this`rows, this`hits
      ensures Valid() && hits == old(hits) + [Hit(fst, lst, col)]
    {
      ghost var rows0 := rows;
      IncrementRange(fst, lst, col);
      HitKeepsCounts(rows0, rows, currentRow, printed, hits, Hit(fst, lst, col), NumCols());
      hits := hits + [Hit(fst, lst, col)];
    }

    /** Adds one to column col of every row from fst to lst. */
    method IncrementRange(fst: nat, lst: nat, col: nat)
      requires currentRow <= fst <= lst < U32 - 1 && col < NumCols()
      requires forall i :: 0 <= i < |rows| ==> |rows[i]| == NumCols()
      modifies this`rows
      ensures |rows| == Max(old(|rows|), lst + 1 - currentRow)
      ensures Incremented(old(rows), rows, currentRow, fst, lst, col, NumCols())
    {
      var idx := fst;
      while idx <= lst
        invariant fst <= idx <= lst + 1
        invariant |rows| == Max(old(|rows|), if idx == fst then 0 else idx - currentRow)
        invariant forall i :: 0 <= i < |rows| ==> |rows[i]| == NumCols()
        invariant forall i, c :: 0 <= i < |rows| && 0 <= c < NumCols() ==>
                    rows[i][c] == (if i < old(|rows|) then old(rows)[i][c] else 0)
                                  + (if c == col && fst <= currentRow + i < idx then 1 else 0)
      {
        IncrementCell(idx, col);
        idx := idx + 1;
      }
    }

    /** Prints every buffered row, then empty rows up to the number of windows. */
    method Flush()
      requires Valid()
      modifies this`currentRow, this`rows, this`printed
      ensures Valid() && rows == []
      ensures currentRow == Max(old(currentRow) + old(|rows|), rowAssigner.numWins)
      ensures printed == old(printed) + DataRows(old(rows), old(currentRow))
                         + EmptyRows(old(currentRow) + old(|rows|), currentRow)
      ensures old(currentRow) <= Reach(hits) ==> |printed| == Max(Reach(hits), rowAssigner.numWins)
    {
      EmitBuffered(|rows|);
      assert old(rows)[..old(|rows|)] == old(rows);
      if currentRow < rowAssigner.numWins {
        EmitEmptyUpTo(rowAssigner.numWins);
      }
    }

    /** The destructor flushes; after an explicit flush it prints nothing more. */
    method Destroy()
      requires Valid()
      modifies this`currentRow, this`rows, this`printed
      ensures Valid() && rows == []
      ensures currentRow == Max(old(currentRow) + old(|rows|), rowAssigner.numWins)
      ensures printed == old(printed) + DataRows(old(rows), old(currentRow))
                         + EmptyRows(old(currentRow) + old(|rows|), currentRow)
      ensures old(currentRow) <= Reach(hits) ==> |printed| == Max(Reach(hits), rowAssigner.numWins)
      ensures old(rows) == [] && old(currentRow) >= rowAssigner.numWins ==> printed == old(printed)
    {
      Flush();
    }
  }
}
