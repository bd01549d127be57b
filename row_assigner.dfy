/**
 * RowAssigner: the mapping from 0-based reference positions to output rows
 * (windows of winSize bases).
 */
module RowAssignment {
  import opened Entries

  /** The window w covers the positions [w * winSize, (w + 1) * winSize). */
  predicate InWindow(w: nat, pos: nat, winSize: nat) {
    w * winSize <= pos < w * winSize + winSize
  }

  lemma DivIsWindow(pos: nat, winSize: nat)
    requires winSize >= 1
    ensures InWindow(pos / winSize, pos, winSize)
    ensures 0 <= pos / winSize <= pos
  {
  }

  lemma DivMonotone(p: nat, q: nat, winSize: nat)
    requires winSize >= 1 && p <= q
    ensures p / winSize <= q / winSize
  {
    var a, b := p / winSize, q / winSize;
    DivIsWindow(p, winSize);
    DivIsWindow(q, winSize);
    assert (b + 1) * winSize == b * winSize + winSize;
    MulLess(a, b + 1, winSize);
  }

  /** uint32 increment and decrement. */
  function Inc32(x: uint32): uint32 {
    (x + 1) % U32
  }

  function Dec32(x: uint32): uint32 {
    (x - 1 + U32) % U32
  }

  /** The end of a span, moved one base on when the span is empty. */
  function Bump(firstPos: uint32, lastPos: uint32): uint32 {
    if lastPos == firstPos then Inc32(lastPos) else lastPos
  }

  lemma SpanRows(firstPos: uint32, lastPos: uint32, winSize: nat)
    requires winSize >= 1 && firstPos <= lastPos
    ensures var lastRow := Dec32(Bump(firstPos, lastPos)) / winSize;
            0 <= lastRow < U32 && InWindow(lastRow, LastCovered(firstPos, lastPos), winSize) && firstPos / winSize <= lastRow
  {
    BumpedEnd(firstPos, lastPos);
    DivIsWindow(LastCovered(firstPos, lastPos), winSize);
    DivMonotone(firstPos, LastCovered(firstPos, lastPos), winSize);
  }

  /** Bumping an empty span [x, x) and then stepping back lands on x, even at the top of the uint32 range. */
  lemma BumpedEnd(firstPos: uint32, lastPos: uint32)
    requires firstPos <= lastPos
    ensures Dec32(Bump(firstPos, lastPos)) == LastCovered(firstPos, lastPos)
  {
  }

  /** Multiplication by a positive window size preserves and reflects strict order. */
  lemma MulLess(a: nat, b: nat, k: nat)
    requires k >= 1
    ensures a * k < b * k <==> a < b
  {
    if a < b {
      assert b * k == a * k + (b - a) * k;
    } else {
      assert a * k == b * k + (a - b) * k;
    }
  }

  lemma ModIdentity(p: nat)
    ensures p < U32 ==> p % U32 == p
  {
  }

  /** Every position lies in exactly one window. */
  lemma WindowUnique(a: nat, b: nat, pos: nat, winSize: nat)
    requires winSize >= 1 && InWindow(a, pos, winSize) && InWindow(b, pos, winSize)
    ensures a == b
  {
    MulLess(a, b + 1, winSize);
    MulLess(b, a + 1, winSize);
  }

  /** The number of windows the constructor computes, with the uint32 wrap-around written out. */
  function NumWinsFor(seqLen: uint32, winSize: uint32): uint32 {
    if winSize == 0 then 0 else Inc32(Dec32(seqLen) / winSize)
  }

  /** The coordinate whose window ends a span: the last covered base, or the start of an empty [x, x) span. */
  function LastCovered(firstPos: nat, lastPos: nat): nat
    requires firstPos <= lastPos
  {
    if lastPos == firstPos then firstPos else lastPos - 1
  }

  class RowAssigner {
    const seqLen: uint32
    const winSize: uint32
    const numWins: uint32 := NumWinsFor(seqLen, winSize)
    var startOnly: bool

    predicate Valid() {
      winSize >= 1
    }

    constructor (seqLen: uint32, winSize: uint32)
      requires winSize >= 1
      ensures Valid()
      ensures this.seqLen == seqLen && this.winSize == winSize
      ensures !startOnly
    {
      this.seqLen := seqLen;
      this.winSize := winSize;
      this.startOnly := false;
    }

    method SetStartOnly(value: bool)
      modifies this`startOnly
      ensures startOnly == value
    {
      startOnly := value;
    }

    /**
     * The rows an interval [firstPos, lastPos) applies to: the window holding its start
     * and, unless only start positions count, the window holding its last base.
     */
    function RowRange(firstPos: uint32, lastPos: uint32): (r: (uint32, uint32))
      requires Valid() && firstPos <= lastPos
      reads this
      ensures InWindow(r.0, firstPos, winSize)
      ensures startOnly ==> r.1 == r.0
      ensures !startOnly ==> InWindow(r.1, LastCovered(firstPos, lastPos), winSize)
      ensures r.0 <= r.1
    {
      var firstRow := firstPos / winSize;
      DivIsWindow(firstPos, winSize);
      if startOnly then
        (firstRow, firstRow)
      else
        var lastRow := Dec32(Bump(firstPos, lastPos)) / winSize;
        SpanRows(firstPos, lastPos, winSize);
        (firstRow, lastRow)
    }

    /**
     * The template overload that reads the positions through an entry: when only start
     * positions count it returns before reading, and so before checking, the end.
     */
    function RowRangeOf(e: Entry): (r: (uint32, uint32))
      requires Valid() && (startOnly || e.firstPos <= e.lastPos)
      reads this
      ensures InWindow(r.0, e.firstPos, winSize)
      ensures startOnly ==> r.1 == r.0
      ensures !startOnly ==> r == RowRange(e.firstPos, e.lastPos)
    {
      DivIsWindow(e.firstPos, winSize);
      if startOnly then (e.firstPos / winSize, e.firstPos / winSize) else RowRange(e.firstPos, e.lastPos)
    }

    /** The first position of a window, as a uint32 product. */
    function StartPosForWinIndex(idx: uint32): (r: uint32)
      requires Valid()
      ensures idx < numWins && 1 <= seqLen ==> r == idx * winSize && r < seqLen
    {
      var p := idx * winSize;
      StartPosBelowSeqLen(idx);
      ModIdentity(p);
      p % U32
    }

    lemma StartPosBelowSeqLen(idx: nat)
      requires Valid()
      ensures idx < numWins && 1 <= seqLen ==> idx * winSize < seqLen
    {
      if idx < numWins && 1 <= seqLen {
        NumWinsBounds();
        if idx < numWins - 1 {
          MulLess(idx, numWins - 1, winSize);
        }
      }
    }

    /** For a non-empty sequence the windows cover it exactly: the last one holds its last base. */
    lemma NumWinsBounds()
      requires Valid() && 1 <= seqLen
      ensures 1 <= numWins <= seqLen
      ensures InWindow(numWins - 1, seqLen - 1, winSize)
      ensures (numWins - 1) * winSize < seqLen <= numWins * winSize
    {
      assert Dec32(seqLen) == seqLen - 1;
      var q := (seqLen - 1) / winSize;
      DivIsWindow(seqLen - 1, winSize);
      assert Inc32(q) == q + 1;
      assert numWins == q + 1;
      assert (q + 1) * winSize == q * winSize + winSize;
    }

    /**
     * In span mode a window belongs to the row range exactly when it shares a base with
     * the interval (an empty interval [x, x) counts as the base at x).
     */
    lemma RowRangeIsOverlap(firstPos: uint32, lastPos: uint32, w: nat)
      requires Valid() && firstPos <= lastPos && !startOnly
      ensures var r := RowRange(firstPos, lastPos);
              r.0 <= w <= r.1 <==>
              w * winSize <= LastCovered(firstPos, lastPos) && firstPos < w * winSize + winSize
    {
      var r := RowRange(firstPos, lastPos);
      var a, b := r.0, r.1;
      MulLess(w, b + 1, winSize);
      MulLess(a, w + 1, winSize);
      MulLess(b, w, winSize);
      MulLess(w, a, winSize);
      assert (w + 1) * winSize == w * winSize + winSize;
      assert (b + 1) * winSize == b * winSize + winSize;
    }

    /** In start-only mode the row range is the single window holding the start. */
    lemma StartOnlyRowIsStartWindow(firstPos: uint32, lastPos: uint32, w: nat)
      requires Valid() && firstPos <= lastPos && startOnly
      ensures var r := RowRange(firstPos, lastPos);
              r.0 <= w <= r.1 <==> InWindow(w, firstPos, winSize)
    {
      var r := RowRange(firstPos, lastPos);
      if InWindow(w, firstPos, winSize) {
        WindowUnique(w, r.0, firstPos, winSize);
      }
    }
  }

  /** The window counts of the unit tests. */
  lemma NumWinsExamples()
    ensures NumWinsFor(10, 1) == 10
    ensures NumWinsFor(10, 3) == 4
    ensures NumWinsFor(11, 2) == 6
  {
  }

  /** The spans of the unit tests, with a sequence of 20 bases split into windows of 9. */
  lemma RowRangeExamples(ra: RowAssigner)
    requires ra.Valid() && ra.winSize == 9
    ensures !ra.startOnly ==>
      && ra.RowRange(0, 9) == (0, 0) && ra.RowRange(0, 10) == (0, 1)
      && ra.RowRange(8, 9) == (0, 0) && ra.RowRange(8, 10) == (0, 1)
      && ra.RowRange(9, 10) == (1, 1) && ra.RowRange(17, 19) == (1, 2)
      && ra.RowRange(0, 0) == (0, 0) && ra.RowRange(9, 9) == (1, 1)
    ensures ra.startOnly ==>
      && ra.RowRange(0, 8) == (0, 0) && ra.RowRange(0, 9) == (0, 0)
      && ra.RowRange(8, 8) == (0, 0) && ra.RowRange(8, 9) == (0, 0)
      && ra.RowRange(9, 9) == (1, 1) && ra.RowRange(17, 18) == (1, 1)
    ensures ra.seqLen == 20 ==>
      ra.StartPosForWinIndex(0) == 0 && ra.StartPosForWinIndex(1) == 9 && ra.StartPosForWinIndex(2) == 18
  {
  }
}
