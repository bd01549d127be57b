/**
 * DefaultRowPrinter: writes each row the table builder hands it as one tab-separated
 * line "seq<TAB>pos<TAB>count...". A row without data is written with a zero for
 * every column, from a string of "\t0" pieces prepared once at construction.
 */
module RowPrinting {
  import opened Decimal
  import opened Text
  import opened Entries
  import opened TableBuilding

  /** The decimal text of each count. */
  function CountFields(counts: Counts): (r: seq<string>)
    ensures |r| == |counts|
  {
    seq(|counts|, i requires 0 <= i < |counts| => NatToString(counts[i]))
  }

  /** One "0" field per column. */
  function ZeroFields(numCols: nat): (r: seq<string>)
    ensures |r| == numCols
  {
    seq(numCols, i => "0")
  }

  /** The line of a row with counts. */
  function RowLine(seqName: string, pos: uint32, counts: Counts): string {
    seqName + "\t" + NatToString(pos) + TabFields(CountFields(counts)) + "\n"
  }

  /** The line of a row without counts, for a table of numCols columns. */
  function EmptyLine(seqName: string, pos: uint32, numCols: nat): string {
    seqName + "\t" + NatToString(pos) + TabFields(ZeroFields(numCols)) + "\n"
  }

  /** The text the printer writes for one row it receives. */
  function RenderRow(p: PrintedRow, numCols: nat): string {
    match p
    case EmptyRow(seqName, pos) => EmptyLine(seqName, pos, numCols)
    case DataRow(seqName, pos, counts) => RowLine(seqName, pos, counts)
  }

  /** The text of a sequence of rows, in order. */
  function RenderRows(ps: seq<PrintedRow>, numCols: nat): string {
    if |ps| == 0 then "" else RenderRows(ps[..|ps| - 1], numCols) + RenderRow(ps[|ps| - 1], numCols)
  }

  /** A count row of zeros: the row a buffered row starts as. */
  function Zeros(numCols: nat): (r: Counts)
    ensures |r| == numCols && forall c :: 0 <= c < numCols ==> r[c] == 0
  {
    seq(numCols, c => 0)
  }

  /** An empty row is printed exactly as a row of zeros, one per column. */
  lemma EmptyLineIsZeroRow(seqName: string, pos: uint32, numCols: nat)
    ensures EmptyLine(seqName, pos, numCols) == RowLine(seqName, pos, Zeros(numCols))
  {
    assert CountFields(Zeros(numCols)) == ZeroFields(numCols) by {
      forall i | 0 <= i < numCols ensures CountFields(Zeros(numCols))[i] == "0" {
        assert Zeros(numCols)[i] == 0;
      }
    }
  }

  /** The true counts of a row: the accepted reads covering it, per column. */
  ghost function TrueCounts(hits: seq<Hit>, row: nat, numCols: nat): (r: Counts)
    ensures |r| == numCols && forall c :: 0 <= c < numCols ==> r[c] == Count(hits, row, c)
  {
    seq(numCols, c requires 0 <= c => Count(hits, row, c))
  }

  /**
   * Whatever the builder hands over for a row, data or empty, the printed line shows
   * the row's true counts.
   */
  lemma RenderedCounts(p: PrintedRow, row: nat, hits: seq<Hit>, numCols: nat)
    requires RowMatches(p, row, hits, numCols)
    ensures RenderRow(p, numCols) == RowLine(p.seqName, p.pos, TrueCounts(hits, row, numCols))
  {
    var t := TrueCounts(hits, row, numCols);
    if p.EmptyRow? {
      forall c | 0 <= c < numCols ensures t[c] == Zeros(numCols)[c] {
        UntouchedIsZero(hits, row, c);
      }
      assert t == Zeros(numCols);
      EmptyLineIsZeroRow(p.seqName, p.pos, numCols);
    } else {
      assert p.counts == t;
    }
  }

  /** The lines of the first |ps| rows, each showing its row's true counts. */
  ghost function TrueLines(ps: seq<PrintedRow>, hits: seq<Hit>, numCols: nat): string {
    if |ps| == 0 then ""
    else
      var p := ps[|ps| - 1];
      TrueLines(ps[..|ps| - 1], hits, numCols) + RowLine(p.seqName, p.pos, TrueCounts(hits, |ps| - 1, numCols))
  }

  /** The printed text of a log the builder keeps shows every row's true counts. */
  lemma {:induction false} RenderedTable(ps: seq<PrintedRow>, hits: seq<Hit>, numCols: nat)
    requires PrintedCount(ps, hits, numCols)
    ensures RenderRows(ps, numCols) == TrueLines(ps, hits, numCols)
  {
    if |ps| > 0 {
      var init := ps[..|ps| - 1];
      assert PrintedCount(init, hits, numCols) by {
        forall k | 0 <= k < |init| ensures RowMatches(init[k], k, hits, numCols) {
          assert init[k] == ps[k];
        }
      }
      RenderedTable(init, hits, numCols);
      RenderedCounts(ps[|ps| - 1], |ps| - 1, hits, numCols);
    }
  }

  lemma DigitsTabFree(fields: seq<string>)
    requires forall k :: 0 <= k < |fields| ==> AllDigits(fields[k])
    ensures TabFree(fields)
  {
    forall k | 0 <= k < |fields| ensures '\t' !in fields[k] {
      assert forall i :: 0 <= i < |fields[k]| ==> fields[k][i] != '\t';
    }
  }

  /**
   * A row line read back: with a tab-free sequence name it splits into the name, the
   * position and the counts, each field reading back as the number written.
   */
  lemma RowLineParses(seqName: string, pos: uint32, counts: Counts)
    requires '\t' !in seqName
    ensures var line := RowLine(seqName, pos, counts);
            var fields := Split(line[..|line| - 1], '\t');
            && line[|line| - 1] == '\n'
            && |fields| == |counts| + 2 && fields[0] == seqName
            && AllDigits(fields[1]) && ParseNat(fields[1]) == pos
            && forall c :: 0 <= c < |counts| ==> AllDigits(fields[c + 2]) && ParseNat(fields[c + 2]) == counts[c]
  {
    var cs := CountFields(counts);
    var fs := [NatToString(pos)] + cs;
    assert RowLine(seqName, pos, counts) == seqName + TabFields(fs) + "\n";
    DigitsTabFree(fs);
    LineFields(seqName, fs);
    ParseNatToString(pos);
    forall c | 0 <= c < |counts| ensures ParseNat(cs[c]) == counts[c] {
      ParseNatToString(counts[c]);
    }
  }

  /** The printer: the text written so far to its stream, and the prepared empty values. */
  class DefaultRowPrinter {
    var out: string
    const numCols: nat
    const emptyValueStr: string

    ghost predicate Valid()
      reads this
    {
      emptyValueStr == TabFields(ZeroFields(numCols))
    }

    /** Prepares one "\t0" per column of the assigner. */
    constructor (os: string, numCols: nat)
      ensures Valid() && this.numCols == numCols && out == os
    {
      var s := "";
      var i := 0;
      while i < numCols
        invariant 0 <= i <= numCols
        invariant s == TabFields(ZeroFields(i))
      {
        TabFieldsSnoc(ZeroFields(i), "0");
        assert ZeroFields(i + 1) == ZeroFields(i) + ["0"];
        s := s + "\t0";
        i := i + 1;
      }
      this.numCols := numCols;
      emptyValueStr := s;
      out := os;
    }

    /** Writes a row without counts. */
    method PrintEmpty(seqName: string, pos: uint32)
      requires Valid()
      modifies this`out
      ensures out == old(out) + EmptyLine(seqName, pos, numCols)
    {
      out := out + seqName + "\t" + NatToString(pos) + emptyValueStr + "\n";
    }

    /** Writes a row with its counts, each after a tab. */
    method PrintCounts(seqName: string, pos: uint32, counts: Counts)
      modifies this`out
      ensures out == old(out) + RowLine(seqName, pos, counts)
    {
      var line := seqName + "\t" + NatToString(pos);
      var i := 0;
      while i < |counts|
        invariant 0 <= i <= |counts|
        invariant line == seqName + "\t" + NatToString(pos) + TabFields(CountFields(counts)[..i])
        invariant out == old(out)
      {
        TabFieldsSnoc(CountFields(counts)[..i], NatToString(counts[i]));
        assert CountFields(counts)[..i + 1] == CountFields(counts)[..i] + [NatToString(counts[i])];
        line := line + "\t" + NatToString(counts[i]);
        i := i + 1;
      }
      assert CountFields(counts)[..i] == CountFields(counts);
      assert line + "\n" == RowLine(seqName, pos, counts);
      out := out + (line + "\n");
    }

    /** Writes one row as the builder hands it over. */
    method Print(p: PrintedRow)
      requires Valid()
      modifies this`out
      ensures out == old(out) + RenderRow(p, numCols)
    {
      match p
      case EmptyRow(seqName, pos) => PrintEmpty(seqName, pos);
      case DataRow(seqName, pos, counts) => PrintCounts(seqName, pos, counts);
    }
  }
}
