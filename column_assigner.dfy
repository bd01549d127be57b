/**
 * Column assignment: the four ways a read, given by its read group and read length,
 * is mapped to an output column (one column, per library, per read length, per
 * library and read length), how each assigner is built, and the header line.
 */
module ColumnAssignment {
  import opened Wrappers
  import opened Orders
  import opened Decimal
  import opened Text
  import opened Entries

  /** Read group to library, from the @RG lines of the header. */
  type RgToLibMap = map<string, string>

  /** A std::set of read lengths, held as its ascending enumeration. */
  type LengthSet = s: seq<nat> | StrictlySorted(s, NatLess)

  /** Library to the read lengths seen for it; iterated in library-name order. */
  type PerLibReadLengths = map<string, LengthSet>

  /** How many reads are sampled to discover the read lengths. */
  const FirstNReads: nat := 1000000

  const NoReadLengthsError: string := "Unable to determine read lengths by library. Are RG tags missing?"

  datatype ColumnAssigner =
    | SingleColumn(columnNames: seq<string>)
    | PerLength(columnNames: seq<string>, readLens: seq<nat>)
    | PerLib(columnNames: seq<string>, index: map<string, nat>)
    | PerLibAndLength(columnNames: seq<string>, pairIndex: map<(string, nat), nat>)
  {
    /** The output column of a read, or -1 when the read has none. */
    function AssignColumn(rg: Option<string>, readLen: nat): int {
      match this
      case SingleColumn(_) => 0
      case PerLength(_, lens) => IndexOf(lens, readLen)
      case PerLib(_, index) =>
        if rg.Some? && rg.value in index then index[rg.value] else -1
      case PerLibAndLength(_, index) =>
        if rg.Some? && (rg.value, readLen) in index then index[(rg.value, readLen)] else -1
    }

    predicate NeedsReadGroup() {
      PerLib? || PerLibAndLength?
    }

    function NumColumns(): nat {
      |columnNames|
    }

    /** Every column the assigner can hand out names an existing column. */
    ghost predicate ColumnsInRange() {
      match this
      case SingleColumn(names) => |names| >= 1
      case PerLength(names, lens) => |lens| == |names|
      case PerLib(names, index) => forall rg :: rg in index ==> index[rg] < |names|
      case PerLibAndLength(names, index) => forall key :: key in index ==> index[key] < |names|
    }

    lemma AssignColumnInRange(rg: Option<string>, readLen: nat)
      requires ColumnsInRange()
      ensures -1 <= AssignColumn(rg, readLen) < NumColumns()
    {
    }
  }

  const SingleColumnAssigner: ColumnAssigner := SingleColumn(["Counts"])

  /** An assigner that does not need the read group gives the same answer without it. */
  lemma ReadGroupIgnoredUnlessNeeded(ca: ColumnAssigner, rg: Option<string>, readLen: nat)
    requires !ca.NeedsReadGroup()
    ensures ca.AssignColumn(rg, readLen) == ca.AssignColumn(None, readLen)
  {
  }

  /** Every read lands in the single column, whatever its group or length. */
  lemma SingleColumnAssigns(rg: Option<string>, readLen: nat)
    ensures SingleColumnAssigner.AssignColumn(rg, readLen) == 0
    ensures SingleColumnAssigner.NumColumns() == 1 && !SingleColumnAssigner.NeedsReadGroup()
    ensures HeaderLine(SingleColumnAssigner.columnNames) == "Chr\tStart\tCounts\n"
  {
  }

  // ---------------------------------------------------------------- header

  function HeaderLine(names: seq<string>): string {
    "Chr\tStart" + TabFields(names) + "\n"
  }

  /** Writes the header line onto the end of the text written so far. */
  method PrintHeader(ca: ColumnAssigner, os: string) returns (out: string)
    ensures out == os + HeaderLine(ca.columnNames)
  {
    var start := os + "Chr\tStart";
    out := WriteTabFields(start, ca.columnNames);
    out := out + "\n";
    assert out == os + ("Chr\tStart" + TabFields(ca.columnNames) + "\n");
  }

  /** The header line as Chr followed by tab-prefixed fields. */
  lemma HeaderBody(names: seq<string>)
    ensures HeaderLine(names) == "Chr" + TabFields(["Start"] + names) + "\n"
  {
    var fields := ["Start"] + names;
    assert fields[0] == "Start" && fields[1..] == names;
    assert "Chr\tStart" == "Chr" + "\t" + "Start";
  }

  lemma HeaderFieldsTabFree(names: seq<string>)
    requires TabFree(names)
    ensures TabFree(["Start"] + names)
  {
    var fields := ["Start"] + names;
    forall k | 0 <= k < |fields| ensures '\t' !in fields[k] {
      if k > 0 {
        assert fields[k] == names[k - 1];
      }
    }
  }

  /** The header is one line whose tab-separated fields are Chr, Start and the column names. */
  lemma HeaderFields(names: seq<string>)
    requires TabFree(names)
    ensures var h := HeaderLine(names);
            h[|h| - 1] == '\n' && Split(h[..|h| - 1], '\t') == ["Chr", "Start"] + names
  {
    HeaderBody(names);
    HeaderFieldsTabFree(names);
    LineFields("Chr", ["Start"] + names);
    assert ["Chr"] + (["Start"] + names) == ["Chr", "Start"] + names;
  }

  // ---------------------------------------------------------------- per read length

  ghost predicate IsPerLengthFor(ca: ColumnAssigner, lens: set<nat>) {
    && ca.PerLength?
    && StrictlySorted(ca.readLens, NatLess)
    && Elems(ca.readLens) == lens
    && |ca.columnNames| == |ca.readLens|
    && forall k :: 0 <= k < |ca.readLens| ==> ca.columnNames[k] == NatToString(ca.readLens[k])
  }

  /** Builds the sorted set of lengths, then one column named by each length in decimal. */
  method NewPerLength(lens: seq<nat>) returns (ca: ColumnAssigner)
    ensures IsPerLengthFor(ca, Elems(lens))
  {
    NatIsStrictTotalOrder();
    var readLens: seq<nat> := [];
    var i := 0;
    while i < |lens|
      invariant 0 <= i <= |lens|
      invariant StrictlySorted(readLens, NatLess) && Elems(readLens) == Elems(lens[..i])
    {
      InsertSorted(readLens, lens[i], NatLess);
      readLens := Insert(readLens, lens[i], NatLess);
      assert lens[..i + 1] == lens[..i] + [lens[i]];
      i := i + 1;
    }
    assert lens[..i] == lens;
    var names: seq<string> := [];
    var j := 0;
    while j < |readLens|
      invariant 0 <= j <= |readLens| && |names| == j
      invariant forall k :: 0 <= k < j ==> names[k] == NatToString(readLens[k])
    {
      names := names + [NatToString(readLens[j])];
      j := j + 1;
    }
    ca := PerLength(names, readLens);
  }

  /**
   * A length seen while sampling gets the column named after it, at its rank among the
   * lengths; any other length gets -1.
   */
  lemma PerLengthColumns(ca: ColumnAssigner, lens: set<nat>, rg: Option<string>, readLen: nat)
    requires IsPerLengthFor(ca, lens)
    ensures var col := ca.AssignColumn(rg, readLen);
            && (col == -1 <==> readLen !in lens)
            && (readLen in lens ==>
                  && 0 <= col < ca.NumColumns()
                  && ca.columnNames[col] == NatToString(readLen)
                  && col == Rank(lens, readLen, NatLess))
  {
    var col := ca.AssignColumn(rg, readLen);
    if readLen in lens {
      NatIsStrictTotalOrder();
      RankIsPosition(ca.readLens, col, NatLess);
    }
  }

  /** The order and repetitions of the sampled lengths do not matter. */
  lemma PerLengthDeterministic(a: ColumnAssigner, b: ColumnAssigner, lens: set<nat>)
    requires IsPerLengthFor(a, lens) && IsPerLengthFor(b, lens)
    ensures a == b
  {
    NatIsStrictTotalOrder();
    SortedUnique(a.readLens, b.readLens, NatLess);
  }

  // ---------------------------------------------------------------- per library

  ghost predicate IsPerLibFor(ca: ColumnAssigner, rg2lib: RgToLibMap) {
    && ca.PerLib?
    && StrictlySorted(ca.columnNames, LexLess)
    && Elems(ca.columnNames) == rg2lib.Values
    && ca.index.Keys == rg2lib.Keys
    && forall rg :: rg in ca.index ==> ca.index[rg] < |ca.columnNames| && ca.columnNames[ca.index[rg]] == rg2lib[rg]
  }

  /** One column per distinct library, in name order; each read group indexes its library's column. */
  method NewPerLib(rg2lib: RgToLibMap) returns (ca: ColumnAssigner)
    ensures IsPerLibFor(ca, rg2lib)
  {
    var libNames := CollectLibraries(rg2lib);
    var index := IndexLibraries(rg2lib, libNames);
    ca := PerLib(libNames, index);
  }

  /** The first constructor loop: every read group's library, into a sorted set. */
  method CollectLibraries(rg2lib: RgToLibMap) returns (libNames: seq<string>)
    ensures StrictlySorted(libNames, LexLess) && Elems(libNames) == rg2lib.Values
  {
    LexIsStrictTotalOrder();
    libNames := [];
    var rest := rg2lib.Keys;
    while rest != {}
      invariant rest <= rg2lib.Keys
      invariant StrictlySorted(libNames, LexLess)
      invariant Elems(libNames) == set rg | rg in rg2lib.Keys - rest :: rg2lib[rg]
      decreases |rest|
    {
      var rg :| rg in rest;
      InsertSorted(libNames, rg2lib[rg], LexLess);
      libNames := Insert(libNames, rg2lib[rg], LexLess);
      rest := rest - {rg};
    }
  }

  /** The second constructor loop: each read group indexes the position of its library. */
  method IndexLibraries(rg2lib: RgToLibMap, libNames: seq<string>) returns (index: map<string, nat>)
    requires Elems(libNames) == rg2lib.Values
    ensures index.Keys == rg2lib.Keys
    ensures forall rg :: rg in index ==> index[rg] < |libNames| && libNames[index[rg]] == rg2lib[rg]
  {
    index := map[];
    var rest := rg2lib.Keys;
    while rest != {}
      invariant rest <= rg2lib.Keys
      invariant index.Keys == rg2lib.Keys - rest
      invariant forall rg :: rg in index ==> index[rg] < |libNames| && libNames[index[rg]] == rg2lib[rg]
      decreases |rest|
    {
      var rg :| rg in rest;
      assert rg2lib[rg] in rg2lib.Values;
      var offset := IndexOf(libNames, rg2lib[rg]);
      index := index[rg := offset];
      rest := rest - {rg};
    }
  }

  /**
   * A read whose group is known gets its library's column, at the library's rank
   * among all libraries; a read without a group or with an unknown one gets -1.
   */
  lemma PerLibColumns(ca: ColumnAssigner, rg2lib: RgToLibMap, rg: Option<string>, readLen: nat)
    requires IsPerLibFor(ca, rg2lib)
    ensures var col := ca.AssignColumn(rg, readLen);
            && (col == -1 <==> rg.None? || rg.value !in rg2lib)
            && (rg.Some? && rg.value in rg2lib ==>
                  && 0 <= col < ca.NumColumns()
                  && ca.columnNames[col] == rg2lib[rg.value]
                  && col == Rank(rg2lib.Values, rg2lib[rg.value], LexLess))
  {
    if rg.Some? && rg.value in rg2lib {
      var col := ca.index[rg.value];
      LexIsStrictTotalOrder();
      RankIsPosition(ca.columnNames, col, LexLess);
    }
  }

  /** Two known read groups share a column exactly when they belong to the same library. */
  lemma PerLibSameColumnIffSameLib(ca: ColumnAssigner, rg2lib: RgToLibMap, rg1: string, rg2: string, len1: nat, len2: nat)
    requires IsPerLibFor(ca, rg2lib) && rg1 in rg2lib && rg2 in rg2lib
    ensures ca.AssignColumn(Some(rg1), len1) == ca.AssignColumn(Some(rg2), len2) <==> rg2lib[rg1] == rg2lib[rg2]
  {
    var c1, c2 := ca.index[rg1], ca.index[rg2];
    LexIsStrictTotalOrder();
    SortedIndexOf(ca.columnNames, c1, LexLess);
    SortedIndexOf(ca.columnNames, c2, LexLess);
  }

  // ---------------------------------------------------------------- per library and read length

  function ColumnName(lib: string, len: nat): string {
    lib + "." + NatToString(len)
  }

  /** The columns of one library: one per read length, ascending. */
  function Block(lib: string, lens: seq<nat>): (r: seq<string>)
    ensures |r| == |lens|
    ensures forall j :: 0 <= j < |lens| ==> r[j] == ColumnName(lib, lens[j])
  {
    if |lens| == 0 then [] else Block(lib, lens[..|lens| - 1]) + [ColumnName(lib, lens[|lens| - 1])]
  }

  /** The columns of the libraries libs, one block after another. */
  function Layout(libs: seq<string>, readLens: PerLibReadLengths): seq<string>
    requires forall k :: 0 <= k < |libs| ==> libs[k] in readLens
  {
    if |libs| == 0 then [] else Layout(libs[..|libs| - 1], readLens) + Block(libs[|libs| - 1], readLens[libs[|libs| - 1]])
  }

  /** The first column of the k-th library. */
  function LibStart(libs: seq<string>, readLens: PerLibReadLengths, k: nat): nat
    requires k <= |libs| && forall i :: 0 <= i < |libs| ==> libs[i] in readLens
  {
    |Layout(libs[..k], readLens)|
  }

  /** The libraries in the order an ordered map of them is iterated. */
  ghost function LibOrder(readLens: PerLibReadLengths): (libs: seq<string>)
    ensures StrictlySorted(libs, LexLess) && Elems(libs) == readLens.Keys
    ensures forall k :: 0 <= k < |libs| ==> libs[k] in readLens
  {
    LexIsStrictTotalOrder();
    SortedSeq(readLens.Keys, LexLess)
  }

  /** The (read group, length) pairs that have a column. */
  predicate Indexable(rg2lib: RgToLibMap, readLens: PerLibReadLengths, key: (string, nat)) {
    key.0 in rg2lib && rg2lib[key.0] in readLens && key.1 in readLens[rg2lib[key.0]]
  }

  /** The column of an indexable pair: its library's first column plus the rank of its length. */
  ghost function ExpectedColumn(rg2lib: RgToLibMap, readLens: PerLibReadLengths, key: (string, nat)): nat
    requires Indexable(rg2lib, readLens, key)
  {
    var libs := LibOrder(readLens);
    var lib := rg2lib[key.0];
    assert lib in Elems(libs);
    LibStart(libs, readLens, IndexOf(libs, lib)) + IndexOf(readLens[lib], key.1)
  }

  ghost predicate IsPerLibAndLengthFor(ca: ColumnAssigner, rg2lib: RgToLibMap, readLens: PerLibReadLengths) {
    && ca.PerLibAndLength?
    && ca.columnNames == Layout(LibOrder(readLens), readLens)
    && (forall key :: key in ca.pairIndex <==> Indexable(rg2lib, readLens, key))
    && (forall key :: key in ca.pairIndex ==> ca.pairIndex[key] == ExpectedColumn(rg2lib, readLens, key))
  }

  lemma {:induction false} LayoutAt(libs: seq<string>, readLens: PerLibReadLengths, k: nat, j: nat)
    requires forall i :: 0 <= i < |libs| ==> libs[i] in readLens
    requires k < |libs| && j < |readLens[libs[k]]|
    ensures LibStart(libs, readLens, k) + j < |Layout(libs, readLens)|
    ensures Layout(libs, readLens)[LibStart(libs, readLens, k) + j] == ColumnName(libs[k], readLens[libs[k]][j])
  {
    var init := libs[..|libs| - 1];
    assert libs[..|libs| - 1][..k] == libs[..k] by {
      if k < |libs| - 1 {
        assert init[..k] == libs[..k];
      }
    }
    if k < |libs| - 1 {
      assert init[..k] == libs[..k];
      LayoutAt(init, readLens, k, j);
    } else {
      assert libs[..k] == init;
    }
  }

  /** Builds the columns library by library, then the (read group, length) index. */
  method NewPerLibAndLength(rg2lib: RgToLibMap, readLens: PerLibReadLengths) returns (ca: ColumnAssigner)
    ensures IsPerLibAndLengthFor(ca, rg2lib, readLens)
  {
    LexIsStrictTotalOrder();
    NatIsStrictTotalOrder();
    var libs := SortSet(readLens.Keys, LexLess);
    assert libs == LibOrder(readLens);
    var columnNames, libStarts := LayOutColumns(libs, readLens);

    var index: map<(string, nat), nat> := map[];
    var rest := rg2lib.Keys;
    while rest != {}
      invariant rest <= rg2lib.Keys
      invariant IndexedExcept(index, rg2lib, readLens, rest)
      decreases |rest|
    {
      var rg :| rg in rest;
      index := IndexReadGroup(index, rg2lib, readLens, rest, rg, libs, libStarts);
      rest := rest - {rg};
    }
    ca := PerLibAndLength(columnNames, index);
  }

  /** The index holds the pairs of every read group outside rest, with their columns. */
  ghost predicate IndexedExcept(index: map<(string, nat), nat>, rg2lib: RgToLibMap, readLens: PerLibReadLengths, rest: set<string>) {
    && (forall key :: key in index <==> key.0 !in rest && Indexable(rg2lib, readLens, key))
    && (forall key :: key in index ==> index[key] == ExpectedColumn(rg2lib, readLens, key))
  }

  /** One step of the index loop: the pairs of read group rg, when its library has read lengths. */
  method IndexReadGroup(index: map<(string, nat), nat>, rg2lib: RgToLibMap, readLens: PerLibReadLengths,
                        rest: set<string>, rg: string, libs: seq<string>, libStarts: map<string, nat>)
    returns (r: map<(string, nat), nat>)
    requires IndexedExcept(index, rg2lib, readLens, rest) && rg in rest && rest <= rg2lib.Keys
    requires libs == LibOrder(readLens) && libStarts.Keys == Elems(libs)
    requires forall k :: 0 <= k < |libs| ==> libStarts[libs[k]] == LibStart(libs, readLens, k)
    ensures IndexedExcept(r, rg2lib, readLens, rest - {rg})
  {
    var lib := rg2lib[rg];
    if lib in readLens {
      assert lib in Elems(libs);
      ghost var k := IndexOf(libs, lib);
      assert libStarts[lib] == LibStart(libs, readLens, k);
      r := IndexGroup(index, rg, readLens[lib], libStarts[lib]);
      IndexGroupExtends(index, r, rg2lib, readLens, rest, rg, libStarts[lib]);
    } else {
      // the source only warns that the group has no read lengths
      r := index;
      IndexSkipsGroup(index, rg2lib, readLens, rest, rg);
    }
  }

  lemma IndexGroupExtends(index: map<(string, nat), nat>, r: map<(string, nat), nat>, rg2lib: RgToLibMap,
                          readLens: PerLibReadLengths, rest: set<string>, rg: string, start: nat)
    requires IndexedExcept(index, rg2lib, readLens, rest)
    requires rg in rest && rg in rg2lib && rg2lib[rg] in readLens
    requires start == LibStart(LibOrder(readLens), readLens, IndexOf(LibOrder(readLens), rg2lib[rg]))
    requires forall key :: key in r <==> key in index || (key.0 == rg && key.1 in readLens[rg2lib[rg]])
    requires forall key :: key in r ==>
               r[key] == if key.0 == rg && key.1 in readLens[rg2lib[rg]] then start + IndexOf(readLens[rg2lib[rg]], key.1) else index[key]
    ensures IndexedExcept(r, rg2lib, readLens, rest - {rg})
  {
    IndexGroupKeys(index, r, rg2lib, readLens, rest, rg);
    IndexGroupValues(index, r, rg2lib, readLens, rest, rg, start);
  }

  lemma IndexSkipsGroup(index: map<(string, nat), nat>, rg2lib: RgToLibMap, readLens: PerLibReadLengths,
                        rest: set<string>, rg: string)
    requires IndexedExcept(index, rg2lib, readLens, rest)
    requires rg in rg2lib && rg2lib[rg] !in readLens
    ensures IndexedExcept(index, rg2lib, readLens, rest - {rg})
  {
    forall key ensures key in index <==> key.0 !in rest - {rg} && Indexable(rg2lib, readLens, key) {
      if key.0 == rg {
        assert !Indexable(rg2lib, readLens, key);
      }
    }
  }

  lemma IndexGroupKeys(index: map<(string, nat), nat>, r: map<(string, nat), nat>, rg2lib: RgToLibMap,
                       readLens: PerLibReadLengths, rest: set<string>, rg: string)
    requires forall key :: key in index <==> key.0 !in rest && Indexable(rg2lib, readLens, key)
    requires rg in rest && rg in rg2lib && rg2lib[rg] in readLens
    requires forall key :: key in r <==> key in index || (key.0 == rg && key.1 in readLens[rg2lib[rg]])
    ensures forall key :: key in r <==> key.0 !in rest - {rg} && Indexable(rg2lib, readLens, key)
  {
  }

  lemma IndexGroupValues(index: map<(string, nat), nat>, r: map<(string, nat), nat>, rg2lib: RgToLibMap,
                         readLens: PerLibReadLengths, rest: set<string>, rg: string, start: nat)
    requires forall key :: key in index ==> Indexable(rg2lib, readLens, key) && index[key] == ExpectedColumn(rg2lib, readLens, key)
    requires rg in rg2lib && rg2lib[rg] in readLens
    requires start == LibStart(LibOrder(readLens), readLens, IndexOf(LibOrder(readLens), rg2lib[rg]))
    requires forall key :: key in r ==> key in index || (key.0 == rg && key.1 in readLens[rg2lib[rg]])
    requires forall key :: key in r ==>
               r[key] == if key.0 == rg && key.1 in readLens[rg2lib[rg]] then start + IndexOf(readLens[rg2lib[rg]], key.1) else index[key]
    ensures forall key :: key in r ==> r[key] == ExpectedColumn(rg2lib, readLens, key)
  {
    forall key | key in r ensures r[key] == ExpectedColumn(rg2lib, readLens, key) {
      if key.0 == rg && key.1 in readLens[rg2lib[rg]] {
        assert Indexable(rg2lib, readLens, key);
      }
    }
  }

  /** The first loop of the constructor: the column names, and where each library's columns start. */
  method LayOutColumns(libs: seq<string>, readLens: PerLibReadLengths)
    returns (columnNames: seq<string>, libStarts: map<string, nat>)
    requires StrictlySorted(libs, LexLess) && forall k :: 0 <= k < |libs| ==> libs[k] in readLens
    ensures columnNames == Layout(libs, readLens)
    ensures libStarts.Keys == Elems(libs)
    ensures forall k :: 0 <= k < |libs| ==> libStarts[libs[k]] == LibStart(libs, readLens, k)
  {
    LexIsStrictTotalOrder();
    columnNames := [];
    libStarts := map[];
    var i := 0;
    while i < |libs|
      invariant 0 <= i <= |libs|
      invariant columnNames == Layout(libs[..i], readLens)
      invariant libStarts.Keys == Elems(libs[..i])
      invariant forall k :: 0 <= k < i ==> libStarts[libs[k]] == LibStart(libs, readLens, k)
    {
      var lib := libs[i];
      LayoutSnoc(libs, readLens, i);
      StartsSnoc(libs, readLens, i, libStarts);
      libStarts := libStarts[lib := |columnNames|];
      columnNames := AppendBlock(columnNames, lib, readLens[lib]);
      i := i + 1;
    }
    assert libs[..i] == libs;
  }

  /** Recording the start of the i-th library keeps the earlier starts. */
  lemma StartsSnoc(libs: seq<string>, readLens: PerLibReadLengths, i: nat, starts: map<string, nat>)
    requires StrictlySorted(libs, LexLess) && forall k :: 0 <= k < |libs| ==> libs[k] in readLens
    requires i < |libs| && starts.Keys == Elems(libs[..i])
    requires forall k :: 0 <= k < i ==> starts[libs[k]] == LibStart(libs, readLens, k)
    ensures var next := starts[libs[i] := LibStart(libs, readLens, i)];
            && next.Keys == Elems(libs[..i + 1])
            && forall k :: 0 <= k < i + 1 ==> next[libs[k]] == LibStart(libs, readLens, k)
  {
    LexIsStrictTotalOrder();
    ElemsSnoc(libs, i);
    SortedDistinct(libs, i, LexLess);
    var next := starts[libs[i] := LibStart(libs, readLens, i)];
    forall k | 0 <= k < i + 1 ensures next[libs[k]] == LibStart(libs, readLens, k) {
      if k < i {
        assert next[libs[k]] == starts[libs[k]];
      }
    }
  }

  lemma LayoutSnoc(libs: seq<string>, readLens: PerLibReadLengths, i: nat)
    requires forall k :: 0 <= k < |libs| ==> libs[k] in readLens
    requires i < |libs|
    ensures Layout(libs[..i + 1], readLens) == Layout(libs[..i], readLens) + Block(libs[i], readLens[libs[i]])
  {
    assert libs[..i + 1][..i] == libs[..i];
  }

  /** The inner loop of the first constructor loop: one column per length of a library. */
  method AppendBlock(names: seq<string>, lib: string, lens: seq<nat>) returns (r: seq<string>)
    ensures r == names + Block(lib, lens)
  {
    r := names;
    var j := 0;
    while j < |lens|
      invariant 0 <= j <= |lens|
      invariant r == names + Block(lib, lens[..j])
    {
      assert lens[..j + 1][..j] == lens[..j];
      r := r + [ColumnName(lib, lens[j])];
      j := j + 1;
    }
    assert lens[..j] == lens;
  }

  /** The inner loop of the index construction: one entry per length of the group's library. */
  method IndexGroup(index: map<(string, nat), nat>, rg: string, lens: LengthSet, libIdx: nat)
    returns (r: map<(string, nat), nat>)
    ensures forall key :: key in r <==> key in index || (key.0 == rg && key.1 in lens)
    ensures forall key :: key in r ==>
              r[key] == if key.0 == rg && key.1 in lens then libIdx + IndexOf(lens, key.1) else index[key]
  {
    NatIsStrictTotalOrder();
    r := index;
    var j := 0;
    while j < |lens|
      invariant 0 <= j <= |lens|
      invariant forall key :: key in r <==> key in index || (key.0 == rg && key.1 in lens[..j])
      invariant forall key :: key in r ==>
                  r[key] == if key.0 == rg && key.1 in lens[..j] then libIdx + IndexOf(lens, key.1) else index[key]
    {
      SortedIndexOf(lens, j, NatLess);
      assert lens[..j + 1] == lens[..j] + [lens[j]];
      r := r[(rg, lens[j]) := libIdx + j];
      j := j + 1;
    }
    assert lens[..j] == lens;
  }

  /**
   * A read gets a column exactly when its group is known, its group's library has read
   * lengths and its length is among them; that column is named library.length.
   */
  lemma PerLibAndLengthColumns(ca: ColumnAssigner, rg2lib: RgToLibMap, readLens: PerLibReadLengths,
                               rg: Option<string>, readLen: nat)
    requires IsPerLibAndLengthFor(ca, rg2lib, readLens)
    ensures var col := ca.AssignColumn(rg, readLen);
            && (col >= 0 <==> rg.Some? && rg.value in rg2lib && rg2lib[rg.value] in readLens
                              && readLen in readLens[rg2lib[rg.value]])
            && (col >= 0 ==> col < ca.NumColumns() && ca.columnNames[col] == ColumnName(rg2lib[rg.value], readLen))
            && (col < 0 ==> col == -1)
  {
    if rg.Some? && (rg.value, readLen) in ca.pairIndex {
      var key := (rg.value, readLen);
      var libs := LibOrder(readLens);
      var lib := rg2lib[rg.value];
      assert Indexable(rg2lib, readLens, key);
      assert lib in Elems(libs);
      var k := IndexOf(libs, lib);
      var j := IndexOf(readLens[lib], readLen);
      assert ca.pairIndex[key] == LibStart(libs, readLens, k) + j;
      LayoutAt(libs, readLens, k, j);
    } else if rg.Some? {
      assert !Indexable(rg2lib, readLens, (rg.value, readLen));
    }
  }

  lemma PerLibAndLengthInRange(ca: ColumnAssigner, rg2lib: RgToLibMap, readLens: PerLibReadLengths)
    requires IsPerLibAndLengthFor(ca, rg2lib, readLens)
    ensures ca.ColumnsInRange()
  {
    forall key | key in ca.pairIndex ensures ca.pairIndex[key] < |ca.columnNames| {
      PerLibAndLengthColumns(ca, rg2lib, readLens, Some(key.0), key.1);
    }
  }

  /** No two (library, length) pairs share a column name: the name after the last dot is the length. */
  lemma ColumnNameInjective(lib1: string, len1: nat, lib2: string, len2: nat)
    requires ColumnName(lib1, len1) == ColumnName(lib2, len2)
    ensures lib1 == lib2 && len1 == len2
  {
    var s := ColumnName(lib1, len1);
    var d1, d2 := NatToString(len1), NatToString(len2);
    var n := |s|;
    assert s == ColumnName(lib2, len2);
    assert s[n - |d1| - 1] == '.' && s[n - |d2| - 1] == '.';
    assert forall i :: n - |d1| <= i < n ==> s[i] == d1[i - (n - |d1|)];
    assert forall i :: n - |d2| <= i < n ==> s[i] == d2[i - (n - |d2|)];
    assert |d1| == |d2|;
    assert d1 == s[n - |d1|..] == d2;
    assert lib1 == s[..n - |d1| - 1] == lib2;
    NatToStringInjective(len1, len2);
  }

  // ---------------------------------------------------------------- sampling the reads

  /** A sampled read that counts towards its library's lengths. */
  predicate UsableRead(e: Entry, rg2lib: RgToLibMap) {
    e.readGroup.Some? && e.readGroup.value in rg2lib
  }

  /** How many reads the sampling loop looks at. */
  function SampleSize(records: seq<Entry>, maxEntries: nat): nat {
    if maxEntries < |records| then maxEntries else |records|
  }

  ghost function SampledLibs(records: seq<Entry>, rg2lib: RgToLibMap, n: nat): set<string>
    requires n <= |records|
  {
    set i | 0 <= i < n && UsableRead(records[i], rg2lib) :: rg2lib[records[i].readGroup.value]
  }

  ghost function SampledLengths(records: seq<Entry>, rg2lib: RgToLibMap, n: nat, lib: string): set<nat>
    requires n <= |records|
  {
    set i | 0 <= i < n && UsableRead(records[i], rg2lib) && rg2lib[records[i].readGroup.value] == lib :: records[i].length as nat
  }

  /**
   * For the first maxEntries reads, the lengths each library's reads have; reads
   * without a read group or with an unknown one are skipped. Finding no usable read
   * is an error.
   */
  method GetPerLibReadLengths(records: seq<Entry>, rg2lib: RgToLibMap, maxEntries: nat)
    returns (r: Result<PerLibReadLengths, string>)
    ensures var n := SampleSize(records, maxEntries);
            && (r.Failure? <==> SampledLibs(records, rg2lib, n) == {})
            && (r.Failure? ==> r.error == NoReadLengthsError)
            && (r.Success? ==>
                  && r.value.Keys == SampledLibs(records, rg2lib, n)
                  && forall lib :: lib in r.value ==> Elems(r.value[lib]) == SampledLengths(records, rg2lib, n, lib))
  {
    var n := SampleSize(records, maxEntries);
    var lens: PerLibReadLengths := map[];
    var i := 0;
    while i < maxEntries && i < |records|
      invariant 0 <= i <= n
      invariant SampledUpTo(lens, records, rg2lib, i)
    {
      lens := SampleRead(lens, records, rg2lib, i);
      i := i + 1;
    }
    if lens == map[] {
      r := Failure(NoReadLengthsError);
    } else {
      r := Success(lens);
    }
  }

  /** The lengths gathered from the first i reads are exactly those the reads have. */
  ghost predicate SampledUpTo(lens: PerLibReadLengths, records: seq<Entry>, rg2lib: RgToLibMap, i: nat)
    requires i <= |records|
  {
    && lens.Keys == SampledLibs(records, rg2lib, i)
    && forall lib :: lib in lens ==> Elems(lens[lib]) == SampledLengths(records, rg2lib, i, lib)
  }

  /** One step of the sampling loop: the read's length joins its library's set. */
  method SampleRead(lens: PerLibReadLengths, records: seq<Entry>, rg2lib: RgToLibMap, i: nat)
    returns (next: PerLibReadLengths)
    requires i < |records| && SampledUpTo(lens, records, rg2lib, i)
    ensures SampledUpTo(next, records, rg2lib, i + 1)
  {
    NatIsStrictTotalOrder();
    SampleStep(records, rg2lib, i);
    var e := records[i];
    if e.readGroup.Some? && e.readGroup.value in rg2lib {
      var lib := rg2lib[e.readGroup.value];
      var len: nat := e.length;
      var seenLens: seq<nat> := if lib in lens then lens[lib] else [];
      LengthsHaveLib(records, rg2lib, i, lib);
      assert Elems(seenLens) == SampledLengths(records, rg2lib, i, lib);
      InsertSorted(seenLens, len, NatLess);
      next := lens[lib := Insert(seenLens, len, NatLess)];
      assert next.Keys == lens.Keys + {lib};
      forall l | l in next ensures Elems(next[l]) == SampledLengths(records, rg2lib, i + 1, l) {
        if l != lib {
          assert next[l] == lens[l];
        }
      }
    } else {
      next := lens;
    }
  }

  lemma LengthsHaveLib(records: seq<Entry>, rg2lib: RgToLibMap, n: nat, lib: string)
    requires n <= |records|
    ensures SampledLengths(records, rg2lib, n, lib) != {} ==> lib in SampledLibs(records, rg2lib, n)
  {
    if SampledLengths(records, rg2lib, n, lib) != {} {
      var x :| x in SampledLengths(records, rg2lib, n, lib);
      var j :| 0 <= j < n && UsableRead(records[j], rg2lib) && rg2lib[records[j].readGroup.value] == lib
               && records[j].length as nat == x;
      assert rg2lib[records[j].readGroup.value] in SampledLibs(records, rg2lib, n);
    }
  }

  lemma SampleStep(records: seq<Entry>, rg2lib: RgToLibMap, i: nat)
    requires i < |records|
    ensures var e := records[i];
            && SampledLibs(records, rg2lib, i + 1) ==
                 SampledLibs(records, rg2lib, i) + (if UsableRead(e, rg2lib) then {rg2lib[e.readGroup.value]} else {})
            && forall lib :: SampledLengths(records, rg2lib, i + 1, lib) ==
                 SampledLengths(records, rg2lib, i, lib)
                 + (if UsableRead(e, rg2lib) && rg2lib[e.readGroup.value] == lib then {e.length as nat} else {})
  {
  }

  ghost function SampledAllLengths(records: seq<Entry>, n: nat): set<nat>
    requires n <= |records|
  {
    set i | 0 <= i < n :: records[i].length as nat
  }

  /** The distinct lengths of the first maxEntries reads, in no particular order. */
  method GetReadLengths(records: seq<Entry>, maxEntries: nat) returns (lens: seq<nat>)
    ensures Elems(lens) == SampledAllLengths(records, SampleSize(records, maxEntries))
    ensures forall i, j :: 0 <= i < j < |lens| ==> lens[i] != lens[j]
  {
    var seen: set<nat> := {};
    var i := 0;
    while i < maxEntries && i < |records|
      invariant 0 <= i <= SampleSize(records, maxEntries)
      invariant seen == SampledAllLengths(records, i)
    {
      assert SampledAllLengths(records, i + 1) == SampledAllLengths(records, i) + {records[i].length as nat};
      seen := seen + {records[i].length as nat};
      i := i + 1;
    }
    lens := Enumerate(seen);
  }

  /** Copying an unordered set into a vector: each element once, in no particular order. */
  method Enumerate(s: set<nat>) returns (r: seq<nat>)
    ensures Elems(r) == s
    ensures forall i, j :: 0 <= i < j < |r| ==> r[i] != r[j]
  {
    r := [];
    var rest := s;
    while rest != {}
      invariant rest <= s
      invariant Elems(r) == s - rest
      invariant forall i, j :: 0 <= i < j < |r| ==> r[i] != r[j]
      decreases |rest|
    {
      var x :| x in rest;
      assert Elems(r + [x]) == Elems(r) + {x};
      r := r + [x];
      rest := rest - {x};
    }
  }

  /**
   * The factory: per read length and per library together, either one alone, or a
   * single column. Sampling for per-library lengths can fail.
   */
  method MakeColumnAssigner(perReadLen: bool, perLib: bool, rg2lib: RgToLibMap, records: seq<Entry>)
    returns (r: Result<ColumnAssigner, string>)
    ensures perReadLen && perLib ==>
              var sampled := SampledLibs(records, rg2lib, SampleSize(records, FirstNReads));
              && (r.Failure? <==> sampled == {})
              && (r.Failure? ==> r.error == NoReadLengthsError)
              && (r.Success? ==>
                    exists lens: PerLibReadLengths ::
                      && lens.Keys == sampled
                      && (forall lib :: lib in lens ==>
                            Elems(lens[lib]) == SampledLengths(records, rg2lib, SampleSize(records, FirstNReads), lib))
                      && IsPerLibAndLengthFor(r.value, rg2lib, lens))
    ensures perReadLen && !perLib ==>
              r.Success? && IsPerLengthFor(r.value, SampledAllLengths(records, SampleSize(records, FirstNReads)))
    ensures !perReadLen && perLib ==> r.Success? && IsPerLibFor(r.value, rg2lib)
    ensures !perReadLen && !perLib ==> r == Success(SingleColumnAssigner)
    ensures r.Success? ==> r.value.ColumnsInRange()
  {
    if perReadLen {
      if perLib {
        var readLens := GetPerLibReadLengths(records, rg2lib, FirstNReads);
        if readLens.Failure? {
          return Failure(readLens.error);
        }
        var ca := NewPerLibAndLength(rg2lib, readLens.value);
        PerLibAndLengthInRange(ca, rg2lib, readLens.value);
        r := Success(ca);
      } else {
        var readLens := GetReadLengths(records, FirstNReads);
        var ca := NewPerLength(readLens);
        r := Success(ca);
      }
    } else {
      if perLib {
        var ca := NewPerLib(rg2lib);
        r := Success(ca);
      } else {
        r := Success(SingleColumnAssigner);
      }
    }
  }
}
