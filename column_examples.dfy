/**
 * The column assigners on the inputs of the repository's column-assigner tests: which
 * columns they build, in which order, and where each read goes.
 */
module ColumnExamples {
  import opened Wrappers
  import opened Orders
  import opened Decimal
  import opened Text
  import opened ColumnAssignment

  const TestRgToLib: RgToLibMap := map["rg1" := "lib1", "rg2" := "lib1", "rg3" := "lib2", "rg4" := "lib3"]

  /** Per read length with lengths 20 and 10: columns "10" and "20", nothing for other lengths. */
  lemma PerLengthExample(ca: ColumnAssigner, rg: Option<string>, len: nat)
    requires IsPerLengthFor(ca, {20, 10})
    ensures ca.columnNames == ["10", "20"]
    ensures ca.AssignColumn(rg, 10) == 0 && ca.AssignColumn(rg, 20) == 1
    ensures len != 10 && len != 20 ==> ca.AssignColumn(rg, len) == -1
    ensures HeaderLine(ca.columnNames) == "Chr\tStart\t10\t20\n"
  {
    NatIsStrictTotalOrder();
    var lens: seq<nat> := [10, 20];
    assert StrictlySorted(lens, NatLess) by {
      assert NatLess(lens[0], lens[1]);
    }
    assert Elems(lens) == {20, 10};
    SortedUnique(ca.readLens, lens, NatLess);
    assert NatToString(10) == "10" && NatToString(20) == "20";
    assert ca.columnNames == ["10", "20"];
    assert TabFields(["10", "20"]) == "\t10\t20" by {
      assert ["10", "20"][1..] == ["20"] && ["20"][1..] == [];
    }
  }

  const TestLibNames: seq<string> := ["lib1", "lib2", "lib3"]

  lemma TestLibraries()
    ensures TestRgToLib.Values == Elems(TestLibNames)
    ensures StrictlySorted(TestLibNames, LexLess)
  {
    assert LexLess("lib1", "lib2") && LexLess("lib2", "lib3") && LexLess("lib1", "lib3");
    assert TestRgToLib.Keys == {"rg1", "rg2", "rg3", "rg4"};
    forall v | v in TestRgToLib.Values ensures v in {"lib1", "lib2", "lib3"} {
      var rg :| rg in TestRgToLib && TestRgToLib[rg] == v;
    }
    assert TestRgToLib["rg1"] == "lib1" && TestRgToLib["rg3"] == "lib2" && TestRgToLib["rg4"] == "lib3";
  }

  /** Per library: one column per library, in name order. */
  lemma PerLibColumnsExample(ca: ColumnAssigner)
    requires IsPerLibFor(ca, TestRgToLib)
    ensures ca.columnNames == ["lib1", "lib2", "lib3"]
  {
    LexIsStrictTotalOrder();
    TestLibraries();
    SortedUnique(ca.columnNames, TestLibNames, LexLess);
  }

  /** The header of the per-library assigner of the tests. */
  lemma LibHeader()
    ensures HeaderLine(["lib1", "lib2", "lib3"]) == "Chr\tStart\tlib1\tlib2\tlib3\n"
  {
    var names := ["lib1", "lib2", "lib3"];
    assert names[1..] == ["lib2", "lib3"] && names[1..][1..] == ["lib3"] && names[1..][1..][1..] == [];
  }

  /** Per library: a known read group gets the position of its library among the names. */
  lemma PerLibColumnOf(ca: ColumnAssigner, rg: string, k: nat, len: nat)
    requires IsPerLibFor(ca, TestRgToLib)
    requires rg in TestRgToLib && k < 3 && TestLibNames[k] == TestRgToLib[rg]
    ensures ca.AssignColumn(Some(rg), len) == k
  {
    PerLibColumnsExample(ca);
    TestLibraries();
    LexIsStrictTotalOrder();
    SortedIndexOf(TestLibNames, ca.index[rg], LexLess);
    SortedIndexOf(TestLibNames, k, LexLess);
  }

  /** Per library: read groups of the same library share a column; the read length plays no part. */
  lemma PerLibAssignExample(ca: ColumnAssigner, len: nat)
    requires IsPerLibFor(ca, TestRgToLib)
    ensures ca.AssignColumn(Some("rg1"), len) == 0 && ca.AssignColumn(Some("rg2"), len) == 0
    ensures ca.AssignColumn(Some("rg3"), len) == 1 && ca.AssignColumn(Some("rg4"), len) == 2
  {
    TestMaps();
    PerLibColumnOf(ca, "rg1", 0, len);
    PerLibColumnOf(ca, "rg2", 0, len);
    PerLibColumnOf(ca, "rg3", 1, len);
    PerLibColumnOf(ca, "rg4", 2, len);
  }

  /** Per library: an unknown read group has no column. */
  lemma PerLibUnknownGroup(ca: ColumnAssigner, len: nat)
    requires IsPerLibFor(ca, TestRgToLib)
    ensures ca.AssignColumn(Some("unknown_rg"), len) == -1
  {
    TestMaps();
    assert "unknown_rg" !in ca.index;
  }

  const TestReadLens: PerLibReadLengths := map["lib1" := [36, 75], "lib2" := [75, 100], "lib3" := [150, 250]]

  lemma TestLibOrder()
    ensures LibOrder(TestReadLens) == TestLibNames
  {
    LexIsStrictTotalOrder();
    TestLibraries();
    assert TestReadLens.Keys == Elems(TestLibNames);
    SortedUnique(LibOrder(TestReadLens), TestLibNames, LexLess);
  }

  lemma Block2(lib: string, lens: seq<nat>)
    requires |lens| == 2
    ensures Block(lib, lens) == [ColumnName(lib, lens[0]), ColumnName(lib, lens[1])]
  {
  }

  lemma Layout1(libs: seq<string>, readLens: PerLibReadLengths)
    requires |libs| >= 1 && forall k :: 0 <= k < |libs| ==> libs[k] in readLens
    ensures Layout(libs[..1], readLens) == Block(libs[0], readLens[libs[0]])
  {
    LayoutSnoc(libs, readLens, 0);
    assert libs[..0] == [];
  }

  lemma Layout2(libs: seq<string>, readLens: PerLibReadLengths)
    requires |libs| >= 2 && forall k :: 0 <= k < |libs| ==> libs[k] in readLens
    ensures Layout(libs[..2], readLens) == Block(libs[0], readLens[libs[0]]) + Block(libs[1], readLens[libs[1]])
  {
    Layout1(libs, readLens);
    LayoutSnoc(libs, readLens, 1);
  }

  /** The layout of three libraries, block after block. */
  lemma Layout3(libs: seq<string>, readLens: PerLibReadLengths)
    requires |libs| == 3 && forall k :: 0 <= k < 3 ==> libs[k] in readLens
    ensures Layout(libs, readLens) == Block(libs[0], readLens[libs[0]]) + Block(libs[1], readLens[libs[1]]) + Block(libs[2], readLens[libs[2]])
  {
    Layout2(libs, readLens);
    LayoutSnoc(libs, readLens, 2);
    assert libs[..3] == libs;
  }

  lemma TestLengthNames()
    ensures NatToString(36) == "36" && NatToString(75) == "75" && NatToString(100) == "100"
    ensures NatToString(150) == "150" && NatToString(250) == "250"
  {
  }

  lemma TestBlock1()
    ensures "lib1" in TestReadLens && Block("lib1", TestReadLens["lib1"]) == ["lib1.36", "lib1.75"]
  {
    TestLengthNames();
    Block2("lib1", [36, 75]);
    assert "lib1" + "." + "36" == "lib1.36" && "lib1" + "." + "75" == "lib1.75";
  }

  lemma TestBlock2()
    ensures "lib2" in TestReadLens && Block("lib2", TestReadLens["lib2"]) == ["lib2.75", "lib2.100"]
  {
    TestLengthNames();
    Block2("lib2", [75, 100]);
    assert "lib2" + "." + "75" == "lib2.75" && "lib2" + "." + "100" == "lib2.100";
  }

  lemma TestBlock3()
    ensures "lib3" in TestReadLens && Block("lib3", TestReadLens["lib3"]) == ["lib3.150", "lib3.250"]
  {
    TestLengthNames();
    Block2("lib3", [150, 250]);
    assert "lib3" + "." + "150" == "lib3.150" && "lib3" + "." + "250" == "lib3.250";
  }

  lemma TestLayout()
    ensures Layout(TestLibNames, TestReadLens) == ["lib1.36", "lib1.75", "lib2.75", "lib2.100", "lib3.150", "lib3.250"]
  {
    TestBlock1();
    TestBlock2();
    TestBlock3();
    var libs := TestLibNames;
    assert libs[0] == "lib1" && libs[1] == "lib2" && libs[2] == "lib3";
    Layout3(libs, TestReadLens);
  }

  /** Per library and length: the libraries in name order, each with its lengths ascending. */
  lemma PerLibAndLengthColumnsExample(ca: ColumnAssigner)
    requires IsPerLibAndLengthFor(ca, TestRgToLib, TestReadLens)
    ensures ca.columnNames == ["lib1.36", "lib1.75", "lib2.75", "lib2.100", "lib3.150", "lib3.250"]
  {
    TestLibOrder();
    TestLayout();
  }

  lemma TestLibStarts()
    ensures LibStart(TestLibNames, TestReadLens, 0) == 0
    ensures LibStart(TestLibNames, TestReadLens, 1) == 2
    ensures LibStart(TestLibNames, TestReadLens, 2) == 4
  {
    var libs := TestLibNames;
    assert libs[..0] == [] && libs[..1] == ["lib1"] && libs[..2] == ["lib1", "lib2"];
    assert libs[..1][..0] == [] && libs[..2][..1] == ["lib1"];
  }

  /** The column of an indexable pair of the library-and-length test. */
  lemma TestPairColumn(ca: ColumnAssigner, rg: string, len: nat, k: nat, j: nat)
    requires IsPerLibAndLengthFor(ca, TestRgToLib, TestReadLens)
    requires rg in TestRgToLib && k < 3 && TestLibNames[k] == TestRgToLib[rg]
    requires j < |TestReadLens[TestLibNames[k]]| && TestReadLens[TestLibNames[k]][j] == len
    ensures ca.AssignColumn(Some(rg), len) == 2 * k + j
  {
    assert Indexable(TestRgToLib, TestReadLens, (rg, len));
    TestLibIndex(k);
    TestLengthIndex(k, j);
  }

  /** Where the k-th library of the test sits among the libraries and the columns. */
  lemma TestLibIndex(k: nat)
    requires k < 3
    ensures IndexOf(LibOrder(TestReadLens), TestLibNames[k]) == k
    ensures LibStart(LibOrder(TestReadLens), TestReadLens, k) == 2 * k
  {
    TestLibOrder();
    TestLibraries();
    LexIsStrictTotalOrder();
    SortedIndexOf(TestLibNames, k, LexLess);
    TestLibStarts();
  }

  lemma TestLengthIndex(k: nat, j: nat)
    requires k < 3 && TestLibNames[k] in TestReadLens && j < |TestReadLens[TestLibNames[k]]|
    ensures IndexOf(TestReadLens[TestLibNames[k]], TestReadLens[TestLibNames[k]][j]) == j
  {
    var lens := TestReadLens[TestLibNames[k]];
    assert StrictlySorted(lens, NatLess);
    NatIsStrictTotalOrder();
    SortedIndexOf(lens, j, NatLess);
  }

  /** A pair whose library lacks the length has no column. */
  lemma TestNoColumn(ca: ColumnAssigner, rg: string, len: nat)
    requires IsPerLibAndLengthFor(ca, TestRgToLib, TestReadLens)
    ensures (rg in TestRgToLib ==> len !in TestReadLens[TestRgToLib[rg]]) ==> ca.AssignColumn(Some(rg), len) == -1
  {
    if rg in TestRgToLib ==> len !in TestReadLens[TestRgToLib[rg]] {
      assert !Indexable(TestRgToLib, TestReadLens, (rg, len));
    }
  }

  lemma TestMaps()
    ensures "rg1" in TestRgToLib && "rg2" in TestRgToLib && "rg3" in TestRgToLib && "rg4" in TestRgToLib
    ensures TestRgToLib["rg1"] == TestLibNames[0] && TestRgToLib["rg2"] == TestLibNames[0]
    ensures TestRgToLib["rg3"] == TestLibNames[1] && TestRgToLib["rg4"] == TestLibNames[2]
    ensures TestReadLens[TestLibNames[0]] == [36, 75] && TestReadLens[TestLibNames[1]] == [75, 100]
    ensures TestReadLens[TestLibNames[2]] == [150, 250]
    ensures TestRgToLib.Keys == {"rg1", "rg2", "rg3", "rg4"}
  {
  }

  /** The read groups of the library-and-length test and the index of their library. */
  predicate TestGroup(rg: string, k: nat) {
    || ((rg == "rg1" || rg == "rg2") && k == 0)
    || (rg == "rg3" && k == 1)
    || (rg == "rg4" && k == 2)
  }

  lemma TestGroupLib(rg: string, k: nat)
    requires TestGroup(rg, k)
    ensures k < 3 && rg in TestRgToLib && TestRgToLib[rg] == TestLibNames[k]
    ensures |TestReadLens[TestLibNames[k]]| == 2
  {
  }

  lemma TestLens()
    ensures TestReadLens[TestLibNames[0]] == [36, 75] && TestReadLens[TestLibNames[1]] == [75, 100]
    ensures TestReadLens[TestLibNames[2]] == [150, 250]
  {
  }

  /** The two columns of a read group: its library's block, one column per length. */
  lemma GroupColumns(ca: ColumnAssigner, rg: string, k: nat)
    requires IsPerLibAndLengthFor(ca, TestRgToLib, TestReadLens) && TestGroup(rg, k)
    ensures ca.AssignColumn(Some(rg), TestReadLens[TestLibNames[k]][0]) == 2 * k
    ensures ca.AssignColumn(Some(rg), TestReadLens[TestLibNames[k]][1]) == 2 * k + 1
  {
    TestGroupLib(rg, k);
    TestPairColumn(ca, rg, TestReadLens[TestLibNames[k]][0], k, 0);
    TestPairColumn(ca, rg, TestReadLens[TestLibNames[k]][1], k, 1);
  }

  /** A length its group's library lacks has no column. */
  lemma GroupRejects(ca: ColumnAssigner, rg: string, k: nat, len: nat)
    requires IsPerLibAndLengthFor(ca, TestRgToLib, TestReadLens) && TestGroup(rg, k)
    requires len !in TestReadLens[TestLibNames[k]]
    ensures ca.AssignColumn(Some(rg), len) == -1
  {
    TestGroupLib(rg, k);
    TestNoColumn(ca, rg, len);
  }

  /** Per library and length: both read groups of lib1 share its two columns, and 100 has none. */
  lemma PerLibAndLengthAssignExample(ca: ColumnAssigner, rg: string)
    requires IsPerLibAndLengthFor(ca, TestRgToLib, TestReadLens)
    requires rg == "rg1" || rg == "rg2"
    ensures ca.AssignColumn(Some(rg), 36) == 0 && ca.AssignColumn(Some(rg), 75) == 1
    ensures ca.AssignColumn(Some(rg), 100) == -1
  {
    TestLens();
    GroupColumns(ca, rg, 0);
    GroupRejects(ca, rg, 0, 100);
  }

  /** Per library and length: lib2's columns follow lib1's, and 36 has none. */
  lemma PerLibAndLengthAssignLib2Example(ca: ColumnAssigner)
    requires IsPerLibAndLengthFor(ca, TestRgToLib, TestReadLens)
    ensures ca.AssignColumn(Some("rg3"), 36) == -1
    ensures ca.AssignColumn(Some("rg3"), 75) == 2 && ca.AssignColumn(Some("rg3"), 100) == 3
  {
    TestLens();
    GroupColumns(ca, "rg3", 1);
    GroupRejects(ca, "rg3", 1, 36);
  }

  /** Per library and length: lib3's columns come last, and 36, 75 and 100 have none. */
  lemma PerLibAndLengthAssignLib3Example(ca: ColumnAssigner)
    requires IsPerLibAndLengthFor(ca, TestRgToLib, TestReadLens)
    ensures ca.AssignColumn(Some("rg4"), 36) == -1 && ca.AssignColumn(Some("rg4"), 75) == -1
    ensures ca.AssignColumn(Some("rg4"), 100) == -1
    ensures ca.AssignColumn(Some("rg4"), 150) == 4 && ca.AssignColumn(Some("rg4"), 250) == 5
  {
    TestLens();
    GroupColumns(ca, "rg4", 2);
    GroupRejects(ca, "rg4", 2, 36);
    GroupRejects(ca, "rg4", 2, 75);
    GroupRejects(ca, "rg4", 2, 100);
  }

  /** Per library and length: a read group the map does not know has no column. */
  lemma PerLibAndLengthUnknownGroup(ca: ColumnAssigner, len: nat)
    requires IsPerLibAndLengthFor(ca, TestRgToLib, TestReadLens)
    ensures ca.AssignColumn(Some("unknown_rg"), len) == -1
  {
    assert "unknown_rg" !in TestRgToLib;
    TestNoColumn(ca, "unknown_rg", len);
  }

  /** Per library and length: all six lengths the groups' libraries lack have no column. */
  lemma PerLibAndLengthRejectExample(ca: ColumnAssigner)
    requires IsPerLibAndLengthFor(ca, TestRgToLib, TestReadLens)
    ensures ca.AssignColumn(Some("rg1"), 100) == -1 && ca.AssignColumn(Some("rg2"), 100) == -1
    ensures ca.AssignColumn(Some("rg3"), 36) == -1
    ensures ca.AssignColumn(Some("rg4"), 36) == -1 && ca.AssignColumn(Some("rg4"), 75) == -1
    ensures ca.AssignColumn(Some("rg4"), 100) == -1
  {
    TestLens();
    GroupRejects(ca, "rg1", 0, 100);
    GroupRejects(ca, "rg2", 0, 100);
    GroupRejects(ca, "rg3", 1, 36);
    GroupRejects(ca, "rg4", 2, 36);
    GroupRejects(ca, "rg4", 2, 75);
    GroupRejects(ca, "rg4", 2, 100);
  }

  /** The lengths of each read group's library in the library-and-length test. */
  lemma TestGroupLengths(rg: string)
    ensures rg in TestRgToLib ==> TestRgToLib[rg] in TestReadLens
    ensures rg in TestRgToLib ==> Elems(TestReadLens[TestRgToLib[rg]]) <= {36, 75, 100, 150, 250}
  {
    if rg in TestRgToLib {
      TestMaps();
      assert rg in {"rg1", "rg2", "rg3", "rg4"};
    }
  }

  /** Per library and length: a length no library has gets no column, whatever the group. */
  lemma PerLibAndLengthUnknownLength(ca: ColumnAssigner, rg: string, len: nat)
    requires IsPerLibAndLengthFor(ca, TestRgToLib, TestReadLens)
    requires len !in {36, 75, 100, 150, 250}
    ensures ca.AssignColumn(Some(rg), len) == -1
  {
    TestGroupLengths(rg);
    if rg in TestRgToLib {
      assert len !in Elems(TestReadLens[TestRgToLib[rg]]);
    }
    TestNoColumn(ca, rg, len);
  }
}
