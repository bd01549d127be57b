/**
 * WarningCollector: counts the reads that no column takes, by what made them
 * unplaceable (no read group, a read group's library, a read length, or a library
 * together with a read length), and writes a summary of the counts at the end of a run.
 */
module Warnings {
  import opened Wrappers
  import opened Decimal
  import opened Text
  import opened Entries
  import opened ColumnAssignment
  import opened StreamJoining
  import opened BamOptions

  /** What a skipped read is counted under. */
  datatype Key =
    | MissingReadGroup
    | Length(len: uint32)
    | Library(lib: string)
    | LibraryLength(lib: string, len: uint32)

  /** The counts a collector holds: one counter and three count maps. */
  datatype Tallies = Tallies(
    missingRgs: nat,
    skippedLens: map<uint32, nat>,
    skippedLibs: map<string, nat>,
    libSkippedLengths: map<string, map<uint32, nat>>)

  const NoTallies: Tallies := Tallies(0, map[], map[], map[])

  /** The count of m at k; a key not yet in the map counts zero, as operator[] inserts it. */
  function Get<K>(m: map<K, nat>, k: K): nat {
    if k in m then m[k] else 0
  }

  /** ++m[k]. */
  function Inc<K>(m: map<K, nat>, k: K): (r: map<K, nat>)
    ensures r.Keys == m.Keys + {k}
  {
    m[k := Get(m, k) + 1]
  }

  /** The number of skipped reads counted under k. */
  function Tally(t: Tallies, k: Key): nat {
    match k
    case MissingReadGroup => t.missingRgs
    case Length(len) => Get(t.skippedLens, len)
    case Library(lib) => Get(t.skippedLibs, lib)
    case LibraryLength(lib, len) =>
      if lib in t.libSkippedLengths then Get(t.libSkippedLengths[lib], len) else 0
  }

  /** The tallies after one more read counted under k. */
  function Bumped(t: Tallies, k: Key): Tallies {
    match k
    case MissingReadGroup => t.(missingRgs := t.missingRgs + 1)
    case Length(len) => t.(skippedLens := Inc(t.skippedLens, len))
    case Library(lib) => t.(skippedLibs := Inc(t.skippedLibs, lib))
    case LibraryLength(lib, len) =>
      var inner := if lib in t.libSkippedLengths then t.libSkippedLengths[lib] else map[];
      t.(libSkippedLengths := t.libSkippedLengths[lib := Inc(inner, len)])
  }

  /** A read counted under k raises the tally of k by one and leaves every other tally as it was. */
  lemma BumpedRaisesOne(t: Tallies, k: Key, other: Key)
    ensures Tally(Bumped(t, k), other) == Tally(t, other) + if other == k then 1 else 0
  {
  }

  /** Every count kept in m is of at least one read. */
  predicate CountsPositive<K>(m: map<K, nat>) {
    forall k :: k in m ==> m[k] >= 1
  }

  /** Every library listed has a length, each counted at least once. */
  predicate NestedPositive(m: map<string, map<uint32, nat>>) {
    forall lib :: lib in m ==> |m[lib]| >= 1 && CountsPositive(m[lib])
  }

  /** No count kept is zero, and no library is listed without a length. */
  predicate TalliesValid(t: Tallies) {
    CountsPositive(t.skippedLens) && CountsPositive(t.skippedLibs) && NestedPositive(t.libSkippedLengths)
  }

  lemma IncPositive<K>(m: map<K, nat>, k: K)
    requires CountsPositive(m)
    ensures CountsPositive(Inc(m, k)) && k in Inc(m, k)
  {
  }

  lemma NestedIncPositive(m: map<string, map<uint32, nat>>, lib: string, len: uint32)
    requires NestedPositive(m)
    ensures var inner := if lib in m then m[lib] else map[];
            NestedPositive(m[lib := Inc(inner, len)])
  {
    var inner := if lib in m then m[lib] else map[];
    IncPositive(inner, len);
    assert |Inc(inner, len)| >= 1 by {
      assert len in Inc(inner, len);
    }
  }

  lemma BumpedValid(t: Tallies, k: Key)
    requires TalliesValid(t)
    ensures TalliesValid(Bumped(t, k))
  {
    match k
    case MissingReadGroup =>
    case Length(len) => IncPositive(t.skippedLens, len);
    case Library(lib) => IncPositive(t.skippedLibs, lib);
    case LibraryLength(lib, len) => NestedIncPositive(t.libSkippedLengths, lib, len);
  }

  /** The tallies after the skipped reads with keys ks, starting from none. */
  function TalliesOf(ks: seq<Key>): Tallies {
    if |ks| == 0 then NoTallies else Bumped(TalliesOf(ks[..|ks| - 1]), ks[|ks| - 1])
  }

  /** Each tally is the number of skipped reads with its key. */
  lemma {:induction false} TalliesCount(ks: seq<Key>, k: Key)
    ensures Tally(TalliesOf(ks), k) == multiset(ks)[k]
    ensures TalliesValid(TalliesOf(ks))
  {
    if |ks| > 0 {
      var init := ks[..|ks| - 1];
      TalliesCount(init, k);
      BumpedRaisesOne(TalliesOf(init), ks[|ks| - 1], k);
      BumpedValid(TalliesOf(init), ks[|ks| - 1]);
      assert ks == init + [ks[|ks| - 1]];
    }
  }

  const UnknownLibrary: string := "<unknown>"

  /** The library a read group belongs to, or the unknown-library name. */
  function LibraryOf(rg2lib: RgToLibMap, rg: string): string {
    if rg in rg2lib then rg2lib[rg] else UnknownLibrary
  }

  /**
   * The key of a read no column takes: by library when counting per library (no read
   * group being a case of its own), with the length too when also counting per length,
   * by length alone otherwise.
   */
  function WarnKey(perLib: bool, rg2lib: RgToLibMap, rg: Option<string>, len: uint32, perReadLen: bool): Key {
    if perLib then
      match rg
      case None => MissingReadGroup
      case Some(g) => if perReadLen then LibraryLength(LibraryOf(rg2lib, g), len) else Library(LibraryOf(rg2lib, g))
    else Length(len)
  }

  /** "" for one, "s" otherwise. */
  function Plural(n: nat): (r: string)
    ensures r == "" <==> n == 1
    ensures r == "" || r == "s"
  {
    if n == 1 then "" else "s"
  }

  /** "key (n read)" or "key (n reads)". */
  function ReadCount(key: string, n: nat): string {
    key + " (" + NatToString(n) + " read" + Plural(n) + ")"
  }

  function LengthCount(p: (uint32, nat)): string {
    ReadCount(NatToString(p.0), p.1)
  }

  function LibraryCount(p: (string, nat)): string {
    ReadCount(p.0, p.1)
  }

  /** order lists the keys, each once: an iteration order of a hash map with those keys. */
  ghost predicate Enumerates<K(!new)>(order: seq<K>, keys: set<K>) {
    && (forall i, j :: 0 <= i < j < |order| ==> order[i] != order[j])
    && (forall k :: k in keys <==> k in order)
  }

  /** The entries of m, in the given order. */
  function Pairs<K>(m: map<K, nat>, order: seq<K>): (r: seq<(K, nat)>)
    requires forall k :: k in order ==> k in m
    ensures |r| == |order| && forall i :: 0 <= i < |order| ==> r[i] == (order[i], m[order[i]])
  {
    seq(|order|, i requires 0 <= i < |order| => (order[i], m[order[i]]))
  }

  /** The iteration orders of all maps of t. */
  ghost predicate OrdersFor(t: Tallies, lenOrder: seq<uint32>, libOrder: seq<string>,
                      nestedOrder: seq<string>, nestedLenOrders: map<string, seq<uint32>>) {
    && Enumerates(lenOrder, t.skippedLens.Keys)
    && Enumerates(libOrder, t.skippedLibs.Keys)
    && Enumerates(nestedOrder, t.libSkippedLengths.Keys)
    && forall lib :: lib in t.libSkippedLengths ==>
         lib in nestedLenOrders && Enumerates(nestedLenOrders[lib], t.libSkippedLengths[lib].Keys)
  }

  function MissingSection(n: nat): string {
    if n > 0 then "WARNING: " + NatToString(n) + " read" + Plural(n) + " with no read group information.\n" else ""
  }

  const LengthsHeader: string := "WARNING: the following read lengths were encountered but not reported:"

  function LengthsSection(m: map<uint32, nat>, order: seq<uint32>): string
    requires Enumerates(order, m.Keys)
  {
    if |m| > 0 then LengthsHeader + " " + Joined(Pairs(m, order), DefaultEmpty, DefaultDelim, LengthCount) + "\n" else ""
  }

  function LibrariesSection(m: map<string, nat>, order: seq<string>): string
    requires Enumerates(order, m.Keys)
  {
    if |m| > 0 then "WARNING: unknown read groups encountered: " + Joined(Pairs(m, order), DefaultEmpty, DefaultDelim, LibraryCount) + "\n"
    else ""
  }

  /** The line of one library's skipped lengths. */
  function LibraryLine(lib: string, m: map<uint32, nat>, order: seq<uint32>): string
    requires Enumerates(order, m.Keys)
  {
    "\tin library '" + lib + "': " + Joined(Pairs(m, order), DefaultEmpty, DefaultDelim, LengthCount) + "\n"
  }

  ghost predicate NestedOrders(m: map<string, map<uint32, nat>>, libs: seq<string>, lenOrders: map<string, seq<uint32>>) {
    forall i :: 0 <= i < |libs| ==> libs[i] in m && libs[i] in lenOrders && Enumerates(lenOrders[libs[i]], m[libs[i]].Keys)
  }

  /** The lines of the first n libraries of libs. */
  function LibraryLines(m: map<string, map<uint32, nat>>, libs: seq<string>, lenOrders: map<string, seq<uint32>>, n: nat): string
    requires NestedOrders(m, libs, lenOrders) && n <= |libs|
  {
    if n == 0 then ""
    else
      var lib := libs[n - 1];
      LibraryLines(m, libs, lenOrders, n - 1) + LibraryLine(lib, m[lib], lenOrders[lib])
  }

  lemma NestedOrdersOf(t: Tallies, lenOrder: seq<uint32>, libOrder: seq<string>,
                       nestedOrder: seq<string>, nestedLenOrders: map<string, seq<uint32>>)
    requires OrdersFor(t, lenOrder, libOrder, nestedOrder, nestedLenOrders)
    ensures NestedOrders(t.libSkippedLengths, nestedOrder, nestedLenOrders)
  {
    forall i | 0 <= i < |nestedOrder| ensures nestedOrder[i] in t.libSkippedLengths {
      assert nestedOrder[i] in nestedOrder;
    }
  }

  function NestedSection(m: map<string, map<uint32, nat>>, libs: seq<string>, lenOrders: map<string, seq<uint32>>): string
    requires NestedOrders(m, libs, lenOrders)
  {
    if |m| > 0 then LengthsHeader + "\n" + LibraryLines(m, libs, lenOrders, |libs|) else ""
  }

  /** The summary a collector with tallies t writes, the maps iterated in the given orders. */
  function Summary(t: Tallies, lenOrder: seq<uint32>, libOrder: seq<string>,
                   nestedOrder: seq<string>, nestedLenOrders: map<string, seq<uint32>>): string
    requires OrdersFor(t, lenOrder, libOrder, nestedOrder, nestedLenOrders)
  {
    NestedOrdersOf(t, lenOrder, libOrder, nestedOrder, nestedLenOrders);
    MissingSection(t.missingRgs)
      + LengthsSection(t.skippedLens, lenOrder)
      + LibrariesSection(t.skippedLibs, libOrder)
      + NestedSection(t.libSkippedLengths, nestedOrder, nestedLenOrders)
  }

  /** Nothing is written exactly when nothing was skipped. */
  lemma SummaryEmpty(t: Tallies, lenOrder: seq<uint32>, libOrder: seq<string>,
                     nestedOrder: seq<string>, nestedLenOrders: map<string, seq<uint32>>)
    requires OrdersFor(t, lenOrder, libOrder, nestedOrder, nestedLenOrders)
    ensures Summary(t, lenOrder, libOrder, nestedOrder, nestedLenOrders) == "" <==> t == NoTallies
  {
    NestedOrdersOf(t, lenOrder, libOrder, nestedOrder, nestedLenOrders);
    if t != NoTallies {
      if t.missingRgs > 0 {
        assert |MissingSection(t.missingRgs)| > 0;
      } else if t.skippedLens != map[] {
        assert |t.skippedLens| > 0;
        assert |LengthsSection(t.skippedLens, lenOrder)| > 0;
      } else if t.skippedLibs != map[] {
        assert |t.skippedLibs| > 0;
      } else {
        assert t.libSkippedLengths != map[];
        assert |t.libSkippedLengths| > 0;
      }
    }
  }

  /** A read count entry holds no comma: digits, spaces, parentheses and letters only. */
  lemma LengthCountCommaFree(p: (uint32, nat))
    ensures ',' !in LengthCount(p)
  {
    var a := NatToString(p.0);
    var b := NatToString(p.1);
    assert forall i :: 0 <= i < |a| ==> a[i] != ',';
    assert forall i :: 0 <= i < |b| ==> b[i] != ',';
  }

  /**
   * A list of skipped lengths splits at its commas into one entry per length, in the
   * iteration order, each naming the length and its count.
   */
  lemma LengthListEntries(m: map<uint32, nat>, order: seq<uint32>)
    requires Enumerates(order, m.Keys) && |m| > 0
    ensures var entries := Split(Joined(Pairs(m, order), DefaultEmpty, DefaultDelim, LengthCount), ',');
            && |entries| == |order|
            && forall i :: 0 <= i < |order| ==> entries[i] == ReadCount(NatToString(order[i]), m[order[i]])
  {
    var k :| k in m;
    assert k in order;
    var items := Pairs(m, order);
    forall i | 0 <= i < |items| ensures ',' !in LengthCount(items[i]) {
      LengthCountCommaFree(items[i]);
    }
    assert DefaultDelim == [','];
    JoinedSplits(items, DefaultEmpty, ',', LengthCount);
  }

  lemma AppendAssoc(a: string, b: string, c: string)
    ensures (a + b) + c == a + (b + c)
  {
  }

  /** Writes a join of items with the default placeholder and delimiter. */
  method WriteJoin<T>(os: string, items: seq<T>, xfm: T -> string) returns (out: string)
    ensures out == os + Joined(items, DefaultEmpty, DefaultDelim, xfm)
  {
    var sj := new StreamJoin(items, xfm);
    out := sj.WriteTo(os);
  }

  method WriteLibraryLine(lib: string, m: map<uint32, nat>, order: seq<uint32>) returns (line: string)
    requires Enumerates(order, m.Keys)
    ensures line == LibraryLine(lib, m, order)
  {
    line := "\tin library '" + lib + "': ";
    line := WriteJoin(line, Pairs(m, order), LengthCount);
    line := line + "\n";
  }

  lemma LibraryLinesNext(os: string, m: map<string, map<uint32, nat>>, libs: seq<string>, lenOrders: map<string, seq<uint32>>, i: nat)
    requires NestedOrders(m, libs, lenOrders) && i < |libs|
    ensures os + LibraryLines(m, libs, lenOrders, i + 1)
            == os + LibraryLines(m, libs, lenOrders, i) + LibraryLine(libs[i], m[libs[i]], lenOrders[libs[i]])
  {
    AppendAssoc(os, LibraryLines(m, libs, lenOrders, i), LibraryLine(libs[i], m[libs[i]], lenOrders[libs[i]]));
  }

  /** The loop over the libraries with skipped lengths, one line each. */
  method WriteLibraryLines(os: string, m: map<string, map<uint32, nat>>, libs: seq<string>, lenOrders: map<string, seq<uint32>>)
    returns (out: string)
    requires NestedOrders(m, libs, lenOrders)
    ensures out == os + LibraryLines(m, libs, lenOrders, |libs|)
  {
    out := os;
    var i := 0;
    while i < |libs|
      invariant 0 <= i <= |libs|
      invariant out == os + LibraryLines(m, libs, lenOrders, i)
    {
      var lib := libs[i];
      var line := WriteLibraryLine(lib, m[lib], lenOrders[lib]);
      LibraryLinesNext(os, m, libs, lenOrders, i);
      out := out + line;
      i := i + 1;
    }
  }

  method WriteMissing(os: string, n: nat) returns (out: string)
    ensures out == os + MissingSection(n)
  {
    out := os;
    if n > 0 {
      out := out + "WARNING: " + NatToString(n) + " read" + Plural(n) + " with no read group information.\n";
    }
  }

  method WriteLengths(os: string, m: map<uint32, nat>, order: seq<uint32>) returns (out: string)
    requires Enumerates(order, m.Keys)
    ensures out == os + LengthsSection(m, order)
  {
    out := os;
    if |m| > 0 {
      var line := LengthsHeader + " ";
      line := WriteJoin(line, Pairs(m, order), LengthCount);
      out := out + (line + "\n");
    }
  }

  method WriteLibraries(os: string, m: map<string, nat>, order: seq<string>) returns (out: string)
    requires Enumerates(order, m.Keys)
    ensures out == os + LibrariesSection(m, order)
  {
    out := os;
    if |m| > 0 {
      var line := "WARNING: unknown read groups encountered: ";
      line := WriteJoin(line, Pairs(m, order), LibraryCount);
      out := out + (line + "\n");
    }
  }

  method WriteNested(os: string, m: map<string, map<uint32, nat>>, libs: seq<string>, lenOrders: map<string, seq<uint32>>)
    returns (out: string)
    requires NestedOrders(m, libs, lenOrders)
    ensures out == os + NestedSection(m, libs, lenOrders)
  {
    out := os;
    if |m| > 0 {
      var lines := WriteLibraryLines(LengthsHeader + "\n", m, libs, lenOrders);
      AppendAssoc(LengthsHeader, "\n", LibraryLines(m, libs, lenOrders, |libs|));
      out := out + lines;
    }
  }

  /** The collector of one run: the options and read-group map it consults, and its counts. */
  class WarningCollector {
    const opts: Options
    const rg2lib: RgToLibMap
    var missingRgs: nat
    var skippedLens: map<uint32, nat>
    var skippedLibs: map<string, nat>
    var libSkippedLengths: map<string, map<uint32, nat>>

    function State(): Tallies
      reads this
    {
      Tallies(missingRgs, skippedLens, skippedLibs, libSkippedLengths)
    }

    ghost predicate Valid()
      reads this
    {
      TalliesValid(State())
    }

    /** Starts with nothing counted. */
    constructor (opts: Options, rg2lib: RgToLibMap)
      ensures this.opts == opts && this.rg2lib == rg2lib
      ensures State() == NoTallies && Valid()
    {
      this.opts := opts;
      this.rg2lib := rg2lib;
      missingRgs := 0;
      skippedLens := map[];
      skippedLibs := map[];
      libSkippedLengths := map[];
    }

    /**
     * Counts a read that no column takes, under its key. Only the per-library and the
     * per-length assigners reject reads, so one of the two switches is on.
     */
    method WarnInvalidCol(rg: Option<string>, len: uint32)
      requires Valid()
      requires opts.perLib || opts.perReadLen
      modifies this
      ensures State() == Bumped(old(State()), WarnKey(opts.perLib, rg2lib, rg, len, opts.perReadLen))
      ensures Valid()
    {
      ghost var k := WarnKey(opts.perLib, rg2lib, rg, len, opts.perReadLen);
      BumpedValid(State(), k);
      if opts.perLib {
        if rg.None? {
          assert k == MissingReadGroup;
          missingRgs := missingRgs + 1;
          return;
        }
        var lib := UnknownLibrary;
        if rg.value in rg2lib {
          lib := rg2lib[rg.value];
        }
        assert lib == LibraryOf(rg2lib, rg.value);
        if opts.perReadLen {
          assert k == LibraryLength(lib, len);
          var inner := if lib in libSkippedLengths then libSkippedLengths[lib] else map[];
          libSkippedLengths := libSkippedLengths[lib := Inc(inner, len)];
        } else {
          assert k == Library(lib);
          skippedLibs := Inc(skippedLibs, lib);
        }
      } else {
        assert k == Length(len);
        skippedLens := Inc(skippedLens, len);
      }
    }

    /** Writes one section per kind of skipped read, in the given iteration orders of the maps. */
    method Print(os: string, lenOrder: seq<uint32>, libOrder: seq<string>,
                 nestedOrder: seq<string>, nestedLenOrders: map<string, seq<uint32>>) returns (out: string)
      requires OrdersFor(State(), lenOrder, libOrder, nestedOrder, nestedLenOrders)
      ensures out == os + Summary(State(), lenOrder, libOrder, nestedOrder, nestedLenOrders)
    {
      NestedOrdersOf(State(), lenOrder, libOrder, nestedOrder, nestedLenOrders);
      ghost var t := State();
      out := WriteMissing(os, missingRgs);
      out := WriteLengths(out, skippedLens, lenOrder);
      out := WriteLibraries(out, skippedLibs, libOrder);
      out := WriteNested(out, libSkippedLengths, nestedOrder, nestedLenOrders);
      ghost var m := MissingSection(t.missingRgs);
      ghost var l := LengthsSection(t.skippedLens, lenOrder);
      ghost var g := LibrariesSection(t.skippedLibs, libOrder);
      AppendAssoc(os, m, l);
      AppendAssoc(os, m + l, g);
      AppendAssoc(os, m + l + g, NestedSection(t.libSkippedLengths, nestedOrder, nestedLenOrders));
    }
  }
}
