/**
 * The integer-array helpers of the older C implementation: linear search, a
 * three-way comparison, removal of repeated neighbours in place, and an in-place
 * quicksort. C ints are only compared here, never added, so they are modelled as
 * unbounded integers.
 */
module LegacyArrays {
  import opened Orders

  /** The number of elements a[0..alen) covers; a negative count covers none. */
  function Len(alen: int): nat {
    if alen < 0 then 0 else alen
  }

  /** existsInArray: 1 when val is among a[0..alen), 0 otherwise. */
  method ExistsInArray(val: int, a: array<int>, alen: int) returns (r: int)
    requires alen <= a.Length
    ensures r == 1 <==> val in a[..Len(alen)]
    ensures r == 0 <==> val !in a[..Len(alen)]
  {
    var i := 0;
    while i < alen
      invariant 0 <= i <= Len(alen)
      invariant val !in a[..i]
    {
      if a[i] == val {
        assert a[..Len(alen)][i] == val;
        return 1;
      }
      assert a[..i + 1] == a[..i] + [a[i]];
      i := i + 1;
    }
    assert a[..i] == a[..Len(alen)];
    return 0;
  }

  /** getIndex: the first position of val in a[0..alen), or -1. */
  method GetIndex(val: int, a: array<int>, alen: int) returns (r: int)
    requires alen <= a.Length
    ensures -1 <= r < Len(alen)
    ensures r >= 0 <==> val in a[..Len(alen)]
    ensures r >= 0 ==> a[r] == val && val !in a[..r]
  {
    var i := 0;
    while i < alen
      invariant 0 <= i <= Len(alen)
      invariant val !in a[..i]
    {
      if a[i] == val {
        assert a[..Len(alen)][i] == val;
        return i;
      }
      assert a[..i + 1] == a[..i] + [a[i]];
      i := i + 1;
    }
    assert a[..i] == a[..Len(alen)];
    return -1;
  }

  /** intcmp, the comparison handed to qsort: -1, 0 or 1 as a is below, equal to or above b. */
  function IntCmp(a: int, b: int): (r: int)
    ensures r == -1 <==> a < b
    ensures r == 0 <==> a == b
    ensures r == 1 <==> a > b
  {
    if a < b then -1 else if a > b then 1 else 0
  }

  /** The comparison is antisymmetric and transitive, as qsort requires of it. */
  lemma IntCmpIsOrder(a: int, b: int, c: int)
    ensures IntCmp(a, b) == -IntCmp(b, a)
    ensures IntCmp(a, b) <= 0 && IntCmp(b, c) <= 0 ==> IntCmp(a, c) <= 0
  {
  }

  predicate IntLess(a: int, b: int) {
    a < b
  }

  lemma IntIsStrictTotalOrder()
    ensures StrictTotalOrder(IntLess)
  {
  }

  /** Ascending, repeats allowed. */
  ghost predicate Ascending(s: seq<int>) {
    forall i, j :: 0 <= i < j < |s| ==> s[i] <= s[j]
  }

  /** s with every element equal to its left neighbour dropped. */
  function Dedup(s: seq<int>): (r: seq<int>)
    requires |s| >= 1
    ensures 1 <= |r| <= |s| && r[0] == s[0] && r[|r| - 1] == s[|s| - 1]
  {
    if |s| == 1 then s
    else
      var init := Dedup(s[..|s| - 1]);
      if s[|s| - 1] != s[|s| - 2] then init + [s[|s| - 1]] else init
  }

  lemma DedupSnoc(s: seq<int>, i: nat)
    requires 1 <= i < |s|
    ensures Dedup(s[..i + 1]) == if s[i] != s[i - 1] then Dedup(s[..i]) + [s[i]] else Dedup(s[..i])
  {
    assert s[..i + 1][..i] == s[..i];
  }

  /** No two neighbours of the result are equal. */
  lemma {:induction false} DedupNoRepeats(s: seq<int>)
    requires |s| >= 1
    ensures forall i :: 0 <= i < |Dedup(s)| - 1 ==> Dedup(s)[i] != Dedup(s)[i + 1]
  {
    if |s| > 1 {
      DedupNoRepeats(s[..|s| - 1]);
    }
  }

  /** Dropping repeats keeps every value. */
  lemma {:induction false} DedupElems(s: seq<int>)
    requires |s| >= 1
    ensures Elems(Dedup(s)) == Elems(s)
  {
    if |s| > 1 {
      var init := s[..|s| - 1];
      DedupElems(init);
      assert s == init + [s[|s| - 1]];
      assert Elems(s) == Elems(init) + {s[|s| - 1]};
      if s[|s| - 1] == s[|s| - 2] {
        assert s[|s| - 1] in init;
      }
    }
  }

  /** From an ascending sequence, dropping repeats leaves it strictly increasing. */
  lemma {:induction false} DedupAscending(s: seq<int>)
    requires |s| >= 1 && Ascending(s)
    ensures StrictlySorted(Dedup(s), IntLess)
  {
    if |s| > 1 {
      var init := s[..|s| - 1];
      assert Ascending(init);
      DedupAscending(init);
      var d := Dedup(init);
      if s[|s| - 1] != s[|s| - 2] {
        forall i | 0 <= i < |d| ensures d[i] < s[|s| - 1] {
          DedupBelowLast(init, i);
        }
      }
    }
  }

  lemma DedupBelowLast(s: seq<int>, i: nat)
    requires |s| >= 1 && Ascending(s) && i < |Dedup(s)|
    ensures Dedup(s)[i] <= s[|s| - 1]
  {
    DedupElems(s);
    var x := Dedup(s)[i];
    assert x in Elems(s);
    var k :| 0 <= k < |s| && s[k] == x;
  }

  /** On an ascending sequence, the length after dropping repeats is the number of distinct values. */
  lemma DedupCountsValues(s: seq<int>)
    requires |s| >= 1 && Ascending(s)
    ensures |Dedup(s)| == |Elems(s)|
  {
    DedupAscending(s);
    DedupElems(s);
    IntIsStrictTotalOrder();
    DistinctCard(Dedup(s), IntLess);
  }

  /**
   * uniq: moves each element that differs from the previous kept one to the front,
   * and returns how many are kept. With no elements it still returns 1.
   */
  method Uniq(a: array<int>, n: int) returns (k: int)
    requires n <= a.Length
    modifies a
    ensures n < 1 ==> k == 1 && a[..] == old(a[..])
    ensures n >= 1 ==> 1 <= k <= n && a[..k] == Dedup(old(a[..n])) && a[k..] == old(a[k..])
  {
    ghost var s := a[..];
    var j := 0;
    var i := 1;
    if n >= 1 {
      assert a[..1] == s[..1];
    }
    while i < n
      invariant 0 <= j < i && (n >= 1 ==> i <= n) && (n < 1 ==> i == 1 && a[..] == s)
      invariant n >= 1 ==> a[..j + 1] == Dedup(s[..i])
      invariant forall m :: j < m < a.Length ==> a[m] == s[m]
    {
      DedupSnoc(s, i);
      if a[i] != a[j] {
        j := j + 1;
        a[j] := a[i];
        assert a[..j + 1] == a[..j] + [s[i]];
      }
      i := i + 1;
    }
    k := j + 1;
    if n >= 1 {
      assert s[..i] == s[..n];
      assert a[k..] == s[k..];
    }
  }

  /** On ascending input, uniq keeps exactly the distinct values, strictly increasing. */
  lemma UniqOnSorted(s: seq<int>, kept: seq<int>)
    requires |s| >= 1 && Ascending(s) && kept == Dedup(s)
    ensures StrictlySorted(kept, IntLess) && Elems(kept) == Elems(s) && |kept| == |Elems(s)|
  {
    DedupAscending(s);
    DedupElems(s);
    DedupCountsValues(s);
  }

  /** t agrees with s outside [lo, hi). */
  ghost predicate SameOutside(s: seq<int>, t: seq<int>, lo: int, hi: int) {
    && |s| == |t| && 0 <= lo <= hi <= |s|
    && forall k :: 0 <= k < |s| && !(lo <= k < hi) ==> s[k] == t[k]
  }

  /** t is s with the elements in [lo, hi) rearranged and the rest untouched. */
  ghost predicate Permuted(s: seq<int>, t: seq<int>, lo: int, hi: int) {
    SameOutside(s, t, lo, hi) && multiset(s) == multiset(t)
  }

  lemma SplitAt(s: seq<int>, lo: int, hi: int)
    requires 0 <= lo <= hi <= |s|
    ensures s == s[..lo] + s[lo..hi] + s[hi..]
  {
  }

  /** The range itself holds the same elements before and after. */
  lemma PermutedSegment(s: seq<int>, t: seq<int>, lo: int, hi: int)
    requires Permuted(s, t, lo, hi)
    ensures multiset(s[lo..hi]) == multiset(t[lo..hi])
  {
    assert s[..lo] == t[..lo];
    assert s[hi..] == t[hi..];
    SplitAt(s, lo, hi);
    SplitAt(t, lo, hi);
    assert multiset(s) == multiset(s[..lo]) + multiset(s[lo..hi]) + multiset(s[hi..]);
    assert multiset(t) == multiset(t[..lo]) + multiset(t[lo..hi]) + multiset(t[hi..]);
    assert multiset(s[lo..hi]) == multiset(s) - multiset(s[..lo]) - multiset(s[hi..]);
    assert multiset(t[lo..hi]) == multiset(t) - multiset(t[..lo]) - multiset(t[hi..]);
  }

  /** Permuting [lo, hi) permutes any wider range too. */
  lemma Widen(s: seq<int>, t: seq<int>, lo: int, hi: int, lo': int, hi': int)
    requires Permuted(s, t, lo, hi) && 0 <= lo' <= lo && hi <= hi' <= |s|
    ensures Permuted(s, t, lo', hi')
  {
  }

  lemma PermutedTrans(s: seq<int>, t: seq<int>, u: seq<int>, lo: int, hi: int)
    requires Permuted(s, t, lo, hi) && Permuted(t, u, lo, hi)
    ensures Permuted(s, u, lo, hi)
  {
  }

  /** Every element a permutation brings into the range comes from the range. */
  lemma PermutedFrom(s: seq<int>, t: seq<int>, lo: int, hi: int, k: int) returns (m: int)
    requires Permuted(s, t, lo, hi) && lo <= k < hi
    ensures lo <= m < hi && s[m] == t[k]
  {
    PermutedSegment(s, t, lo, hi);
    assert t[k] == t[lo..hi][k - lo];
    assert t[k] in multiset(s[lo..hi]);
    var i :| 0 <= i < hi - lo && s[lo..hi][i] == t[k];
    m := lo + i;
  }

  /** What a permutation keeps below (above) a bound stays below (above) it. */
  lemma PermutedBounds(s: seq<int>, t: seq<int>, lo: int, hi: int, v: int)
    requires Permuted(s, t, lo, hi)
    ensures (forall k :: lo <= k < hi ==> s[k] <= v) ==> forall k :: lo <= k < hi ==> t[k] <= v
    ensures (forall k :: lo <= k < hi ==> s[k] >= v) ==> forall k :: lo <= k < hi ==> t[k] >= v
  {
    forall k | lo <= k < hi ensures exists m :: lo <= m < hi && s[m] == t[k] {
      var m := PermutedFrom(s, t, lo, hi, k);
    }
  }

  /**
   * The first scan of the partition loop (line 369): from i0 + 1 up past the elements
   * below v, stopping at hi, the end of the range.
   */
  method ScanUp(a: array<int>, hi: int, v: int, i0: int, j: int) returns (i: int)
    requires 0 <= i0 < j <= hi < a.Length
    requires j < hi ==> a[j] >= v
    ensures i0 < i <= j
    ensures forall k :: i0 < k < i ==> a[k] < v
    ensures i == hi || a[i] >= v
  {
    i := i0 + 1;
    while a[i] < v && i < hi
      invariant i0 < i <= j
      invariant forall k :: i0 < k < i ==> a[k] < v
      decreases hi - i
    {
      i := i + 1;
    }
  }

  /** The second scan (line 370): from j0 - 1 down past the elements above v; a[i0] stops it. */
  method ScanDown(a: array<int>, v: int, i0: int, j0: int) returns (j: int)
    requires 0 <= i0 < j0 <= a.Length
    requires a[i0] <= v
    ensures i0 <= j < j0
    ensures forall k :: j < k < j0 ==> a[k] > v
    ensures a[j] <= v
  {
    j := j0 - 1;
    while a[j] > v
      invariant i0 <= j < j0
      invariant forall k :: j < k < j0 ==> a[k] > v
      decreases j
    {
      j := j - 1;
    }
  }

  /** After partitioning, t[q] is the pivot: nothing before it in [lo, hi) is larger and nothing after it smaller. */
  ghost predicate PivotAt(t: seq<int>, lo: int, q: int, hi: int) {
    && 0 <= lo <= q < hi <= |t|
    && (forall k :: lo <= k < q ==> t[k] <= t[q])
    && (forall k :: q < k < hi ==> t[q] <= t[k])
  }

  /** The partition loop's invariant: the pivot v stays first, [lo, i] holds no element above it and [j, hi) none below it. */
  ghost predicate Segmented(t: seq<int>, lo: int, i: int, j: int, hi: int, v: int) {
    && 0 <= lo <= i < j <= hi < |t| && t[lo] == v
    && (forall k :: lo <= k <= i ==> t[k] <= v)
    && (forall k :: j <= k < hi ==> t[k] >= v)
  }

  /** Once the scans cross at i, [lo, i) holds no element above v and [i, hi) none below it. */
  ghost predicate Crossed(t: seq<int>, lo: int, i: int, hi: int, v: int) {
    && 0 <= lo < i <= hi < |t| && t[lo] == v
    && (forall k :: lo <= k < i ==> t[k] <= v)
    && (forall k :: i <= k < hi ==> t[k] >= v)
  }

  /** When the scans meet or cross (line 372), the range is split at the upward scan's stop. */
  lemma ScansCross(t: seq<int>, lo: int, i: int, j: int, hi: int, v: int, i1: int, j1: int)
    requires Segmented(t, lo, i, j, hi, v)
    requires i < i1 <= j && (forall k :: i < k < i1 ==> t[k] < v) && (i1 == hi || t[i1] >= v)
    requires i <= j1 < j && (forall k :: j1 < k < j ==> t[k] > v)
    requires i1 >= j1
    ensures Crossed(t, lo, i1, hi, v)
  {
  }

  /** Swapping the two elements where the scans stopped (line 374) keeps the invariant for the narrowed range. */
  lemma SwapKeeps(s: seq<int>, t: seq<int>, t': seq<int>, lo: int, i: int, j: int, hi: int, v: int, i1: int, j1: int)
    requires Segmented(t, lo, i, j, hi, v) && Permuted(s, t, lo, hi)
    requires i < i1 < j1 < j && (forall k :: i < k < i1 ==> t[k] < v) && t[i1] >= v
    requires (forall k :: j1 < k < j ==> t[k] > v) && t[j1] <= v
    requires t' == t[i1 := t[j1]][j1 := t[i1]]
    ensures Segmented(t', lo, i1, j1, hi, v) && Permuted(s, t', lo, hi)
  {
  }

  /** Moving the pivot from lo to q = i - 1 (line 383) leaves it between the two parts. */
  lemma PivotPlaced(s: seq<int>, t: seq<int>, t': seq<int>, lo: int, q: int, hi: int, v: int)
    requires Crossed(t, lo, q + 1, hi, v) && Permuted(s, t, lo, hi)
    requires t' == t[q := t[lo]][lo := t[q]]
    ensures Permuted(s, t', lo, hi) && PivotAt(t', lo, q, hi)
  {
    assert SameOutside(s, t', lo, hi);
  }

  /**
   * The partition of quicksort (lines 361-384): the pivot is the first element; elements
   * not above it end up before it and elements not below it after it. The result is the
   * pivot's final offset in the range.
   */
  method Partition(a: array<int>, lo: int, n: int) returns (p: int)
    requires 0 <= lo && 1 < n && lo + n < a.Length
    modifies a
    ensures 0 <= p < n
    ensures Permuted(old(a[..]), a[..], lo, lo + n) && PivotAt(a[..], lo, lo + p, lo + n)
  {
    ghost var s := a[..];
    var v := a[lo];
    var i := PartitionScans(a, s, lo, lo + n, v);
    p := i - 1 - lo;
    ghost var t := a[..];
    a[lo + p], a[lo] := a[lo], a[lo + p];
    PivotPlaced(s, t, a[..], lo, lo + p, lo + n, v);
  }

  /** The scan-and-swap loop of the partition (lines 365-381), run until the scans meet or cross. */
  method PartitionScans(a: array<int>, ghost s: seq<int>, lo: int, hi: int, v: int) returns (i: int)
    requires Segmented(a[..], lo, lo, hi, hi, v) && Permuted(s, a[..], lo, hi)
    modifies a
    ensures Crossed(a[..], lo, i, hi, v) && Permuted(s, a[..], lo, hi)
  {
    i := lo;
    var j := hi;
    while true
      invariant Segmented(a[..], lo, i, j, hi, v) && Permuted(s, a[..], lo, hi)
      decreases j - i
    {
      var i1 := ScanUp(a, hi, v, i, j);
      var j1 := ScanDown(a, v, i, j);
      if i1 >= j1 {
        ScansCross(a[..], lo, i, j, hi, v, i1, j1);
        i := i1;
        break;
      }
      ghost var t := a[..];
      a[i1], a[j1] := a[j1], a[i1];
      SwapKeeps(s, t, a[..], lo, i, j, hi, v, i1, j1);
      i, j := i1, j1;
    }
  }

  /** t is ascending on [lo, hi). */
  ghost predicate AscendingIn(t: seq<int>, lo: int, hi: int) {
    forall x, y :: 0 <= lo <= x < y < hi <= |t| ==> t[x] <= t[y]
  }

  /** An ascending run of elements at most t[p], then t[p], then an ascending run of elements at least t[p], is ascending. */
  lemma JoinSorted(t: seq<int>, lo: int, p: int, hi: int)
    requires 0 <= lo <= p < hi <= |t|
    requires AscendingIn(t, lo, p) && AscendingIn(t, p + 1, hi)
    requires forall k :: lo <= k < p ==> t[k] <= t[p]
    requires forall k :: p < k < hi ==> t[p] <= t[k]
    ensures AscendingIn(t, lo, hi)
  {
  }

  /**
   * What quicksort(data + lo, n) leaves: a range of at most one element untouched,
   * a longer one permuted into ascending order, and everything outside it as it was.
   */
  ghost predicate SortedFrom(s: seq<int>, t: seq<int>, lo: int, n: int) {
    if n <= 1 then t == s else Permuted(s, t, lo, lo + n) && AscendingIn(t, lo, lo + n)
  }

  /** Permuting the two sides of a permuted range keeps it a permutation. */
  lemma StepPermuted(s: seq<int>, s1: seq<int>, s2: seq<int>, s3: seq<int>, lo: int, q: int, hi: int)
    requires lo <= q < hi
    requires Permuted(s, s1, lo, hi) && Permuted(s1, s2, lo, q) && Permuted(s2, s3, q + 1, hi)
    ensures Permuted(s, s3, lo, hi)
  {
    Widen(s1, s2, lo, q, lo, hi);
    Widen(s2, s3, q + 1, hi, lo, hi);
    PermutedTrans(s1, s2, s3, lo, hi);
    PermutedTrans(s, s1, s3, lo, hi);
  }

  /** Sorting the two sides of a range split at its pivot sorts the range. */
  lemma StepSorted(s1: seq<int>, s2: seq<int>, s3: seq<int>, lo: int, q: int, hi: int)
    requires PivotAt(s1, lo, q, hi)
    requires Permuted(s1, s2, lo, q) && AscendingIn(s2, lo, q)
    requires Permuted(s2, s3, q + 1, hi) && AscendingIn(s3, q + 1, hi)
    ensures AscendingIn(s3, lo, hi)
  {
    var v := s1[q];
    PermutedBounds(s1, s2, lo, q, v);
    PermutedBounds(s2, s3, q + 1, hi, v);
    JoinSorted(s3, lo, q, hi);
  }

  /** Sorting both sides of a partitioned range sorts and permutes the range. */
  lemma QuicksortStep(s: seq<int>, s1: seq<int>, s2: seq<int>, s3: seq<int>, lo: int, p: int, n: int)
    requires 0 <= lo && 0 <= p < n && 1 < n && lo + n <= |s|
    requires Permuted(s, s1, lo, lo + n) && PivotAt(s1, lo, lo + p, lo + n)
    requires SortedFrom(s1, s2, lo, p) && SortedFrom(s2, s3, lo + p + 1, n - p - 1)
    ensures SortedFrom(s, s3, lo, n)
  {
    SortedPart(s1, s2, lo, p);
    SortedPart(s2, s3, lo + p + 1, n - p - 1);
    StepPermuted(s, s1, s2, s3, lo, lo + p, lo + n);
    StepSorted(s1, s2, s3, lo, lo + p, lo + n);
  }

  /** What a recursive call leaves in its range: untouched when it is at most one long, else permuted and ascending. */
  lemma SortedPart(s: seq<int>, t: seq<int>, lo: int, m: int)
    requires 0 <= lo && 0 <= m && lo + m <= |s|
    requires SortedFrom(s, t, lo, m)
    ensures Permuted(s, t, lo, lo + m) && AscendingIn(t, lo, lo + m)
  {
  }

  /**
   * quicksort(data + lo, n). The first scan reads one element past the range before
   * testing its bound, so a range of two or more needs a readable element after it,
   * as the caller's allocation of one extra slot provides.
   */
  method Quicksort(a: array<int>, lo: int, n: int)
    requires 0 <= lo <= a.Length
    requires n > 1 ==> lo + n < a.Length
    modifies a
    ensures SortedFrom(old(a[..]), a[..], lo, n)
    decreases n
  {
    if n <= 1 {
      return;
    }
    ghost var s := a[..];
    var p := Partition(a, lo, n);
    ghost var s1 := a[..];
    Quicksort(a, lo, p);
    ghost var s2 := a[..];
    Quicksort(a, lo + p + 1, n - p - 1);
    QuicksortStep(s, s1, s2, a[..], lo, p, n);
  }
}
