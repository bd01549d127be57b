/**
 * Ordered collections as the source uses them: a boost flat_set, a std::set and the
 * key order of a std::map or flat_map are all strictly increasing sequences under a
 * strict total order. The order is a parameter so that one definition serves both
 * the integer read lengths and the library names (std::string's operator<).
 */
module Orders {

  ghost predicate StrictTotalOrder<T(!new)>(lt: (T, T) -> bool) {
    && (forall x :: !lt(x, x))
    && (forall x, y, z :: lt(x, y) && lt(y, z) ==> lt(x, z))
    && (forall x, y :: x != y ==> lt(x, y) || lt(y, x))
  }

  predicate StrictlySorted<T>(s: seq<T>, lt: (T, T) -> bool) {
    forall i, j :: 0 <= i < j < |s| ==> lt(s[i], s[j])
  }

  function Elems<T>(s: seq<T>): set<T> {
    set x | x in s
  }

  lemma ElemsSnoc<T>(s: seq<T>, i: nat)
    requires i < |s|
    ensures Elems(s[..i + 1]) == Elems(s[..i]) + {s[i]}
  {
    assert s[..i + 1] == s[..i] + [s[i]];
  }

  predicate NatLess(a: nat, b: nat) {
    a < b
  }

  /** std::string's operator<: character by character, a proper prefix first. */
  predicate LexLess(a: string, b: string) {
    if |a| == 0 then |b| > 0
    else if |b| == 0 then false
    else if a[0] != b[0] then a[0] < b[0]
    else LexLess(a[1..], b[1..])
  }

  /** The position of x, or -1 (an iterator compared with end()). */
  function IndexOf<T(==)>(s: seq<T>, x: T): (r: int)
    ensures r == -1 <==> x !in s
    ensures 0 <= r ==> r < |s| && s[r] == x && x !in s[..r]
  {
    if |s| == 0 then -1
    else if s[0] == x then 0
    else
      var r := IndexOf(s[1..], x);
      assert s[1..][..if r < 0 then 0 else r] == s[1..1 + if r < 0 then 0 else r];
      if r < 0 then -1 else r + 1
  }

  /** Searching past a prefix that lacks x. */
  lemma {:induction false} IndexOfAfter<T>(a: seq<T>, b: seq<T>, x: T)
    requires x !in a
    ensures IndexOf(a + b, x) == if IndexOf(b, x) < 0 then -1 else |a| + IndexOf(b, x)
  {
    if |a| > 0 {
      assert (a + b)[1..] == a[1..] + b;
      IndexOfAfter(a[1..], b, x);
    } else {
      assert a + b == b;
    }
  }

  /** In a sequence without repetitions the position of an element is found again. */
  lemma SortedIndexOf<T(!new)>(s: seq<T>, j: nat, lt: (T, T) -> bool)
    requires StrictTotalOrder(lt) && StrictlySorted(s, lt) && j < |s|
    ensures IndexOf(s, s[j]) == j
  {
    var r := IndexOf(s, s[j]);
    assert s[r] == s[j];
  }

  /** The elements before position i of a sorted sequence all differ from the i-th. */
  lemma SortedDistinct<T(!new)>(s: seq<T>, i: nat, lt: (T, T) -> bool)
    requires StrictTotalOrder(lt) && StrictlySorted(s, lt) && i < |s|
    ensures forall k :: 0 <= k < i ==> s[k] != s[i]
  {
    forall k | 0 <= k < i ensures s[k] != s[i] {
      assert lt(s[k], s[i]);
    }
  }

  /** Insertion into a sorted set: nothing happens when x is already present. */
  function Insert<T(==)>(s: seq<T>, x: T, lt: (T, T) -> bool): seq<T> {
    if |s| == 0 then [x]
    else if x == s[0] then s
    else if lt(x, s[0]) then [x] + s
    else [s[0]] + Insert(s[1..], x, lt)
  }

  lemma {:induction false} InsertElems<T>(s: seq<T>, x: T, lt: (T, T) -> bool)
    ensures Elems(Insert(s, x, lt)) == Elems(s) + {x}
  {
    if |s| == 0 || x == s[0] {
      assert |s| > 0 ==> s[0] in Elems(s);
    } else if lt(x, s[0]) {
      assert Elems([x] + s) == {x} + Elems(s);
    } else {
      InsertElems(s[1..], x, lt);
      var t := Insert(s[1..], x, lt);
      assert Elems([s[0]] + t) == {s[0]} + Elems(t);
      assert s == [s[0]] + s[1..];
      assert Elems(s) == {s[0]} + Elems(s[1..]);
    }
  }

  lemma {:induction false} InsertSorted<T(!new)>(s: seq<T>, x: T, lt: (T, T) -> bool)
    requires StrictTotalOrder(lt) && StrictlySorted(s, lt)
    ensures StrictlySorted(Insert(s, x, lt), lt)
    ensures Elems(Insert(s, x, lt)) == Elems(s) + {x}
  {
    InsertElems(s, x, lt);
    if |s| == 0 || x == s[0] {
    } else if lt(x, s[0]) {
      forall y | y in Elems(s) ensures lt(x, y) {
        FirstIsLeast(s, y, lt);
      }
      ConsSorted(x, s, lt);
    } else {
      TailSorted(s, lt);
      TailAbove(s, lt);
      InsertSorted(s[1..], x, lt);
      assert lt(s[0], x);
      ConsSorted(s[0], Insert(s[1..], x, lt), lt);
    }
  }

  /** Putting an element below all others in front keeps a sequence sorted. */
  lemma ConsSorted<T>(x: T, s: seq<T>, lt: (T, T) -> bool)
    requires StrictlySorted(s, lt)
    requires forall y :: y in Elems(s) ==> lt(x, y)
    ensures StrictlySorted([x] + s, lt)
  {
    var r := [x] + s;
    forall i, j | 0 <= i < j < |r| ensures lt(r[i], r[j]) {
      assert r[j] == s[j - 1];
      assert s[j - 1] in Elems(s);
      if i > 0 {
        assert r[i] == s[i - 1];
      }
    }
  }

  /** The first element of a sorted sequence is below every other element. */
  lemma FirstIsLeast<T>(s: seq<T>, y: T, lt: (T, T) -> bool)
    requires StrictlySorted(s, lt) && y in Elems(s)
    ensures |s| > 0 && (y == s[0] || lt(s[0], y))
  {
    var k :| 0 <= k < |s| && s[k] == y;
    if k > 0 {
      assert lt(s[0], s[k]);
    }
  }

  lemma TailSorted<T>(s: seq<T>, lt: (T, T) -> bool)
    requires StrictlySorted(s, lt) && |s| > 0
    ensures StrictlySorted(s[1..], lt)
  {
    forall i, j | 0 <= i < j < |s[1..]| ensures lt(s[1..][i], s[1..][j]) {
      assert s[1..][i] == s[i + 1] && s[1..][j] == s[j + 1];
    }
  }

  lemma TailAbove<T>(s: seq<T>, lt: (T, T) -> bool)
    requires StrictlySorted(s, lt) && |s| > 0
    ensures forall y :: y in Elems(s[1..]) ==> lt(s[0], y)
  {
    forall y | y in Elems(s[1..]) ensures lt(s[0], y) {
      var k :| 0 <= k < |s[1..]| && s[1..][k] == y;
      assert s[k + 1] == y;
    }
  }

  lemma TailElems<T(!new)>(s: seq<T>, lt: (T, T) -> bool)
    requires StrictTotalOrder(lt) && StrictlySorted(s, lt) && |s| > 0
    ensures Elems(s[1..]) == Elems(s) - {s[0]}
  {
    assert s == [s[0]] + s[1..];
    TailAbove(s, lt);
    assert !lt(s[0], s[0]);
  }

  /** In a sorted sequence the order of two elements decides the order of their positions. */
  lemma SortedPositions<T(!new)>(s: seq<T>, i: nat, j: nat, lt: (T, T) -> bool)
    requires StrictTotalOrder(lt) && StrictlySorted(s, lt)
    requires i < |s| && j < |s| && lt(s[i], s[j])
    ensures i < j
  {
  }

  /** In a strictly sorted sequence the position of an element is its rank: the number of smaller elements. */
  lemma {:induction false} PositionIsRank<T(!new)>(s: seq<T>, i: nat, lt: (T, T) -> bool)
    requires StrictTotalOrder(lt) && StrictlySorted(s, lt) && i < |s|
    ensures (set y | y in Elems(s) && lt(y, s[i])) == Elems(s[..i])
    ensures |Elems(s[..i])| == i
  {
    forall y | y in Elems(s) && lt(y, s[i]) ensures y in Elems(s[..i]) {
      var k :| 0 <= k < |s| && s[k] == y;
      SortedPositions(s, k, i, lt);
      assert s[..i][k] == y;
    }
    forall y | y in Elems(s[..i]) ensures y in Elems(s) && lt(y, s[i]) {
      var k :| 0 <= k < i && s[..i][k] == y;
      assert s[k] == y;
    }
    PrefixSorted(s, i, lt);
    DistinctCard(s[..i], lt);
  }

  /** The number of elements of a set below x. */
  function Rank<T(!new)>(s: set<T>, x: T, lt: (T, T) -> bool): nat {
    |set y | y in s && lt(y, x)|
  }

  /** The rank of the i-th element of a sorted sequence is i. */
  lemma RankIsPosition<T(!new)>(s: seq<T>, i: nat, lt: (T, T) -> bool)
    requires StrictTotalOrder(lt) && StrictlySorted(s, lt) && i < |s|
    ensures Rank(Elems(s), s[i], lt) == i
  {
    PositionIsRank(s, i, lt);
  }

  lemma PrefixSorted<T>(s: seq<T>, n: nat, lt: (T, T) -> bool)
    requires StrictlySorted(s, lt) && n <= |s|
    ensures StrictlySorted(s[..n], lt)
  {
    forall i, j | 0 <= i < j < n ensures lt(s[..n][i], s[..n][j]) {
      assert s[..n][i] == s[i] && s[..n][j] == s[j];
    }
  }

  lemma {:induction false} DistinctCard<T(!new)>(s: seq<T>, lt: (T, T) -> bool)
    requires StrictTotalOrder(lt) && StrictlySorted(s, lt)
    ensures |Elems(s)| == |s|
  {
    if |s| > 0 {
      TailSorted(s, lt);
      TailElems(s, lt);
      DistinctCard(s[1..], lt);
      assert s[0] in Elems(s);
    }
  }

  /** A finite set has exactly one strictly sorted enumeration. */
  lemma {:induction false} SortedUnique<T(!new)>(a: seq<T>, b: seq<T>, lt: (T, T) -> bool)
    requires StrictTotalOrder(lt) && StrictlySorted(a, lt) && StrictlySorted(b, lt)
    requires Elems(a) == Elems(b)
    ensures a == b
  {
    assert |a| > 0 ==> a[0] in Elems(a);
    assert |b| > 0 ==> b[0] in Elems(b);
    if |a| > 0 {
      FirstIsLeast(a, b[0], lt);
      FirstIsLeast(b, a[0], lt);
      assert a[0] == b[0];
      TailSorted(a, lt);
      TailSorted(b, lt);
      TailElems(a, lt);
      TailElems(b, lt);
      SortedUnique(a[1..], b[1..], lt);
      assert a == [a[0]] + a[1..] && b == [b[0]] + b[1..];
    }
  }

  lemma {:induction false} SortedSeqExists<T(!new)>(s: set<T>, lt: (T, T) -> bool)
    requires StrictTotalOrder(lt)
    ensures exists r :: StrictlySorted(r, lt) && Elems(r) == s
    decreases |s|
  {
    if s == {} {
      assert StrictlySorted([], lt) && Elems([]) == s;
    } else {
      var x :| x in s;
      SortedSeqExists(s - {x}, lt);
      var r :| StrictlySorted(r, lt) && Elems(r) == s - {x};
      InsertSorted(r, x, lt);
      assert StrictlySorted(Insert(r, x, lt), lt) && Elems(Insert(r, x, lt)) == s;
    }
  }

  /** The ascending enumeration of a finite set: what iterating a std::set or a sorted map's keys visits. */
  ghost function SortedSeq<T(!new)>(s: set<T>, lt: (T, T) -> bool): (r: seq<T>)
    requires StrictTotalOrder(lt)
    ensures StrictlySorted(r, lt) && Elems(r) == s
  {
    SortedSeqExists(s, lt);
    var r :| StrictlySorted(r, lt) && Elems(r) == s;
    r
  }

  /** Builds the ascending enumeration by inserting the elements one at a time. */
  method SortSet<T(==, !new)>(s: set<T>, lt: (T, T) -> bool) returns (r: seq<T>)
    requires StrictTotalOrder(lt)
    ensures r == SortedSeq(s, lt)
  {
    r := [];
    var rest := s;
    while rest != {}
      invariant rest <= s
      invariant StrictlySorted(r, lt) && Elems(r) == s - rest
      decreases |rest|
    {
      var x :| x in rest;
      InsertSorted(r, x, lt);
      r := Insert(r, x, lt);
      rest := rest - {x};
    }
    SortedUnique(r, SortedSeq(s, lt), lt);
  }

  lemma {:induction false} LexIrreflexive(a: string)
    ensures !LexLess(a, a)
  {
    if |a| > 0 {
      LexIrreflexive(a[1..]);
    }
  }

  lemma {:induction false} LexTransitive(a: string, b: string, c: string)
    requires LexLess(a, b) && LexLess(b, c)
    ensures LexLess(a, c)
  {
    if |a| > 0 && |b| > 0 && |c| > 0 && a[0] == b[0] && b[0] == c[0] {
      LexTransitive(a[1..], b[1..], c[1..]);
    }
  }

  lemma {:induction false} LexTotal(a: string, b: string)
    requires a != b
    ensures LexLess(a, b) || LexLess(b, a)
  {
    if |a| > 0 && |b| > 0 && a[0] == b[0] {
      assert a == [a[0]] + a[1..] && b == [b[0]] + b[1..];
      LexTotal(a[1..], b[1..]);
    }
  }

  lemma LexIsStrictTotalOrder()
    ensures StrictTotalOrder(LexLess)
  {
    forall a ensures !LexLess(a, a) {
      LexIrreflexive(a);
    }
    forall a, b, c | LexLess(a, b) && LexLess(b, c) ensures LexLess(a, c) {
      LexTransitive(a, b, c);
    }
    forall a, b | a != b ensures LexLess(a, b) || LexLess(b, a) {
      LexTotal(a, b);
    }
  }

  lemma NatIsStrictTotalOrder()
    ensures StrictTotalOrder(NatLess)
  {
  }
}
