/**
 * StreamJoin: writes the items of a sequence, each through a transform, separated
 * by a delimiter, or a placeholder when there are none. The warning summary uses it
 * to list read lengths and libraries.
 */
module StreamJoining {
  import opened Text

  /** The transformed items, in order. */
  function MapText<T>(xfm: T -> string, items: seq<T>): (r: seq<string>)
    ensures |r| == |items| && forall i :: 0 <= i < |items| ==> r[i] == xfm(items[i])
  {
    seq(|items|, i requires 0 <= i < |items| => xfm(items[i]))
  }

  /** What the join writes: the placeholder, or the first item followed by delimiter and item for each later one. */
  function Joined<T>(items: seq<T>, empty: string, delim: string, xfm: T -> string): string {
    if |items| == 0 then empty else JoinedItems(items, delim, xfm)
  }

  function JoinedItems<T>(items: seq<T>, delim: string, xfm: T -> string): string
    requires |items| >= 1
  {
    if |items| == 1 then xfm(items[0])
    else JoinedItems(items[..|items| - 1], delim, xfm) + delim + xfm(items[|items| - 1])
  }

  lemma MapTextSnoc<T>(xfm: T -> string, items: seq<T>, x: T)
    ensures MapText(xfm, items + [x]) == MapText(xfm, items) + [xfm(x)]
  {
  }

  /** The joined items are the first one followed by each later one after a delimiter. */
  lemma {:induction false} JoinedItemsFields<T>(items: seq<T>, delim: string, xfm: T -> string)
    requires |items| >= 1
    ensures JoinedItems(items, delim, xfm) == xfm(items[0]) + SepFields(MapText(xfm, items[1..]), delim)
    decreases |items|
  {
    if |items| == 1 {
      assert items[1..] == [];
      assert MapText(xfm, items[1..]) == [];
    } else {
      var init := items[..|items| - 1];
      var x := items[|items| - 1];
      JoinedItemsFields(init, delim, xfm);
      assert init[0] == items[0];
      assert items[1..] == init[1..] + [x];
      MapTextSnoc(xfm, init[1..], x);
      SepFieldsSnoc(MapText(xfm, init[1..]), xfm(x), delim);
    }
  }

  /** The default placeholder and delimiter. */
  const DefaultEmpty: string := "."
  const DefaultDelim: string := ","

  /**
   * A join whose delimiter is one character that no transformed item holds splits back
   * into the transformed items, so it holds exactly one delimiter fewer than items.
   */
  lemma JoinedSplits<T>(items: seq<T>, empty: string, d: char, xfm: T -> string)
    requires |items| >= 1 && forall i :: 0 <= i < |items| ==> d !in xfm(items[i])
    ensures Split(Joined(items, empty, [d], xfm), d) == MapText(xfm, items)
    ensures Occurrences(Joined(items, empty, [d], xfm), d) == |items| - 1
  {
    var rest := MapText(xfm, items[1..]);
    JoinedItemsFields(items, [d], xfm);
    assert SepFree(rest, d) by {
      forall k | 0 <= k < |rest| ensures d !in rest[k] {
        assert rest[k] == xfm(items[k + 1]);
      }
    }
    SplitSepFields(xfm(items[0]), rest, d);
    assert [xfm(items[0])] + rest == MapText(xfm, items);
    OccurrencesAppend(xfm(items[0]), SepFields(rest, [d]), d);
    OccurrencesAbsent(xfm(items[0]), d);
    OccurrencesSepFields(rest, d);
  }

  /** A join of a sequence with its output settings. */
  class StreamJoin<T> {
    const items: seq<T>
    var empty: string
    var delim: string
    const xfm: T -> string

    constructor (items: seq<T>, xfm: T -> string)
      ensures this.items == items && this.xfm == xfm
      ensures empty == DefaultEmpty && delim == DefaultDelim
    {
      this.items := items;
      this.xfm := xfm;
      empty := DefaultEmpty;
      delim := DefaultDelim;
    }

    /** Replaces the placeholder; returns the same join. */
    method EmptyString(e: string) returns (r: StreamJoin<T>)
      modifies this`empty
      ensures empty == e && r == this
    {
      empty := e;
      r := this;
    }

    /** Replaces the delimiter; returns the same join. */
    method Delimiter(d: string) returns (r: StreamJoin<T>)
      modifies this`delim
      ensures delim == d && r == this
    {
      delim := d;
      r := this;
    }

    /** Writes the join onto the end of os. */
    method WriteTo(os: string) returns (out: string)
      ensures out == os + Joined(items, empty, delim, xfm)
    {
      if |items| == 0 {
        out := os + empty;
      } else {
        out := WriteItems(os);
      }
    }

    /** Writes the first item, then the delimiter and the item for each later one. */
    method WriteItems(os: string) returns (out: string)
      requires |items| >= 1
      ensures out == os + Joined(items, empty, delim, xfm)
    {
      out := os + xfm(items[0]);
      assert items[..1] == [items[0]];
      var i := 1;
      while i < |items|
        invariant 1 <= i <= |items|
        invariant out == os + JoinedItems(items[..i], delim, xfm)
      {
        assert items[..i + 1][..i] == items[..i];
        out := out + delim + xfm(items[i]);
        i := i + 1;
      }
      assert items[..i] == items;
    }

    /** The join as a string: what writing it to an empty stream gives. */
    method ToString() returns (s: string)
      ensures s == Joined(items, empty, delim, xfm)
    {
      s := WriteTo("");
    }
  }
}
