/** Tab-separated text: the shape of every header and row line the tool writes. */
module Text {
  import opened Orders

  /** Each field written after a separator. */
  function SepFields(fields: seq<string>, sep: string): string {
    if |fields| == 0 then "" else sep + fields[0] + SepFields(fields[1..], sep)
  }

  lemma {:induction false} SepFieldsSnoc(fields: seq<string>, f: string, sep: string)
    ensures SepFields(fields + [f], sep) == SepFields(fields, sep) + sep + f
  {
    if |fields| > 0 {
      assert (fields + [f])[1..] == fields[1..] + [f];
      SepFieldsSnoc(fields[1..], f, sep);
    }
  }

  /** Each field written after a tab, as the header and row printers do. */
  function TabFields(fields: seq<string>): string {
    SepFields(fields, "\t")
  }

  lemma TabFieldsSnoc(fields: seq<string>, f: string)
    ensures TabFields(fields + [f]) == TabFields(fields) + "\t" + f
  {
    SepFieldsSnoc(fields, f, "\t");
  }

  /** Writes each field after a tab onto the end of the text written so far. */
  method WriteTabFields(os: string, fields: seq<string>) returns (out: string)
    ensures out == os + TabFields(fields)
  {
    out := os;
    var i := 0;
    while i < |fields|
      invariant 0 <= i <= |fields|
      invariant out == os + TabFields(fields[..i])
    {
      TabFieldsSnoc(fields[..i], fields[i]);
      assert fields[..i + 1] == fields[..i] + [fields[i]];
      out := out + "\t" + fields[i];
      i := i + 1;
    }
    assert fields[..i] == fields;
  }

  /** No field holds the separator. */
  predicate SepFree(fields: seq<string>, sep: char) {
    forall k :: 0 <= k < |fields| ==> sep !in fields[k]
  }

  /** No field holds a tab, so tabs separate exactly the fields. */
  predicate TabFree(fields: seq<string>) {
    SepFree(fields, '\t')
  }

  /** The fields of a line: every occurrence of sep ends one field and starts the next. */
  function Split(s: string, sep: char): (r: seq<string>)
    ensures |r| >= 1
    decreases |s|
  {
    var i := IndexOf(s, sep);
    if i < 0 then [s] else [s[..i]] + Split(s[i + 1..], sep)
  }

  lemma SplitCons(a: string, b: string, sep: char)
    requires sep !in a
    ensures Split(a + [sep] + b, sep) == [a] + Split(b, sep)
  {
    var t := [sep] + b;
    var s := a + t;
    assert a + [sep] + b == s;
    assert IndexOf(t, sep) == 0;
    IndexOfAfter(a, t, sep);
    assert s[..|a|] == a;
    assert s[|a| + 1..] == b;
  }

  /** Splitting a line built from separator-free fields gives the fields back. */
  lemma {:induction false} SplitSepFields(first: string, fields: seq<string>, sep: char)
    requires sep !in first
    requires SepFree(fields, sep)
    ensures Split(first + SepFields(fields, [sep]), sep) == [first] + fields
    decreases |fields|
  {
    if |fields| == 0 {
      assert first + SepFields(fields, [sep]) == first;
      assert IndexOf(first, sep) < 0;
    } else {
      assert first + SepFields(fields, [sep]) == first + [sep] + (fields[0] + SepFields(fields[1..], [sep]));
      SplitCons(first, fields[0] + SepFields(fields[1..], [sep]), sep);
      SplitSepFields(fields[0], fields[1..], sep);
      assert fields == [fields[0]] + fields[1..];
    }
  }

  /** A line of tab-free fields, ended by a newline, splits back into its fields. */
  lemma LineFields(first: string, fields: seq<string>)
    requires '\t' !in first
    requires TabFree(fields)
    ensures var h := first + TabFields(fields) + "\n";
            h[|h| - 1] == '\n' && Split(h[..|h| - 1], '\t') == [first] + fields
  {
    var body := first + TabFields(fields);
    var h := body + "\n";
    assert h[..|h| - 1] == body;
    assert "\t" == ['\t'];
    SplitSepFields(first, fields, '\t');
  }

  /** The number of occurrences of c in s. */
  function Occurrences(s: string, c: char): nat {
    if |s| == 0 then 0 else Occurrences(s[..|s| - 1], c) + if s[|s| - 1] == c then 1 else 0
  }

  lemma {:induction false} OccurrencesAppend(a: string, b: string, c: char)
    ensures Occurrences(a + b, c) == Occurrences(a, c) + Occurrences(b, c)
    decreases |b|
  {
    if |b| == 0 {
      assert a + b == a;
    } else {
      assert (a + b)[..|a + b| - 1] == a + b[..|b| - 1];
      OccurrencesAppend(a, b[..|b| - 1], c);
    }
  }

  lemma {:induction false} OccurrencesAbsent(s: string, c: char)
    requires c !in s
    ensures Occurrences(s, c) == 0
  {
    if |s| > 0 {
      assert s[|s| - 1] in s;
      OccurrencesAbsent(s[..|s| - 1], c);
    }
  }

  /** Separator-free fields joined by a one-character separator hold one separator per field. */
  lemma {:induction false} OccurrencesSepFields(fields: seq<string>, sep: char)
    requires SepFree(fields, sep)
    ensures Occurrences(SepFields(fields, [sep]), sep) == |fields|
    decreases |fields|
  {
    if |fields| > 0 {
      var rest := SepFields(fields[1..], [sep]);
      assert SepFields(fields, [sep]) == [sep] + (fields[0] + rest);
      assert Occurrences([sep], sep) == 1 by {
        assert [sep][..0] == [];
      }
      OccurrencesAppend([sep], fields[0] + rest, sep);
      OccurrencesAppend(fields[0], rest, sep);
      OccurrencesAbsent(fields[0], sep);
      OccurrencesSepFields(fields[1..], sep);
    }
  }
}
