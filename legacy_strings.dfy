/**
 * The string helpers of the older C implementation and the header parser built on
 * them: counting a character, cutting a string into its non-empty pieces, and reading
 * the ID and LB tags of the @RG header lines. A C string is modelled by the characters
 * before its terminating NUL; a fixed-size char buffer by a string, and an array of
 * such buffers by an array of strings.
 */
module LegacyStrings {
  import opened Orders
  import opened Text

  function Init(fs: seq<string>): seq<string>
    requires |fs| >= 1
  {
    fs[..|fs| - 1]
  }

  function Last(fs: seq<string>): string
    requires |fs| >= 1
  {
    fs[|fs| - 1]
  }

  /** The fields of p + [e] from those of p: a separator opens a new empty field, any other character extends the last one. */
  ghost predicate SnocSplits(p: string, e: char, c: char) {
    Split(p + [e], c) == if e == c then Split(p, c) + [""] else Init(Split(p, c)) + [Last(Split(p, c)) + [e]]
  }

  lemma SnocNoSeparator(p: string, e: char, c: char)
    requires c !in p
    ensures SnocSplits(p, e, c)
  {
    assert Split(p, c) == [p];
    if e == c {
      assert p + [c] == p + [c] + "";
      SplitCons(p, "", c);
      assert Split("", c) == [""];
    } else {
      assert c !in p + [e];
      assert Split(p + [e], c) == [p + [e]];
    }
  }

  lemma ConsSnoc(a: string, r: seq<string>, r': seq<string>, e: char, c: char)
    requires |r| >= 1
    requires r' == if e == c then r + [""] else Init(r) + [Last(r) + [e]]
    ensures [a] + r' == if e == c then [a] + r + [""] else Init([a] + r) + [Last([a] + r) + [e]]
  {
    if e != c {
      assert Init([a] + r) == [a] + Init(r);
    }
  }

  lemma SnocAfterSeparator(a: string, rest: string, e: char, c: char)
    requires c !in a && SnocSplits(rest, e, c)
    ensures SnocSplits(a + [c] + rest, e, c)
  {
    var p := a + [c] + rest;
    SplitCons(a, rest, c);
    SplitCons(a, rest + [e], c);
    assert p + [e] == a + [c] + (rest + [e]);
    ConsSnoc(a, Split(rest, c), Split(rest + [e], c), e, c);
  }

  /** Splitting a string one character longer. */
  lemma {:induction false} SplitSnoc(p: string, e: char, c: char)
    ensures Split(p + [e], c) == if e == c then Split(p, c) + [""] else Init(Split(p, c)) + [Last(Split(p, c)) + [e]]
    decreases |p|
  {
    var i := IndexOf(p, c);
    if i < 0 {
      SnocNoSeparator(p, e, c);
    } else {
      var a, rest := p[..i], p[i + 1..];
      assert p == a + [c] + rest;
      SplitSnoc(rest, e, c);
      SnocAfterSeparator(a, rest, e, c);
    }
  }

  /** A string has one more field than separators. */
  lemma {:induction false} SplitCount(s: string, c: char)
    ensures |Split(s, c)| == Occurrences(s, c) + 1
    decreases |s|
  {
    if |s| == 0 {
      assert Split(s, c) == [s];
    } else {
      var p := s[..|s| - 1];
      assert s == p + [s[|s| - 1]];
      SplitSnoc(p, s[|s| - 1], c);
      SplitCount(p, c);
    }
  }

  /** countChNUM: the number of times c occurs in s. */
  method CountChNUM(s: string, c: char) returns (z: int)
    ensures z == Occurrences(s, c)
  {
    z := 0;
    var x := 0;
    while x < |s|
      invariant 0 <= x <= |s|
      invariant z == Occurrences(s[..x], c)
    {
      assert s[..x + 1][..x] == s[..x];
      if s[x] == c {
        z := z + 1;
      }
      x := x + 1;
    }
    assert s[..x] == s;
  }

  /** The non-empty strings of fs, in order. */
  function NonEmpty(fs: seq<string>): (r: seq<string>)
    ensures |r| <= |fs|
    ensures forall k :: 0 <= k < |r| ==> r[k] != ""
  {
    if |fs| == 0 then []
    else NonEmpty(Init(fs)) + if Last(fs) == "" then [] else [Last(fs)]
  }

  lemma {:induction false} NonEmptyAppend(a: seq<string>, b: seq<string>)
    ensures NonEmpty(a + b) == NonEmpty(a) + NonEmpty(b)
    decreases |b|
  {
    if |b| == 0 {
      assert a + b == a;
    } else {
      assert Init(a + b) == a + Init(b);
      NonEmptyAppend(a, Init(b));
    }
  }

  /** Strings that are all non-empty are kept as they are. */
  lemma {:induction false} NonEmptyKeeps(fs: seq<string>)
    requires forall k :: 0 <= k < |fs| ==> fs[k] != ""
    ensures NonEmpty(fs) == fs
  {
    if |fs| > 0 {
      NonEmptyKeeps(Init(fs));
    }
  }

  /** The pieces of s between occurrences of c, dropping the empty ones: what cutting a string at c is meant to give. */
  function Tokens(s: string, c: char): seq<string> {
    NonEmpty(Split(s, c))
  }

  /**
   * What separateString stores: the non-empty pieces of s between occurrences of c
   * and, when s ends with c, one more piece holding just c (line 176 copies the last
   * character whatever it is).
   */
  function SeparatedAsWritten(s: string, c: char): seq<string> {
    if |s| == 0 then [] else Tokens(s, c) + if s[|s| - 1] == c then [[c]] else []
  }

  /** A string has at most one more piece than separators, so a container of that many slots suffices. */
  lemma SeparatedFits(s: string, c: char)
    ensures |SeparatedAsWritten(s, c)| <= Occurrences(s, c) + 1
  {
    SplitCount(s, c);
    if |s| > 0 && s[|s| - 1] == c {
      var p := s[..|s| - 1];
      assert s == p + [c];
      SplitSnoc(p, c, c);
      SplitCount(p, c);
      NonEmptyAppend(Split(p, c), [""]);
      assert Occurrences(s, c) == Occurrences(p, c) + 1;
    }
  }

  /** When s does not end with c, separateString gives exactly the non-empty pieces. */
  lemma SeparatedIsTokens(s: string, c: char)
    requires |s| > 0 ==> s[|s| - 1] != c
    ensures SeparatedAsWritten(s, c) == Tokens(s, c)
  {
    if |s| == 0 {
      assert Split(s, c) == [""];
    }
  }

  /** The last character of a string built from separator-free fields is the last field's. */
  lemma SepFieldsLast(first: string, fields: seq<string>, c: char)
    requires first != "" && forall k :: 0 <= k < |fields| ==> fields[k] != ""
    ensures var s := first + SepFields(fields, [c]);
            |s| > 0 && s[|s| - 1] == if |fields| == 0 then first[|first| - 1] else Last(fields)[|Last(fields)| - 1]
  {
    if |fields| == 0 {
      assert first + SepFields(fields, [c]) == first;
    } else {
      SepFieldsSnoc(Init(fields), Last(fields), [c]);
      assert Init(fields) + [Last(fields)] == fields;
    }
  }

  lemma TokensOfFields(first: string, fields: seq<string>, c: char)
    requires first != "" && c !in first && SepFree(fields, c)
    requires forall k :: 0 <= k < |fields| ==> fields[k] != ""
    ensures Tokens(first + SepFields(fields, [c]), c) == [first] + fields
  {
    var all := [first] + fields;
    SplitSepFields(first, fields, c);
    forall k | 0 <= k < |all| ensures all[k] != "" {
      if k > 0 {
        assert all[k] == fields[k - 1];
      }
    }
    NonEmptyKeeps(all);
  }

  lemma LastNotSeparator(first: string, fields: seq<string>, c: char)
    requires first != "" && c !in first && SepFree(fields, c)
    requires forall k :: 0 <= k < |fields| ==> fields[k] != ""
    ensures var s := first + SepFields(fields, [c]); |s| > 0 && s[|s| - 1] != c
  {
    SepFieldsLast(first, fields, c);
    if |fields| == 0 {
      assert first[|first| - 1] in first;
    } else {
      assert Last(fields)[|Last(fields)| - 1] in Last(fields);
    }
  }

  /** Cutting a string built from non-empty, separator-free fields gives the fields back. */
  lemma TokensRoundTrip(first: string, fields: seq<string>, c: char)
    requires first != "" && c !in first && SepFree(fields, c)
    requires forall k :: 0 <= k < |fields| ==> fields[k] != ""
    ensures SeparatedAsWritten(first + SepFields(fields, [c]), c) == [first] + fields
  {
    TokensOfFields(first, fields, c);
    LastNotSeparator(first, fields, c);
    SeparatedIsTokens(first + SepFields(fields, [c]), c);
  }

  /** Cutting a longer string never gives fewer pieces. */
  lemma {:induction false} TokensGrow(s: string, c: char, i: nat)
    requires i <= |s|
    ensures |Tokens(s[..i], c)| <= |Tokens(s, c)|
    decreases |s| - i
  {
    if i < |s| {
      var p := s[..i];
      assert s[..i + 1] == p + [s[i]];
      SplitSnoc(p, s[i], c);
      var sp := Split(p, c);
      if s[i] == c {
        NonEmptyAppend(sp, [""]);
      } else {
        assert sp == Init(sp) + [Last(sp)];
        NonEmptyAppend(Init(sp), [Last(sp)]);
        NonEmptyAppend(Init(sp), [Last(sp) + [s[i]]]);
      }
      TokensGrow(s, c, i + 1);
    } else {
      assert s[..i] == s;
    }
  }

  /**
   * The state of separateString before it looks at s[x]: the pieces stored so far and
   * the piece being collected. When s[x] is the separator, the piece before it has
   * already been stored, one step early, by the look-ahead at line 192.
   */
  ghost predicate Collecting(s: string, c: char, x: int, stored: seq<string>, buff: string) {
    0 <= x < |s|
    && if s[x] == c then stored == Tokens(s[..x], c) && buff == ""
       else stored == NonEmpty(Init(Split(s[..x], c))) && buff == Last(Split(s[..x], c))
  }

  lemma CollectingStart(s: string, c: char)
    requires |s| > 0
    ensures Collecting(s, c, 0, [], "")
  {
    assert s[..0] == "";
    assert Split("", c) == [""];
  }

  /** The last character ends the last piece (lines 174-185). */
  lemma CollectLast(s: string, c: char, x: int, stored: seq<string>, buff: string)
    requires Collecting(s, c, x, stored, buff) && x + 1 == |s|
    ensures stored + [buff + [s[x]]] == SeparatedAsWritten(s, c)
  {
    var p, e := s[..x], s[x];
    assert s == p + [e];
    SplitSnoc(p, e, c);
    var sp := Split(p, c);
    if e == c {
      NonEmptyAppend(sp, [""]);
      NonEmptySingle("");
      assert Tokens(s, c) == Tokens(p, c);
      assert SeparatedAsWritten(s, c) == Tokens(s, c) + [[c]];
      assert stored == Tokens(p, c) && buff + [e] == [c];
    } else {
      var w := Last(sp) + [e];
      NonEmptyAppend(Init(sp), [w]);
      NonEmptySingle(w);
      assert Tokens(s, c) == NonEmpty(Init(sp)) + [w];
      assert SeparatedAsWritten(s, c) == Tokens(s, c) + [];
      assert stored == NonEmpty(Init(sp)) && buff + [e] == w;
    }
  }

  lemma NonEmptySingle(w: string)
    ensures NonEmpty([w]) == if w == "" then [] else [w]
  {
    assert Init([w]) == [];
  }

  /** A separator (not the last character) is skipped. */
  lemma CollectSeparator(s: string, c: char, x: int, stored: seq<string>, buff: string)
    requires Collecting(s, c, x, stored, buff) && x + 1 < |s| && s[x] == c
    ensures Collecting(s, c, x + 1, stored, buff)
  {
    var p := s[..x];
    assert s[..x + 1] == p + [c];
    SplitSnoc(p, c, c);
    NonEmptyAppend(Split(p, c), [""]);
    if s[x + 1] != c {
      assert Init(Split(s[..x + 1], c)) == Split(p, c);
    }
  }

  /** Any other character extends the piece; when a separator follows, the piece is stored (lines 187-206). */
  lemma CollectChar(s: string, c: char, x: int, stored: seq<string>, buff: string)
    requires Collecting(s, c, x, stored, buff) && x + 1 < |s| && s[x] != c
    ensures s[x + 1] == c ==> Collecting(s, c, x + 1, stored + [buff + [s[x]]], "")
    ensures s[x + 1] != c ==> Collecting(s, c, x + 1, stored, buff + [s[x]])
  {
    var p := s[..x];
    assert s[..x + 1] == p + [s[x]];
    SplitSnoc(p, s[x], c);
    var sp := Split(p, c);
    assert sp == Init(sp) + [Last(sp)];
    if s[x + 1] == c {
      NonEmptyAppend(Init(sp), [Last(sp) + [s[x]]]);
    } else {
      assert Init(Split(s[..x + 1], c)) == Init(sp);
    }
  }

  /**
   * The whole state of separateString after x characters: tokenNum pieces stored, y of
   * them counted in the slot index (one fewer once the last is stored), and buff the
   * piece being collected.
   */
  ghost predicate Separating(s: string, c: char, x: int, y: int, tokenNum: int, stored: seq<string>, buff: string) {
    && 0 <= x <= |s| && 0 <= y <= tokenNum == |stored| <= |SeparatedAsWritten(s, c)|
    && (x < |s| ==> tokenNum == y && Collecting(s, c, x, stored, buff))
    && (x == |s| ==> stored == SeparatedAsWritten(s, c))
  }

  lemma StepStart(s: string, c: char)
    ensures Separating(s, c, 0, 0, 0, [], "")
  {
    if |s| > 0 {
      CollectingStart(s, c);
    }
  }

  lemma StepLast(s: string, c: char, x: int, y: int, n: int, stored: seq<string>, buff: string)
    requires Separating(s, c, x, y, n, stored, buff) && x + 1 == |s|
    ensures Separating(s, c, x + 1, y, n + 1, stored + [buff + [s[x]]], buff)
  {
    CollectLast(s, c, x, stored, buff);
  }

  lemma StepFlush(s: string, c: char, x: int, y: int, n: int, stored: seq<string>, buff: string)
    requires Separating(s, c, x, y, n, stored, buff) && x + 1 < |s| && s[x] != c && s[x + 1] == c
    ensures Separating(s, c, x + 1, y + 1, n + 1, stored + [buff + [s[x]]], "")
  {
    CollectChar(s, c, x, stored, buff);
    TokensGrow(s, c, x + 1);
  }

  lemma StepExtend(s: string, c: char, x: int, y: int, n: int, stored: seq<string>, buff: string)
    requires Separating(s, c, x, y, n, stored, buff) && x + 1 < |s| && s[x] != c && s[x + 1] != c
    ensures Separating(s, c, x + 1, y, n, stored, buff + [s[x]])
  {
    CollectChar(s, c, x, stored, buff);
  }

  lemma StepSkip(s: string, c: char, x: int, y: int, n: int, stored: seq<string>, buff: string)
    requires Separating(s, c, x, y, n, stored, buff) && x + 1 < |s| && s[x] == c
    ensures Separating(s, c, x + 1, y, n, stored, buff)
  {
    CollectSeparator(s, c, x, stored, buff);
  }

  /**
   * separateString: stores the pieces of s in container[0], container[1], ... and
   * returns their number; the other slots keep what they held.
   */
  method SeparateString(s: string, c: char, container: array<string>) returns (tokenNum: int)
    requires |SeparatedAsWritten(s, c)| <= container.Length
    modifies container
    ensures tokenNum == |SeparatedAsWritten(s, c)|
    ensures container[..tokenNum] == SeparatedAsWritten(s, c)
    ensures container[tokenNum..] == old(container[tokenNum..])
  {
    ghost var before := container[..];
    ghost var stored: seq<string> := [];
    var buff := "";
    var y := 0;
    tokenNum := 0;
    var x := 0;
    StepStart(s, c);
    while x < |s|
      invariant Separating(s, c, x, y, tokenNum, stored, buff)
      invariant container[..tokenNum] == stored
      invariant forall k :: tokenNum <= k < container.Length ==> container[k] == before[k]
    {
      y, tokenNum, stored, buff := SeparateStep(s, c, container, x, y, tokenNum, stored, buff);
      x := x + 1;
    }
    assert container[tokenNum..] == before[tokenNum..];
  }

  /** One pass of the loop of separateString, over s[x] (lines 174-207). */
  method SeparateStep(s: string, c: char, container: array<string>, x: int, y: int, tokenNum: int, ghost stored: seq<string>, buff: string)
    returns (y': int, tokenNum': int, ghost stored': seq<string>, buff': string)
    requires Separating(s, c, x, y, tokenNum, stored, buff) && x < |s|
    requires |SeparatedAsWritten(s, c)| <= container.Length && container[..tokenNum] == stored
    modifies container
    ensures Separating(s, c, x + 1, y', tokenNum', stored', buff')
    ensures container[..tokenNum'] == stored' && tokenNum <= tokenNum'
    ensures forall k :: tokenNum' <= k < container.Length ==> container[k] == old(container[k])
  {
    y', tokenNum', stored', buff' := y, tokenNum, stored, buff;
    if x + 1 == |s| {
      StepLast(s, c, x, y, tokenNum, stored, buff);
      var last := buff + [s[x]];
      if |last| > 0 {
        container[y] := last;
        stored' := stored + [last];
        tokenNum' := tokenNum + 1;
        assert container[..tokenNum'] == stored';
      }
    } else if s[x] != c {
      if s[x + 1] == c {
        StepFlush(s, c, x, y, tokenNum, stored, buff);
      } else {
        StepExtend(s, c, x, y, tokenNum, stored, buff);
      }
      buff' := buff + [s[x]];
      if s[x + 1] == c {
        if |buff'| > 0 {
          container[y] := buff';
          stored' := stored + [buff'];
          y' := y + 1;
          tokenNum' := tokenNum + 1;
          assert container[..tokenNum'] == stored';
        }
        buff' := "";
      }
    } else {
      StepSkip(s, c, x, y, tokenNum, stored, buff);
    }
  }
}
