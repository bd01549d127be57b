/**
 * parseRGlines of the older C implementation: it cuts the BAM header text into lines,
 * counts the @RG lines and, for each of them, stores the values of its LB: and ID:
 * fields into the caller's arrays. The model follows the code as written: the number
 * of fields read on each line is the largest tab count of any @RG line, the field
 * buffers are shared by all lines, and a tag a line lacks keeps the value of the
 * line before. The corrected reading, each line's own fields with empty defaults,
 * is ReadGroupsFixed.
 */
module LegacyHeader {
  import opened Orders
  import opened Text
  import opened LegacyStrings

  /** tok starts with tag: the three-character compare done with strncpy and strcmp. */
  predicate HasTag(tok: string, tag: string) {
    |tok| >= |tag| && tok[..|tag|] == tag
  }

  predicate IsRgLine(line: string) {
    HasTag(line, "@RG")
  }

  /**
   * The buffers of base after the first |toks| were overwritten by toks, as
   * separateString leaves an array of buffers.
   */
  function Overlay(base: seq<string>, toks: seq<string>): (r: seq<string>)
    ensures |r| >= |base| && |r| >= |toks| && r[..|toks|] == toks
    ensures |toks| <= |base| ==> |r| == |base| && r[|toks|..] == base[|toks|..]
  {
    if |toks| <= |base| then toks + base[|toks|..] else toks
  }

  lemma OverlayOf(base: seq<string>, a: seq<string>, toks: seq<string>)
    requires |a| == |base| && |toks| <= |a|
    requires a[..|toks|] == toks && a[|toks|..] == base[|toks|..]
    ensures a == Overlay(base, toks)
  {
    assert a == a[..|toks|] + a[|toks|..];
  }

  /** The first k buffers, or all of them when there are fewer. */
  function Take(s: seq<string>, k: nat): (r: seq<string>)
    ensures |r| == if k <= |s| then k else |s|
  {
    if k <= |s| then s[..k] else s
  }

  /**
   * The header lines parseRGlines walks: the buffers 0 .. n-1 of an array of n + 1
   * empty buffers after separateString cut the header at newlines, n being the
   * number of newlines (lines 238-250).
   */
  function HeaderLines(header: string): (r: seq<string>)
    ensures |r| == Occurrences(header, '\n')
  {
    var n := Occurrences(header, '\n');
    Overlay(seq(n + 1, _ => ""), SeparatedAsWritten(header, '\n'))[..n]
  }

  /** The number of @RG lines. */
  function RgCount(lines: seq<string>): (r: nat)
    ensures r <= |lines|
  {
    if |lines| == 0 then 0 else RgCount(Init(lines)) + if IsRgLine(Last(lines)) then 1 else 0
  }

  /** The largest tab count of an @RG line, 0 when there is none (lines 252-268). */
  function MaxTabs(lines: seq<string>): nat {
    if |lines| == 0 then 0
    else
      var m := MaxTabs(Init(lines));
      if IsRgLine(Last(lines)) && Occurrences(Last(lines), '\t') > m then Occurrences(Last(lines), '\t') else m
  }

  /** No @RG line has more tabs than MaxTabs. */
  lemma {:induction false} MaxTabsBound(lines: seq<string>, i: int)
    requires 0 <= i < |lines| && IsRgLine(lines[i])
    ensures Occurrences(lines[i], '\t') <= MaxTabs(lines)
  {
    if i < |lines| - 1 {
      MaxTabsBound(Init(lines), i);
    }
  }

  /** MaxTabs is the tab count of some @RG line, or 0. */
  lemma {:induction false} MaxTabsAttained(lines: seq<string>)
    ensures MaxTabs(lines) == 0 || exists i :: 0 <= i < |lines| && IsRgLine(lines[i]) && Occurrences(lines[i], '\t') == MaxTabs(lines)
  {
    if |lines| > 0 && MaxTabs(lines) != 0 {
      var m := MaxTabs(Init(lines));
      if MaxTabs(lines) == m {
        MaxTabsAttained(Init(lines));
        var i :| 0 <= i < |Init(lines)| && IsRgLine(Init(lines)[i]) && Occurrences(Init(lines)[i], '\t') == m;
        assert lines[i] == Init(lines)[i];
      } else {
        assert lines[|lines| - 1] == Last(lines);
      }
    }
  }

  /** A prefix of the lines holds no more @RG lines than all of them. */
  lemma {:induction false} RgCountGrow(lines: seq<string>, i: nat)
    requires i <= |lines|
    ensures RgCount(lines[..i]) <= RgCount(lines)
    decreases |lines|
  {
    if i < |lines| {
      assert lines[..i] == Init(lines)[..i];
      RgCountGrow(Init(lines), i);
    } else {
      assert lines[..i] == lines;
    }
  }

  /** The value after tag of the last buffer of toks that starts with tag, else prev (lines 290-300). */
  function TagValue(toks: seq<string>, tag: string, prev: string): string {
    if |toks| == 0 then prev
    else if HasTag(Last(toks), tag) then Last(toks)[|tag|..]
    else TagValue(Init(toks), tag, prev)
  }

  /** TagValue finds the last buffer carrying the tag. */
  lemma {:induction false} TagValueFinds(toks: seq<string>, tag: string, prev: string, i: int)
    requires 0 <= i < |toks| && HasTag(toks[i], tag)
    requires forall j :: i < j < |toks| ==> !HasTag(toks[j], tag)
    ensures TagValue(toks, tag, prev) == toks[i][|tag|..]
  {
    if i < |toks| - 1 {
      assert !HasTag(toks[|toks| - 1], tag);
      TagValueFinds(Init(toks), tag, prev, i);
    }
  }

  /** Without a buffer carrying the tag, the value before is kept. */
  lemma {:induction false} TagValueAbsent(toks: seq<string>, tag: string, prev: string)
    requires forall j :: 0 <= j < |toks| ==> !HasTag(toks[j], tag)
    ensures TagValue(toks, tag, prev) == prev
  {
    if |toks| > 0 {
      assert !HasTag(toks[|toks| - 1], tag);
      TagValueAbsent(Init(toks), tag, prev);
    }
  }

  /** A first buffer without the tag makes no difference. */
  lemma {:induction false} TagValueCons(a: string, toks: seq<string>, tag: string, prev: string)
    requires !HasTag(a, tag)
    ensures TagValue([a] + toks, tag, prev) == TagValue(toks, tag, prev)
  {
    if |toks| > 0 {
      assert Init([a] + toks) == [a] + Init(toks);
      assert Last([a] + toks) == Last(toks);
      TagValueCons(a, Init(toks), tag, prev);
    }
  }

  /**
   * What the second pass has after a prefix of the lines: the shared field buffers,
   * the LB and ID values last copied (conTemp and conTemp1), and the values stored.
   */
  datatype ScanState = ScanState(content: seq<string>, lb: string, id: string, lbs: seq<string>, ids: seq<string>)

  /** Before the second pass: tabs + 1 empty field buffers, empty values, nothing stored. */
  function ScanStart(tabs: nat): ScanState {
    ScanState(seq(tabs + 1, _ => ""), "", "", [], [])
  }

  /**
   * The second pass as written (lines 279-307): each @RG line is cut at tabs into the
   * shared buffers, only the first tabs buffers are searched for ID: and LB:, and the
   * two values, stale or not, are stored.
   */
  function RgScan(lines: seq<string>, tabs: nat, init: ScanState): (r: ScanState)
    ensures |r.lbs| == |init.lbs| + RgCount(lines) && |r.ids| == |init.ids| + RgCount(lines)
  {
    if |lines| == 0 then init
    else
      var st := RgScan(Init(lines), tabs, init);
      if IsRgLine(Last(lines)) then RgStep(st, Last(lines), tabs) else st
  }

  /** One @RG line of the second pass, as written. */
  function RgStep(st: ScanState, line: string, tabs: nat): (r: ScanState)
    ensures |r.lbs| == |st.lbs| + 1 && |r.ids| == |st.ids| + 1
  {
    var content := Overlay(st.content, SeparatedAsWritten(line, '\t'));
    var lb := TagValue(Take(content, tabs), "LB:", st.lb);
    var id := TagValue(Take(content, tabs), "ID:", st.id);
    ScanState(content, lb, id, st.lbs + [lb], st.ids + [id])
  }

  /** The scan of one more line. */
  lemma RgScanSnoc(lines: seq<string>, i: int, tabs: nat)
    requires 0 <= i < |lines|
    ensures RgScan(lines[..i + 1], tabs, ScanStart(tabs))
            == if IsRgLine(lines[i]) then RgStep(RgScan(lines[..i], tabs, ScanStart(tabs)), lines[i], tabs)
               else RgScan(lines[..i], tabs, ScanStart(tabs))
  {
    assert Init(lines[..i + 1]) == lines[..i];
  }

  /** What parseRGlines stores for a header, as written. */
  function ParsedAsWritten(header: string): (r: ScanState)
    ensures |r.lbs| == |r.ids| == RgCount(HeaderLines(header))
  {
    var lines := HeaderLines(header);
    RgScan(lines, MaxTabs(lines), ScanStart(MaxTabs(lines)))
  }

  /** The first pass (lines 252-268): the number of @RG lines and their largest tab count. */
  method CountRgLines(lines: array<string>, lineNum: int) returns (rglineNum: int, maxTabs: int)
    requires 0 <= lineNum <= lines.Length
    ensures rglineNum == RgCount(lines[..lineNum]) && maxTabs == MaxTabs(lines[..lineNum])
  {
    rglineNum := 0;
    maxTabs := 0;
    var i := 0;
    while i < lineNum
      invariant 0 <= i <= lineNum
      invariant rglineNum == RgCount(lines[..i]) && maxTabs == MaxTabs(lines[..i])
    {
      assert Init(lines[..i + 1]) == lines[..i];
      if IsRgLine(lines[i]) {
        rglineNum := rglineNum + 1;
        var tabs := CountChNUM(lines[i], '\t');
        if tabs > maxTabs {
          maxTabs := tabs;
        }
      }
      i := i + 1;
    }
  }

  /** The tag search over the first tabs field buffers of one line (lines 288-301). */
  method ScanTags(content: array<string>, tabs: int, lb: string, id: string) returns (lb': string, id': string)
    requires 0 <= tabs <= content.Length
    ensures lb' == TagValue(content[..tabs], "LB:", lb) && id' == TagValue(content[..tabs], "ID:", id)
  {
    lb', id' := lb, id;
    var i := 0;
    while i < tabs
      invariant 0 <= i <= tabs
      invariant lb' == TagValue(content[..i], "LB:", lb) && id' == TagValue(content[..i], "ID:", id)
    {
      assert Init(content[..i + 1]) == content[..i];
      if HasTag(content[i], "ID:") {
        id' := content[i][3..];
      }
      if HasTag(content[i], "LB:") {
        lb' := content[i][3..];
      }
      i := i + 1;
    }
  }

  /** One @RG line of the second pass: cut it into the shared buffers, then search them. */
  method ReadRgLine(line: string, tabs: int, content: array<string>, lb: string, id: string) returns (lb': string, id': string)
    requires 0 <= tabs < content.Length && |SeparatedAsWritten(line, '\t')| <= content.Length
    modifies content
    ensures content[..] == Overlay(old(content[..]), SeparatedAsWritten(line, '\t'))
    ensures lb' == TagValue(Take(content[..], tabs), "LB:", lb) && id' == TagValue(Take(content[..], tabs), "ID:", id)
  {
    ghost var before := content[..];
    var stored := SeparateString(line, '\t', content);
    OverlayOf(before, content[..], SeparatedAsWritten(line, '\t'));
    lb', id' := ScanTags(content, tabs, lb, id);
  }

  /** What the second pass holds after the first i lines. */
  ghost predicate Reading(lines: seq<string>, i: int, tabs: nat, content: seq<string>, lb: string, id: string,
                          lbs: seq<string>, ids: seq<string>, st: ScanState) {
    0 <= i <= |lines| && st == RgScan(lines[..i], tabs, ScanStart(tabs))
    && content == st.content && lb == st.lb && id == st.id && lbs == st.lbs && ids == st.ids
  }

  /** The second pass (lines 279-307) over the first lineNum lines. */
  method ReadRgLines(lines: array<string>, lineNum: int, tabs: nat, content: array<string>, LBs: array<string>, RGs: array<string>)
    returns (count: int)
    requires 0 <= lineNum <= lines.Length && tabs == MaxTabs(lines[..lineNum])
    requires content.Length == tabs + 1 && content[..] == ScanStart(tabs).content
    requires RgCount(lines[..lineNum]) <= LBs.Length && RgCount(lines[..lineNum]) <= RGs.Length
    requires LBs != RGs && content != LBs && content != RGs && lines != content && lines != LBs && lines != RGs
    modifies content, LBs, RGs
    ensures count == |RgScan(lines[..lineNum], tabs, ScanStart(tabs)).lbs|
    ensures LBs[..count] == RgScan(lines[..lineNum], tabs, ScanStart(tabs)).lbs
    ensures RGs[..count] == RgScan(lines[..lineNum], tabs, ScanStart(tabs)).ids
    ensures LBs[count..] == old(LBs[count..]) && RGs[count..] == old(RGs[count..])
  {
    var lb, id := "", "";
    count := 0;
    ghost var st := ScanStart(tabs);
    var i := 0;
    while i < lineNum
      invariant 0 <= i <= lineNum && 0 <= count <= LBs.Length && count <= RGs.Length
      invariant Reading(lines[..lineNum], i, tabs, content[..], lb, id, LBs[..count], RGs[..count], st)
      invariant forall k :: count <= k < LBs.Length ==> LBs[k] == old(LBs[k])
      invariant forall k :: count <= k < RGs.Length ==> RGs[k] == old(RGs[k])
    {
      lb, id, count, st := ReadRgStep(lines, lineNum, i, tabs, content, LBs, RGs, lb, id, count, st);
      i := i + 1;
    }
    assert lines[..lineNum][..i] == lines[..lineNum];
    assert LBs[count..] == old(LBs[count..]);
    assert RGs[count..] == old(RGs[count..]);
  }

  /** Storing x in slot n of a buffer array extends its first n buffers by x. */
  lemma StoreNext(a: seq<string>, b: seq<string>, n: int, x: string)
    requires 0 <= n < |a| && b == a[n := x]
    ensures b[..n + 1] == a[..n] + [x]
    ensures forall k :: n < k < |b| ==> b[k] == a[k]
  {
    assert b[..n + 1] == b[..n] + [b[n]];
  }

  /** One line of the second pass. */
  method ReadRgStep(lines: array<string>, lineNum: int, i: int, tabs: nat, content: array<string>, LBs: array<string>, RGs: array<string>,
                    lb: string, id: string, count: int, ghost st: ScanState)
    returns (lb': string, id': string, count': int, ghost st': ScanState)
    requires 0 <= i < lineNum <= lines.Length && tabs == MaxTabs(lines[..lineNum]) && content.Length == tabs + 1
    requires 0 <= count <= LBs.Length && count <= RGs.Length
    requires Reading(lines[..lineNum], i, tabs, content[..], lb, id, LBs[..count], RGs[..count], st)
    requires RgCount(lines[..lineNum]) <= LBs.Length && RgCount(lines[..lineNum]) <= RGs.Length
    requires LBs != RGs && content != LBs && content != RGs && lines != content && lines != LBs && lines != RGs
    modifies content, LBs, RGs
    ensures count <= count' <= LBs.Length && count' <= RGs.Length
    ensures Reading(lines[..lineNum], i + 1, tabs, content[..], lb', id', LBs[..count'], RGs[..count'], st')
    ensures forall k :: count' <= k < LBs.Length ==> LBs[k] == old(LBs[k])
    ensures forall k :: count' <= k < RGs.Length ==> RGs[k] == old(RGs[k])
  {
    ghost var ls := lines[..lineNum];
    assert ls[i] == lines[i];
    RgScanSnoc(ls, i, tabs);
    lb', id', count', st' := lb, id, count, st;
    if IsRgLine(lines[i]) {
      MaxTabsBound(ls, i);
      SeparatedFits(lines[i], '\t');
      RgCountGrow(ls, i + 1);
      lb', id' := ReadRgLine(lines[i], tabs, content, lb, id);
      ghost var lbs0, ids0 := LBs[..], RGs[..];
      assert lbs0[..count] == st.lbs && ids0[..count] == st.ids;
      LBs[count] := lb';
      RGs[count] := id';
      assert LBs[..] == lbs0[count := lb'] && RGs[..] == ids0[count := id'];
      StoreNext(lbs0, LBs[..], count, lb');
      StoreNext(ids0, RGs[..], count, id');
      st' := RgStep(st, lines[i], tabs);
      count' := count + 1;
    }
  }

  /**
   * parseRGlines: stores the LB and ID values of the @RG lines in LBs and RGs, as
   * written, and returns the number of @RG lines.
   */
  method ParseRGLines(header: string, LBs: array<string>, RGs: array<string>) returns (rgLineNum: int)
    requires LBs != RGs
    requires RgCount(HeaderLines(header)) <= LBs.Length && RgCount(HeaderLines(header)) <= RGs.Length
    modifies LBs, RGs
    ensures rgLineNum == RgCount(HeaderLines(header))
    ensures LBs[..rgLineNum] == ParsedAsWritten(header).lbs && RGs[..rgLineNum] == ParsedAsWritten(header).ids
    ensures LBs[rgLineNum..] == old(LBs[rgLineNum..]) && RGs[rgLineNum..] == old(RGs[rgLineNum..])
  {
    var headLines, lineNum := CutHeader(header);
    var tokenNum;
    rgLineNum, tokenNum := CountRgLines(headLines, lineNum);
    var content := new string[tokenNum + 1](_ => "");
    assert content[..] == ScanStart(tokenNum).content;
    var count := ReadRgLines(headLines, lineNum, tokenNum, content, LBs, RGs);
  }

  /** The header cut at newlines into lineNum + 1 fresh buffers (lines 238-250). */
  method CutHeader(header: string) returns (headLines: array<string>, lineNum: int)
    ensures fresh(headLines) && headLines.Length == lineNum + 1
    ensures lineNum == Occurrences(header, '\n') && headLines[..lineNum] == HeaderLines(header)
  {
    lineNum := CountChNUM(header, '\n');
    headLines := new string[lineNum + 1](_ => "");
    ghost var blank := headLines[..];
    assert blank == seq(lineNum + 1, _ => "");
    SeparatedFits(header, '\n');
    var stored := SeparateString(header, '\n', headLines);
    OverlayOf(blank, headLines[..], SeparatedAsWritten(header, '\n'));
  }

  /** The library and ID of one read group. */
  datatype ReadGroup = ReadGroup(library: string, id: string)

  /** The corrected reading of one @RG line: its own fields, all of them, empty values by default. */
  function LineGroup(line: string): ReadGroup {
    var toks := SeparatedAsWritten(line, '\t');
    ReadGroup(TagValue(toks, "LB:", ""), TagValue(toks, "ID:", ""))
  }

  /** The groups of the @RG lines, one per line, in order. */
  function GroupsFixed(lines: seq<string>): (r: seq<ReadGroup>)
    ensures |r| == RgCount(lines)
  {
    if |lines| == 0 then []
    else GroupsFixed(Init(lines)) + if IsRgLine(Last(lines)) then [LineGroup(Last(lines))] else []
  }

  /** The corrected parseRGlines: one group per @RG line of the header. */
  function ReadGroupsFixed(header: string): (r: seq<ReadGroup>)
    ensures |r| == RgCount(HeaderLines(header))
  {
    GroupsFixed(HeaderLines(header))
  }

  /** The corrected reading carries nothing from one line to the next. */
  lemma {:induction false} GroupsFixedAppend(a: seq<string>, b: seq<string>)
    ensures GroupsFixed(a + b) == GroupsFixed(a) + GroupsFixed(b)
    decreases |b|
  {
    if |b| == 0 {
      assert a + b == a;
    } else {
      assert Init(a + b) == a + Init(b);
      assert Last(a + b) == Last(b);
      GroupsFixedAppend(a, Init(b));
    }
  }

  /** A separator absent from the fields is absent from their join by another separator. */
  lemma {:induction false} SepFieldsWithout(fields: seq<string>, sep: char, c: char)
    requires sep != c && SepFree(fields, c)
    ensures c !in SepFields(fields, [sep])
    decreases |fields|
  {
    if |fields| > 0 {
      SepFieldsWithout(fields[1..], sep, c);
      assert SepFields(fields, [sep]) == [sep] + fields[0] + SepFields(fields[1..], [sep]);
    }
  }

  lemma NewlineCount(line: string)
    requires '\n' !in line
    ensures Occurrences(line + "\n", '\n') == 1
  {
    OccurrencesAppend(line, "\n", '\n');
    OccurrencesAbsent(line, '\n');
    assert Occurrences("\n", '\n') == 1 by {
      assert "\n"[..0] == "";
    }
  }

  lemma NewlineSplit(line: string)
    requires '\n' !in line
    ensures Split(line + "\n", '\n') == [line, ""]
  {
    assert line + "\n" == line + ['\n'];
    SplitSnoc(line, '\n', '\n');
    SplitSepFields(line, [], '\n');
    assert line + SepFields([], ['\n']) == line;
  }

  /** A newline-terminated line has the line as its only non-empty token. */
  lemma NewlineTokenList(line: string)
    requires line != "" && '\n' !in line
    ensures Tokens(line + "\n", '\n') == [line]
  {
    NewlineSplit(line);
    NonEmptyAppend([line], [""]);
    NonEmptySingle(line);
    NonEmptySingle("");
    assert [line, ""] == [line] + [""];
  }

  /** A string ending in the separator gets the separator itself as an extra piece. */
  lemma TrailingSeparatorPiece(h: string, c: char)
    requires |h| > 0 && h[|h| - 1] == c
    ensures SeparatedAsWritten(h, c) == Tokens(h, c) + [[c]]
  {
  }

  lemma NewlineTokens(line: string)
    requires line != "" && '\n' !in line
    ensures SeparatedAsWritten(line + "\n", '\n') == [line, "\n"]
  {
    var h := line + "\n";
    NewlineTokenList(line);
    assert h[|h| - 1] == '\n';
    TrailingSeparatorPiece(h, '\n');
    assert [line, "\n"] == [line] + [['\n']];
  }

  /** A header of one newline-terminated line has that line alone. */
  lemma HeaderOfLine(line: string)
    requires line != "" && '\n' !in line
    ensures HeaderLines(line + "\n") == [line]
  {
    NewlineCount(line);
    NewlineTokens(line);
    assert Overlay(seq(2, _ => ""), [line, "\n"]) == [line, "\n"];
  }

  /** The second pass over a single @RG line. */
  lemma ScanOneLine(line: string, tabs: nat)
    requires IsRgLine(line)
    ensures var content := Overlay(ScanStart(tabs).content, SeparatedAsWritten(line, '\t'));
            RgScan([line], tabs, ScanStart(tabs))
            == ScanState(content, TagValue(Take(content, tabs), "LB:", ""), TagValue(Take(content, tabs), "ID:", ""),
                         [TagValue(Take(content, tabs), "LB:", "")], [TagValue(Take(content, tabs), "ID:", "")])
  {
    assert Init([line]) == [] && Last([line]) == line;
  }

  /** The tab bound of a single @RG line is its own tab count. */
  lemma MaxTabsOne(line: string)
    requires IsRgLine(line)
    ensures MaxTabs([line]) == Occurrences(line, '\t') && RgCount([line]) == 1
  {
    assert Init([line]) == [] && Last([line]) == line;
  }

  /** parseRGlines on a header of one line, as written. */
  lemma ParsedOneLine(line: string)
    requires line != "" && '\n' !in line && IsRgLine(line)
    ensures var tabs := Occurrences(line, '\t');
            var content := Overlay(ScanStart(tabs).content, SeparatedAsWritten(line, '\t'));
            ParsedAsWritten(line + "\n").lbs == [TagValue(Take(content, tabs), "LB:", "")]
            && ParsedAsWritten(line + "\n").ids == [TagValue(Take(content, tabs), "ID:", "")]
  {
    HeaderOfLine(line);
    MaxTabsOne(line);
    ScanOneLine(line, Occurrences(line, '\t'));
  }

  /** The one @RG line made of the given tab-free, newline-free, non-empty fields. */
  ghost predicate RgFields(fields: seq<string>) {
    |fields| >= 1 && TabFree(fields) && SepFree(fields, '\n')
    && forall k :: 0 <= k < |fields| ==> fields[k] != ""
  }

  /** The line "@RG" followed by the fields, each after a tab, and its properties. */
  lemma RgLineOf(fields: seq<string>)
    requires RgFields(fields)
    ensures var line := "@RG" + TabFields(fields);
            line != "" && '\n' !in line && IsRgLine(line)
            && Occurrences(line, '\t') == |fields|
            && SeparatedAsWritten(line, '\t') == ["@RG"] + fields
  {
    var line := "@RG" + TabFields(fields);
    assert "\t" == ['\t'];
    SepFieldsWithout(fields, '\t', '\n');
    assert line[..3] == "@RG";
    OccurrencesAppend("@RG", TabFields(fields), '\t');
    OccurrencesAbsent("@RG", '\t');
    OccurrencesSepFields(fields, '\t');
    TokensRoundTrip("@RG", fields, '\t');
  }

  /** A buffer whose first character differs from the tag's does not carry it. */
  lemma FirstCharDiffers(tok: string, tag: string)
    requires |tok| >= 1 && |tag| >= 1 && tok[0] != tag[0]
    ensures !HasTag(tok, tag)
  {
    if |tok| >= |tag| {
      assert tok[..|tag|][0] == tok[0];
    }
  }

  /** The buffer "@RG" carries neither tag. */
  lemma RgHeadUntagged()
    ensures !HasTag("@RG", "LB:") && !HasTag("@RG", "ID:")
  {
    FirstCharDiffers("@RG", "LB:");
    FirstCharDiffers("@RG", "ID:");
  }

  /** Buffers that fill the whole array, of which the first tabs are searched. */
  lemma FullOverlay(head: seq<string>, fields: seq<string>)
    requires |head| == 1 && |fields| >= 1
    ensures Overlay(ScanStart(|fields|).content, head + fields) == head + fields
    ensures Take(head + fields, |fields|) == head + Init(fields)
  {
    assert (head + fields)[..|fields|] == head + Init(fields);
  }

  /**
   * As written, for a header of one @RG line, the last field is never searched: the
   * values come from the fields before it.
   */
  lemma AsWrittenSkipsLastField(fields: seq<string>)
    requires RgFields(fields)
    ensures var p := ParsedAsWritten("@RG" + TabFields(fields) + "\n");
            p.lbs == [TagValue(Init(fields), "LB:", "")] && p.ids == [TagValue(Init(fields), "ID:", "")]
  {
    var line := "@RG" + TabFields(fields);
    RgLineOf(fields);
    ParsedOneLine(line);
    FullOverlay(["@RG"], fields);
    RgHeadUntagged();
    TagValueCons("@RG", Init(fields), "LB:", "");
    TagValueCons("@RG", Init(fields), "ID:", "");
  }

  /** Corrected, the same header gives the values of all its fields. */
  lemma FixedReadsEveryField(fields: seq<string>)
    requires RgFields(fields)
    ensures ReadGroupsFixed("@RG" + TabFields(fields) + "\n")
            == [ReadGroup(TagValue(fields, "LB:", ""), TagValue(fields, "ID:", ""))]
  {
    var line := "@RG" + TabFields(fields);
    RgLineOf(fields);
    HeaderOfLine(line);
    assert Init([line]) == [] && Last([line]) == line;
    RgHeadUntagged();
    TagValueCons("@RG", fields, "LB:", "");
    TagValueCons("@RG", fields, "ID:", "");
  }

  /** An LB: field placed last is lost as written and found by the corrected reading. */
  lemma LastLibraryLost(fields: seq<string>)
    requires RgFields(fields) && HasTag(Last(fields), "LB:")
    requires forall k :: 0 <= k < |fields| - 1 ==> !HasTag(fields[k], "LB:")
    ensures ParsedAsWritten("@RG" + TabFields(fields) + "\n").lbs == [""]
    ensures ReadGroupsFixed("@RG" + TabFields(fields) + "\n")[0].library == Last(fields)[3..]
  {
    AsWrittenSkipsLastField(fields);
    FixedReadsEveryField(fields);
    TagValueAbsent(Init(fields), "LB:", "");
    TagValueFinds(fields, "LB:", "", |fields| - 1);
  }

  /** The fields of the example header and the line they make. */
  lemma ExampleFields()
    ensures RgFields(["ID:a", "LB:b"])
    ensures "@RG" + TabFields(["ID:a", "LB:b"]) + "\n" == "@RG\tID:a\tLB:b\n"
  {
    var fields := ["ID:a", "LB:b"];
    assert TabFields(fields) == "\tID:a\tLB:b" by {
      var empty: seq<string> := [];
      assert SepFields(empty, "\t") == "";
      assert ["LB:b"][1..] == empty;
      assert SepFields(["LB:b"], "\t") == "\tLB:b";
      assert fields[1..] == ["LB:b"];
    }
    assert '\t' !in fields[0] && '\t' !in fields[1] && '\n' !in fields[0] && '\n' !in fields[1];
  }

  /** The tag values of the example's fields. */
  lemma ExampleValues()
    ensures TagValue(["ID:a"], "LB:", "") == "" && TagValue(["ID:a"], "ID:", "") == "a"
    ensures TagValue(["ID:a", "LB:b"], "LB:", "") == "b" && TagValue(["ID:a", "LB:b"], "ID:", "") == "a"
  {
    var fields := ["ID:a", "LB:b"];
    assert HasTag("LB:b", "LB:") && HasTag("ID:a", "ID:");
    FirstCharDiffers("ID:a", "LB:");
    FirstCharDiffers("LB:b", "ID:");
    TagValueAbsent(["ID:a"], "LB:", "");
    TagValueFinds(["ID:a"], "ID:", "", 0);
    TagValueFinds(fields, "LB:", "", 1);
    TagValueFinds(fields, "ID:", "", 0);
  }

  /** The header "@RG\tID:a\tLB:b\n": as written its library is empty, corrected it is "b". */
  lemma LibraryLostExample()
    ensures ParsedAsWritten("@RG\tID:a\tLB:b\n").lbs == [""]
    ensures ParsedAsWritten("@RG\tID:a\tLB:b\n").ids == ["a"]
    ensures ReadGroupsFixed("@RG\tID:a\tLB:b\n") == [ReadGroup("b", "a")]
  {
    var fields := ["ID:a", "LB:b"];
    ExampleFields();
    assert Init(fields) == ["ID:a"];
    AsWrittenSkipsLastField(fields);
    FixedReadsEveryField(fields);
    ExampleValues();
  }
}
