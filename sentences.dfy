/**
 * The heuristic sentence segmenter `sentence_split`: the stripped text is cut
 * at every match of the pattern `(?<=[.!?])\s+(?=[A-Z0-9])` (a terminal mark,
 * a whitespace run, then an ASCII capital or digit), each piece has its
 * whitespace runs collapsed to one space and is stripped, and blank pieces
 * are dropped.
 */
module Sentences {
  import opened Whitespace

  predicate IsTerminal(c: char) {
    c == '.' || c == '!' || c == '?'
  }

  predicate IsUpperOrDigit(c: char) {
    ('A' <= c <= 'Z') || ('0' <= c <= '9')
  }

  /** The index of the first non-whitespace character of `t` at or after `i`, or `|t|`. */
  function SkipWhitespace(t: string, i: nat): (j: nat)
    requires i <= |t|
    ensures i <= j <= |t|
    ensures forall k :: i <= k < j ==> IsWhitespace(t[k])
    ensures j == |t| || !IsWhitespace(t[j])
    decreases |t| - i
  {
    if i < |t| && IsWhitespace(t[i]) then SkipWhitespace(t, i + 1) else i
  }

  /**
   * Whether the separator pattern matches at position `i` of `t`: the
   * character before `i` is a terminal mark and the (greedy) whitespace run
   * starting at `i` is followed by a capital or a digit. The match then
   * covers exactly that run.
   */
  predicate SeparatorAt(t: string, i: nat)
    requires i <= |t|
  {
    0 < i < |t| && IsTerminal(t[i - 1]) && IsWhitespace(t[i])
    && SkipWhitespace(t, i) < |t| && IsUpperOrDigit(t[SkipWhitespace(t, i)])
  }

  /**
   * `re.split` by the separator pattern, scanning left to right: `start` is
   * where the current piece began, `i` the next position tried. After a
   * match the scan resumes behind it.
   */
  function SplitFrom(t: string, start: nat, i: nat): (parts: seq<string>)
    requires start <= i <= |t|
    ensures parts != []
    decreases |t| - i
  {
    if i == |t| then [t[start..]]
    else if SeparatorAt(t, i) then
      var j := SkipWhitespace(t, i);
      [t[start..i]] + SplitFrom(t, j, j)
    else SplitFrom(t, start, i + 1)
  }

  function SplitParts(t: string): seq<string> {
    SplitFrom(t, 0, 0)
  }

  /** The pieces glued back together, with nothing between them. */
  function Concat(ss: seq<string>): string {
    if ss == [] then [] else ss[0] + Concat(ss[1..])
  }

  /** `" ".join(ss)`. */
  function JoinSpace(ss: seq<string>): string {
    if ss == [] then []
    else if |ss| == 1 then ss[0]
    else ss[0] + " " + JoinSpace(ss[1..])
  }

  /**
   * The list comprehension of `sentence_split`: keep each piece that is not
   * blank, collapsed and stripped.
   */
  function CleanParts(parts: seq<string>): (r: seq<string>)
    ensures |r| <= |parts|
  {
    if parts == [] then []
    else if Strip(parts[0]) == [] then CleanParts(parts[1..])
    else [Strip(Collapse(parts[0]))] + CleanParts(parts[1..])
  }

  /** A piece the comprehension keeps has a visible character. */
  lemma KeptPieceVisible(p: string)
    requires Strip(p) != []
    ensures NonWs(p) != []
  {
    NonWsStrip(p);
    StripShape(p);
  }

  /** Every sentence the comprehension produces has the normalised shape. */
  lemma {:induction false} CleanPartsNormalized(parts: seq<string>)
    ensures forall k :: 0 <= k < |CleanParts(parts)| ==> Normalized(CleanParts(parts)[k])
  {
    if parts != [] {
      CleanPartsNormalized(parts[1..]);
      var p := parts[0];
      if Strip(p) != [] {
        KeptPieceVisible(p);
        CleanIsNormalized(p);
        var r, rest := CleanParts(parts), CleanParts(parts[1..]);
        assert r == [Strip(Collapse(p))] + rest;
        forall k | 0 <= k < |r| ensures Normalized(r[k]) {
          if k > 0 {
            assert r[k] == rest[k - 1];
          }
        }
      }
    }
  }

  /** The comprehension drops only blanks: the visible characters of the pieces survive in order. */
  lemma {:induction false} CleanPartsContent(parts: seq<string>)
    ensures NonWs(Concat(CleanParts(parts))) == NonWs(Concat(parts))
  {
    if parts != [] {
      CleanPartsContent(parts[1..]);
      var p := parts[0];
      var rest := CleanParts(parts[1..]);
      NonWsAppend(p, Concat(parts[1..]));
      if Strip(p) == [] {
        NonWsStrip(p);
      } else {
        KeptPieceVisible(p);
        CleanIsNormalized(p);
        var s := Strip(Collapse(p));
        assert Concat([s] + rest) == s + Concat(rest) by {
          assert ([s] + rest)[1..] == rest;
        }
        NonWsAppend(s, Concat(rest));
      }
    }
  }

  /** `sentence_split(text)`. */
  function SentenceSplit(text: string): (r: seq<string>)
    ensures forall k :: 0 <= k < |r| ==> Normalized(r[k])
    ensures NonWs(Concat(r)) == NonWs(text)
    ensures r == [] <==> forall k :: 0 <= k < |text| ==> IsWhitespace(text[k])
  {
    var t := Strip(text);
    var parts := SplitParts(t);
    SplitContent(t, 0, 0);
    NonWsStrip(text);
    NonWsEmpty(text);
    CleanPartsNormalized(parts);
    CleanPartsContent(parts);
    var r := CleanParts(parts);
    NormalizedConcatEmpty(r);
    r
  }

  /** Cutting out a whitespace run loses no visible character. */
  lemma DropWhitespaceRun(t: string, start: nat, i: nat, j: nat)
    requires start <= i <= j <= |t|
    requires forall k :: i <= k < j ==> IsWhitespace(t[k])
    ensures NonWs(t[start..]) == NonWs(t[start..i]) + NonWs(t[j..])
  {
    var a, w, b := t[start..i], t[i..j], t[j..];
    assert NonWs(w) == [] by {
      NonWsEmpty(w);
    }
    assert t[i..] == w + b;
    assert t[start..] == a + t[i..];
    NonWsAppend(a, w + b);
    NonWsAppend(w, b);
  }

  /** Splitting loses no visible character: the pieces hold exactly those of the scanned text. */
  lemma {:induction false} SplitContent(t: string, start: nat, i: nat)
    requires start <= i <= |t|
    ensures NonWs(Concat(SplitFrom(t, start, i))) == NonWs(t[start..])
    decreases |t| - i
  {
    if i == |t| {
      assert Concat([t[start..]]) == t[start..] + Concat([]);
      assert t[start..] + [] == t[start..];
    } else if SeparatorAt(t, i) {
      var j := SkipWhitespace(t, i);
      var rest := SplitFrom(t, j, j);
      var a := t[start..i];
      SplitContent(t, j, j);
      assert Concat([a] + rest) == a + Concat(rest) by {
        assert ([a] + rest)[1..] == rest;
      }
      DropWhitespaceRun(t, start, i, j);
      NonWsAppend(a, Concat(rest));
    } else {
      SplitContent(t, start, i + 1);
    }
  }

  /** A list of normalised sentences is empty exactly when it holds no visible character. */
  lemma {:induction false} NormalizedConcatEmpty(r: seq<string>)
    requires forall k :: 0 <= k < |r| ==> Normalized(r[k])
    ensures r == [] <==> NonWs(Concat(r)) == []
  {
    if r != [] {
      NonWsAppend(r[0], Concat(r[1..]));
    }
  }
}

/**
 * The two halves of "the text is cut exactly at the separators": every cut
 * is at a separator, and no sentence still contains one.
 */
module SentenceBoundaries {
  import opened Whitespace
  import opened Sentences

  /** `s` contains no match of the separator pattern. */
  ghost predicate NoSeparator(s: string) {
    forall m :: 0 <= m <= |s| ==> !SeparatorAt(s, m)
  }

  /** A piece whose ends are visible characters. */
  ghost predicate VisibleEnds(p: string) {
    p != [] && !IsWhitespace(p[0]) && !IsWhitespace(p[|p| - 1])
  }

  /** Two non-empty strings that start with the same character and end with the same character. */
  ghost predicate SameEnds(s: string, p: string) {
    s != [] && p != [] && s[0] == p[0] && s[|s| - 1] == p[|p| - 1]
  }

  /** `SkipWhitespace` is determined by its postcondition. */
  lemma {:induction false} SkipWhitespaceIs(t: string, i: nat, j: nat)
    requires i <= j <= |t|
    requires forall k :: i <= k < j ==> IsWhitespace(t[k])
    requires j == |t| || !IsWhitespace(t[j])
    ensures SkipWhitespace(t, i) == j
    decreases |t| - i
  {
    if i < j {
      SkipWhitespaceIs(t, i + 1, j);
    }
  }

  /** A separator inside a slice is a separator of the whole string. */
  lemma SliceSeparator(t: string, a: nat, b: nat, k: nat)
    requires a <= b <= |t| && k <= b - a && SeparatorAt(t[a..b], k)
    ensures a + k <= |t| && SeparatorAt(t, a + k)
  {
    var u := t[a..b];
    var j := SkipWhitespace(u, k);
    assert forall x :: k <= x < j ==> t[a + x] == u[x];
    SkipWhitespaceIs(t, a + k, a + j);
  }

  /** A separator in a suffix is a separator of the whole string. */
  lemma SuffixToWhole(t: string, d: nat, k: nat)
    requires d <= |t| && k <= |t| - d && SeparatorAt(t[d..], k)
    ensures d + k <= |t| && SeparatorAt(t, d + k)
  {
    assert t[d..] == t[d..|t|];
    SliceSeparator(t, d, |t|, k);
  }

  /** A separator behind position `d` is a separator of the suffix from `d`. */
  lemma SuffixSeparator(c: string, d: nat, m: nat)
    requires d < m <= |c| && SeparatorAt(c, m)
    ensures SeparatorAt(c[d..], m - d)
  {
    var u := c[d..];
    var j := SkipWhitespace(c, m);
    assert forall x :: m <= x < j ==> u[x - d] == c[x];
    SkipWhitespaceIs(u, m - d, j - d);
  }

  /** In a single-spaced string a separator is a mark, one space, then a capital or digit. */
  lemma SingleSpacedSeparator(c: string, m: nat)
    requires m <= |c| && SingleSpaced(c) && SeparatorAt(c, m)
    ensures m + 1 < |c| && c[m] == ' ' && IsUpperOrDigit(c[m + 1]) && IsTerminal(c[m - 1])
  {
    if m + 1 < |c| {
      SkipWhitespaceIs(c, m, m + 1);
    }
  }

  /** The case of `CollapseSeparator` where the separator sits right behind the first character. */
  lemma CollapseSeparatorAtOne(p: string)
    requires p != [] && !IsWhitespace(p[0])
    requires 1 <= |Collapse(p)| && SeparatorAt(Collapse(p), 1)
    ensures SeparatorAt(p, 1)
  {
    var c := Collapse(p);
    var c1 := Collapse(p[1..]);
    assert c == [p[0]] + c1;
    CollapseSingleSpaced(p);
    SingleSpacedSeparator(c, 1);
    assert c1[0] == c[1];
    CollapseSingleSpaced(p[1..]);
    assert IsWhitespace(p[1..][0]);
    var t := TrimStart(p[1..]);
    assert c1 == [' '] + Collapse(t);
    assert Collapse(t) != [] && Collapse(t)[0] == c[2];
    CollapseSingleSpaced(t);
    CollapseHead(t);
    var e := |p| - |t|;
    assert forall x :: 1 <= x < e ==> p[x] == p[1..][x - 1];
    assert p[e] == t[0];
    SkipWhitespaceIs(p, 1, e);
  }

  /** Collapsing a leading whitespace run into one space shifts a separator by the run. */
  lemma CollapseSeparatorBlankStep(p: string, m: nat)
    requires p != [] && IsWhitespace(p[0])
    requires m <= |Collapse(p)| && SeparatorAt(Collapse(p), m)
    ensures |TrimStart(p)| < |p|
    ensures 1 < m && m - 1 <= |Collapse(TrimStart(p))| && SeparatorAt(Collapse(TrimStart(p)), m - 1)
  {
    var c := Collapse(p);
    var t := TrimStart(p);
    assert c == [' '] + Collapse(t);
    SuffixSeparator(c, 1, m);
    assert c[1..] == Collapse(t);
  }

  lemma CollapseSeparatorVisibleStep(p: string, m: nat)
    requires p != [] && !IsWhitespace(p[0])
    requires 1 < m <= |Collapse(p)| && SeparatorAt(Collapse(p), m)
    ensures m - 1 <= |Collapse(p[1..])| && SeparatorAt(Collapse(p[1..]), m - 1)
  {
    var c := Collapse(p);
    assert c == [p[0]] + Collapse(p[1..]);
    SuffixSeparator(c, 1, m);
    assert c[1..] == Collapse(p[1..]);
  }

  /** A separator in a collapsed string comes from a separator in the original. */
  lemma {:induction false} CollapseSeparator(p: string, m: nat) returns (k: nat)
    requires m <= |Collapse(p)| && SeparatorAt(Collapse(p), m)
    ensures k <= |p| && SeparatorAt(p, k)
    decreases |p|
  {
    CollapseSingleSpaced(p);
    if IsWhitespace(p[0]) {
      var t := TrimStart(p);
      CollapseSeparatorBlankStep(p, m);
      var k' := CollapseSeparator(t, m - 1);
      SuffixToWhole(p, |p| - |t|, k');
      k := |p| - |t| + k';
    } else if m == 1 {
      CollapseSeparatorAtOne(p);
      k := 1;
    } else {
      CollapseSeparatorVisibleStep(p, m);
      var k' := CollapseSeparator(p[1..], m - 1);
      SuffixToWhole(p, 1, k');
      k := k' + 1;
    }
  }

  /** A stripped string is a contiguous slice of the original. */
  lemma StripIsSlice(c: string) returns (d: nat)
    ensures d + |Strip(c)| <= |c| && Strip(c) == c[d..d + |Strip(c)|]
  {
    var t := TrimStart(c);
    var s := TrimEnd(t);
    d := |c| - |t|;
    PrefixOfSuffix(c, t, s);
    assert Strip(c) == s;
  }

  /** A prefix `s` of a suffix `t` of `c` is a slice of `c`. */
  lemma PrefixOfSuffix(c: string, t: string, s: string)
    requires |t| <= |c| && t == c[|c| - |t|..]
    requires |s| <= |t| && s == t[..|s|]
    ensures |c| - |t| + |s| <= |c| && s == c[|c| - |t|..|c| - |t| + |s|]
  {
  }

  /** No slice of a collapsed piece holds a separator when the raw piece held none. */
  lemma CollapseSliceNoSeparator(p: string, d: nat, e: nat)
    requires NoSeparator(p) && d <= e <= |Collapse(p)|
    ensures NoSeparator(Collapse(p)[d..e])
  {
    forall m | 0 <= m <= e - d && SeparatorAt(Collapse(p)[d..e], m)
      ensures false
    {
      var k := SliceOfCollapseSeparator(p, d, e, m);
    }
  }

  /** A separator in a slice of a collapsed piece comes from a separator in the raw piece. */
  lemma SliceOfCollapseSeparator(p: string, d: nat, e: nat, m: nat) returns (k: nat)
    requires d <= e <= |Collapse(p)| && m <= e - d && SeparatorAt(Collapse(p)[d..e], m)
    ensures k <= |p| && SeparatorAt(p, k)
  {
    var c := Collapse(p);
    SliceSeparator(c, d, e, m);
    assert d + m <= |c| && SeparatorAt(c, d + m);
    k := CollapseSeparator(p, d + m);
  }

  /** A cleaned piece has no separator when the raw piece had none. */
  lemma CleanNoSeparator(p: string)
    requires NoSeparator(p)
    ensures NoSeparator(Strip(Collapse(p)))
  {
    var c := Collapse(p);
    var d := StripIsSlice(c);
    CollapseSliceNoSeparator(p, d, d + |Strip(c)|);
  }

  /** A piece cut out of a stretch of `t` that holds no separator holds none either. */
  lemma PieceNoSeparator(t: string, a: nat, b: nat)
    requires a <= b <= |t|
    requires forall k :: a <= k < b ==> !SeparatorAt(t, k)
    ensures NoSeparator(t[a..b])
  {
    forall m | 0 <= m <= b - a && SeparatorAt(t[a..b], m)
      ensures false
    {
      SliceSeparator(t, a, b, m);
    }
  }

  /** The scan only cuts where it found a separator, so no piece contains one. */
  lemma {:induction false} SplitNoSeparator(t: string, start: nat, i: nat)
    requires start <= i <= |t|
    requires forall k :: start <= k < i ==> !SeparatorAt(t, k)
    ensures forall q :: 0 <= q < |SplitFrom(t, start, i)| ==> NoSeparator(SplitFrom(t, start, i)[q])
    decreases |t| - i
  {
    var parts := SplitFrom(t, start, i);
    if i == |t| {
      PieceNoSeparator(t, start, |t|);
      assert t[start..] == t[start..|t|];
    } else if SeparatorAt(t, i) {
      var j := SkipWhitespace(t, i);
      SplitNoSeparator(t, j, j);
      PieceNoSeparator(t, start, i);
      var rest := SplitFrom(t, j, j);
      assert parts == [t[start..i]] + rest;
      assert forall q :: 1 <= q < |parts| ==> parts[q] == rest[q - 1];
    } else {
      SplitNoSeparator(t, start, i + 1);
    }
  }

  lemma {:induction false} CleanPartsNoSeparator(parts: seq<string>)
    requires forall q :: 0 <= q < |parts| ==> NoSeparator(parts[q])
    ensures forall q :: 0 <= q < |CleanParts(parts)| ==> NoSeparator(CleanParts(parts)[q])
  {
    if parts != [] {
      CleanPartsNoSeparator(parts[1..]);
      CleanNoSeparator(parts[0]);
      var r := CleanParts(parts);
      var rest := CleanParts(parts[1..]);
      if Strip(parts[0]) != [] {
        assert r == [Strip(Collapse(parts[0]))] + rest;
        forall q | 0 <= q < |r| ensures NoSeparator(r[q]) {
          if q > 0 {
            assert r[q] == rest[q - 1];
          }
        }
      }
    }
  }

  /** No sentence returned by `sentence_split` still contains a separator. */
  lemma SentencesHaveNoSeparator(text: string)
    ensures forall q :: 0 <= q < |SentenceSplit(text)| ==> NoSeparator(SentenceSplit(text)[q])
  {
    var t := Strip(text);
    SplitNoSeparator(t, 0, 0);
    CleanPartsNoSeparator(SplitParts(t));
  }

  /**
   * The raw pieces of a stripped, non-blank text: visible at both ends, every
   * piece but the last ends in a terminal mark, every piece but the first
   * starts with a capital or a digit.
   */
  lemma {:induction false} SplitShape(t: string, start: nat, i: nat)
    requires start <= i <= |t| && start < |t|
    requires !IsWhitespace(t[|t| - 1])
    requires !IsWhitespace(t[start])
    requires start == 0 || IsWhitespace(t[start - 1])
    ensures var parts := SplitFrom(t, start, i);
      && (forall q :: 0 <= q < |parts| ==> VisibleEnds(parts[q]))
      && parts[0][0] == t[start]
      && (forall q :: 0 <= q < |parts| - 1 ==> IsTerminal(parts[q][|parts[q]| - 1]))
      && (forall q :: 0 < q < |parts| ==> IsUpperOrDigit(parts[q][0]))
    decreases |t| - i
  {
    var parts := SplitFrom(t, start, i);
    if i == |t| {
      assert parts == [t[start..]];
    } else if SeparatorAt(t, i) {
      var j := SkipWhitespace(t, i);
      SplitShape(t, j, j);
      var rest := SplitFrom(t, j, j);
      assert parts == [t[start..i]] + rest;
      assert start < i;
      forall q | 1 <= q < |parts|
        ensures VisibleEnds(parts[q]) && IsUpperOrDigit(parts[q][0])
        ensures q < |parts| - 1 ==> IsTerminal(parts[q][|parts[q]| - 1])
      {
        assert parts[q] == rest[q - 1];
      }
    } else {
      SplitShape(t, start, i + 1);
    }
  }

  /** Cleaning a piece with visible ends only collapses its interior. */
  lemma CleanPiece(p: string)
    requires VisibleEnds(p)
    ensures Strip(p) != []
    ensures SameEnds(Strip(Collapse(p)), p)
  {
    StripTrimmed(p);
    CollapseHead(p);
    CollapseLast(p);
    StripTrimmed(Collapse(p));
  }

  /** A piece with visible ends is kept, and stripping its collapse removes nothing. */
  lemma CleanKeepsCollapse(p: string)
    requires VisibleEnds(p)
    ensures Strip(p) != []
    ensures Strip(Collapse(p)) == Collapse(p)
  {
    StripTrimmed(p);
    CollapseHead(p);
    CollapseLast(p);
    StripTrimmed(Collapse(p));
  }

  /** Cleaning pieces with visible ends keeps every piece and its first and last characters. */
  lemma {:induction false} CleanPartsShape(parts: seq<string>)
    requires forall q :: 0 <= q < |parts| ==> VisibleEnds(parts[q])
    ensures |CleanParts(parts)| == |parts|
    ensures forall q :: 0 <= q < |parts| ==> SameEnds(CleanParts(parts)[q], parts[q])
  {
    if parts != [] {
      CleanPartsShape(parts[1..]);
      CleanPiece(parts[0]);
      var r := CleanParts(parts);
      var rest := CleanParts(parts[1..]);
      assert r == [Strip(Collapse(parts[0]))] + rest;
      forall q | 0 <= q < |parts| ensures SameEnds(r[q], parts[q]) {
        if q > 0 {
          assert r[q] == rest[q - 1] && parts[q] == parts[1..][q - 1];
        }
      }
    }
  }

  /**
   * Every cut made by `sentence_split` is at a separator: each sentence but
   * the last ends in a terminal mark, each but the first starts with a
   * capital or a digit.
   */
  lemma SentencesMeetAtSeparators(text: string)
    ensures var r := SentenceSplit(text);
      && (forall q :: 0 <= q < |r| - 1 ==> IsTerminal(r[q][|r[q]| - 1]))
      && (forall q :: 0 < q < |r| ==> IsUpperOrDigit(r[q][0]))
  {
    var t := Strip(text);
    StripShape(text);
    if t != [] {
      SplitShape(t, 0, 0);
      CleanPartsShape(SplitParts(t));
    }
  }

  /**
   * Joining the sentences in turn with single spaces and collapsing the
   * scanned stretch of `t` give the same string: every cut replaced a
   * whitespace run that the collapse turns into exactly one space.
   */
  lemma {:induction false} SplitRoundTrip(t: string, start: nat, i: nat)
    requires start <= i <= |t| && start < |t|
    requires !IsWhitespace(t[|t| - 1])
    requires !IsWhitespace(t[start])
    ensures JoinSpace(CleanParts(SplitFrom(t, start, i))) == Collapse(t[start..])
    decreases |t| - i
  {
    if i == |t| {
      RoundTripLast(t, start);
    } else if SeparatorAt(t, i) {
      var j := SkipWhitespace(t, i);
      SplitRoundTrip(t, j, j);
      RoundTripCut(t, start, i);
    } else {
      SplitRoundTrip(t, start, i + 1);
    }
  }

  /** The round trip for the last piece, which runs to the end of `t`. */
  lemma RoundTripLast(t: string, start: nat)
    requires start < |t| && !IsWhitespace(t[|t| - 1]) && !IsWhitespace(t[start])
    ensures JoinSpace(CleanParts(SplitFrom(t, start, |t|))) == Collapse(t[start..])
  {
    var p := t[start..];
    assert SplitFrom(t, start, |t|) == [p];
    assert p[0] == t[start] && p[|p| - 1] == t[|t| - 1];
    CleanSingle(p);
  }

  /** A lone piece with visible ends comes back collapsed. */
  lemma CleanSingle(p: string)
    requires VisibleEnds(p)
    ensures JoinSpace(CleanParts([p])) == Collapse(p)
  {
    CleanKeepsCollapse(p);
    var ps, c := [p], Collapse(p);
    assert ps[0] == p && ps[1..] == [];
    assert CleanParts(ps[1..]) == [];
    assert CleanParts(ps) == [Strip(c)] + CleanParts(ps[1..]);
    assert [c] + [] == [c];
    assert JoinSpace([c]) == c;
  }

  /** The round trip across the separator at `i`, given the round trip for what follows it. */
  lemma RoundTripCut(t: string, start: nat, i: nat)
    requires start <= i < |t| && SeparatorAt(t, i) && !IsWhitespace(t[start])
    requires var j := SkipWhitespace(t, i);
      JoinSpace(CleanParts(SplitFrom(t, j, j))) == Collapse(t[j..])
    ensures JoinSpace(CleanParts(SplitFrom(t, start, i))) == Collapse(t[start..])
  {
    var j := SkipWhitespace(t, i);
    var rest := SplitFrom(t, j, j);
    var a, w, b := CutAtSeparator(t, start, i);
    assert SplitFrom(t, start, i) == [a] + rest;
    CleanCons(a, rest);
    JoinAcrossCut(a, w, b, CleanParts(rest));
  }

  /** Joining a sentence in front of a non-empty list puts one space between them. */
  lemma JoinSpaceCons(x: string, xs: seq<string>)
    requires xs != []
    ensures JoinSpace([x] + xs) == x + " " + JoinSpace(xs)
  {
    var ys := [x] + xs;
    assert ys[0] == x && ys[1..] == xs && |ys| > 1;
  }

  /** The comprehension keeps a leading piece with visible ends, collapsed. */
  lemma CleanCons(a: string, rest: seq<string>)
    requires VisibleEnds(a)
    ensures CleanParts([a] + rest) == [Collapse(a)] + CleanParts(rest)
  {
    var ps := [a] + rest;
    assert ps[0] == a && ps[1..] == rest;
    CleanHead(ps);
  }

  /** The comprehension keeps a first piece with visible ends, collapsed, and goes on with the rest. */
  lemma CleanHead(ps: seq<string>)
    requires ps != [] && VisibleEnds(ps[0])
    ensures CleanParts(ps) == [Collapse(ps[0])] + CleanParts(ps[1..])
  {
    CleanKeepsCollapse(ps[0]);
  }

  /**
   * One cut of the round trip: a piece `a`, the whitespace run `w` the scan
   * cut out, and the cleaned pieces `cr` of what follows, `b`, whose join is
   * already the collapse of `b`.
   */
  lemma JoinAcrossCut(a: string, w: string, b: string, cr: seq<string>)
    requires VisibleEnds(a)
    requires w != [] && forall k :: 0 <= k < |w| ==> IsWhitespace(w[k])
    requires b != [] && !IsWhitespace(b[0])
    requires JoinSpace(cr) == Collapse(b)
    ensures JoinSpace([Collapse(a)] + cr) == Collapse(a + w + b)
  {
    assert cr != [] by {
      CollapseSingleSpaced(b);
    }
    JoinSpaceCons(Collapse(a), cr);
    CollapseAcrossRun(a, w, b);
  }

  /**
   * At a separator found at `i` by the scan that started its piece at
   * `start`, the rest of the text is the piece, the whitespace run and what
   * follows it.
   */
  lemma CutAtSeparator(t: string, start: nat, i: nat) returns (a: string, w: string, b: string)
    requires start <= i < |t| && SeparatorAt(t, i) && !IsWhitespace(t[start])
    ensures var j := SkipWhitespace(t, i);
      && a == t[start..i] && w == t[i..j] && b == t[j..]
      && t[start..] == a + w + b
      && VisibleEnds(a)
      && w != [] && (forall k :: 0 <= k < |w| ==> IsWhitespace(w[k]))
      && b != [] && !IsWhitespace(b[0])
  {
    var j := SkipWhitespace(t, i);
    a, w, b := t[start..i], t[i..j], t[j..];
    assert t[start..] == a + (w + b);
  }

  /**
   * The round trip of `sentence_split`: joining its sentences with single
   * spaces gives back the stripped text with each whitespace run collapsed to
   * one space. So no visible character, word boundary or cut is invented or
   * lost, and between two consecutive sentences the text had a whitespace run.
   */
  lemma SentenceSplitRoundTrip(text: string)
    ensures JoinSpace(SentenceSplit(text)) == Collapse(Strip(text))
  {
    var t := Strip(text);
    var r := SentenceSplit(text);
    assert r == CleanParts(SplitFrom(t, 0, 0));
    StripShape(text);
    if t != [] {
      SplitRoundTrip(t, 0, 0);
      assert t[0..] == t;
    } else {
      assert SplitFrom(t, 0, 0) == [[]];
      assert Strip([]) == [];
      assert r == [];
    }
  }
}
