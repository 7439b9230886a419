/**
 * Whitespace handling shared by the sentence segmenter and the chunker:
 * Python's notion of a whitespace character (the set `str.isspace` accepts,
 * which is also what the regular-expression class `\s` matches on `str`
 * patterns), `str.strip()` and the `re.sub(r"\s+", " ", s)` collapse.
 */
module Whitespace {

  /** Python 3's whitespace characters (Unicode types WS, B, S and category Zs). */
  predicate IsWhitespace(c: char) {
    ('\t' <= c <= '\r')                      // \t \n \v \f \r
    || ('\U{1C}' <= c <= '\U{1F}')           // file, group, record and unit separators
    || c == ' ' || c == '\U{85}' || c == '\U{A0}' || c == '\U{1680}'
    || ('\U{2000}' <= c <= '\U{200A}')
    || c == '\U{2028}' || c == '\U{2029}' || c == '\U{202F}' || c == '\U{205F}'
    || c == '\U{3000}'
  }

  /** The characters of `s` that are not whitespace, in order. */
  function NonWs(s: string): (r: string)
    ensures |r| <= |s|
    ensures forall k :: 0 <= k < |r| ==> !IsWhitespace(r[k])
  {
    if s == [] then []
    else if IsWhitespace(s[0]) then NonWs(s[1..])
    else [s[0]] + NonWs(s[1..])
  }

  /** `s` without its leading whitespace. */
  function TrimStart(s: string): (r: string)
    ensures |r| <= |s| && r == s[|s| - |r|..]
    ensures forall k :: 0 <= k < |s| - |r| ==> IsWhitespace(s[k])
    ensures r == [] || !IsWhitespace(r[0])
  {
    if s != [] && IsWhitespace(s[0]) then TrimStart(s[1..]) else s
  }

  /** `s` without its trailing whitespace. */
  function TrimEnd(s: string): (r: string)
    ensures |r| <= |s| && r == s[..|r|]
    ensures forall k :: |r| <= k < |s| ==> IsWhitespace(s[k])
    ensures r == [] || !IsWhitespace(r[|r| - 1])
  {
    if s != [] && IsWhitespace(s[|s| - 1]) then TrimEnd(s[..|s| - 1]) else s
  }

  /** Python's `s.strip()`. */
  function Strip(s: string): string {
    TrimEnd(TrimStart(s))
  }

  /** Python's `re.sub(r"\s+", " ", s)`: every maximal whitespace run becomes one space. */
  function Collapse(s: string): (r: string)
    decreases |s|
  {
    if s == [] then []
    else if IsWhitespace(s[0]) then [' '] + Collapse(TrimStart(s))
    else [s[0]] + Collapse(s[1..])
  }

  /** The only whitespace in `s` is single spaces: no other blank, no two in a row. */
  ghost predicate SingleSpaced(s: string) {
    && (forall k :: 0 <= k < |s| && IsWhitespace(s[k]) ==> s[k] == ' ')
    && (forall i, j :: 0 <= i && j == i + 1 && j < |s| ==> !(IsWhitespace(s[i]) && IsWhitespace(s[j])))
  }

  /** The shape of a segmented sentence: non-empty, trimmed, single-spaced. */
  ghost predicate Normalized(s: string) {
    s != [] && !IsWhitespace(s[0]) && !IsWhitespace(s[|s| - 1]) && SingleSpaced(s)
  }

  lemma {:induction false} NonWsAppend(a: string, b: string)
    ensures NonWs(a + b) == NonWs(a) + NonWs(b)
  {
    if a == [] {
      assert a + b == b;
    } else {
      assert (a + b)[1..] == a[1..] + b;
      NonWsAppend(a[1..], b);
    }
  }

  /** A string is blank exactly when it has no non-whitespace character. */
  lemma {:induction false} NonWsEmpty(s: string)
    ensures NonWs(s) == [] <==> forall k :: 0 <= k < |s| ==> IsWhitespace(s[k])
  {
    if s != [] {
      NonWsEmpty(s[1..]);
      assert forall k :: 1 <= k < |s| ==> s[k] == s[1..][k - 1];
    }
  }

  /** Stripping and collapsing never drop or reorder a visible character. */
  lemma {:induction false} NonWsTrimStart(s: string)
    ensures NonWs(TrimStart(s)) == NonWs(s)
  {
    if s != [] && IsWhitespace(s[0]) {
      NonWsTrimStart(s[1..]);
    }
  }

  lemma {:induction false} NonWsTrimEnd(s: string)
    ensures NonWs(TrimEnd(s)) == NonWs(s)
  {
    if s != [] && IsWhitespace(s[|s| - 1]) {
      var p := s[..|s| - 1];
      NonWsTrimEnd(p);
      assert s == p + [s[|s| - 1]];
      NonWsAppend(p, [s[|s| - 1]]);
    }
  }

  lemma NonWsStrip(s: string)
    ensures NonWs(Strip(s)) == NonWs(s)
  {
    NonWsTrimStart(s);
    NonWsTrimEnd(TrimStart(s));
  }

  lemma {:induction false} NonWsCollapse(s: string)
    ensures NonWs(Collapse(s)) == NonWs(s)
    decreases |s|
  {
    if s != [] {
      if IsWhitespace(s[0]) {
        NonWsCollapse(TrimStart(s));
        NonWsTrimStart(s);
        NonWsAppend([' '], Collapse(TrimStart(s)));
      } else {
        NonWsCollapse(s[1..]);
        NonWsAppend([s[0]], Collapse(s[1..]));
      }
    }
  }

  /** The first character of a collapsed string that starts with a visible character is kept. */
  lemma CollapseHead(s: string)
    requires s != [] && !IsWhitespace(s[0])
    ensures Collapse(s) != [] && Collapse(s)[0] == s[0]
  {
  }

  /** The last character of a collapsed string that ends with a visible character is kept. */
  lemma {:induction false} CollapseLast(s: string)
    requires s != [] && !IsWhitespace(s[|s| - 1])
    ensures Collapse(s) != [] && Collapse(s)[|Collapse(s)| - 1] == s[|s| - 1]
    decreases |s|
  {
    if IsWhitespace(s[0]) {
      var t := TrimStart(s);
      assert t != [] && t[|t| - 1] == s[|s| - 1];
      CollapseLast(t);
    } else if |s| > 1 {
      CollapseLast(s[1..]);
    }
  }

  /** The collapse leaves only single spaces. */
  lemma {:induction false} CollapseSingleSpaced(s: string)
    ensures SingleSpaced(Collapse(s))
    ensures Collapse(s) == [] <==> s == []
    ensures s != [] ==> IsWhitespace(Collapse(s)[0]) == IsWhitespace(s[0])
    decreases |s|
  {
    if s != [] {
      var r := Collapse(s);
      if IsWhitespace(s[0]) {
        var t := TrimStart(s);
        CollapseSingleSpaced(t);
        assert r == [' '] + Collapse(t);
        assert forall k :: 1 <= k < |r| ==> r[k] == Collapse(t)[k - 1];
      } else {
        CollapseSingleSpaced(s[1..]);
        assert r == [s[0]] + Collapse(s[1..]);
        assert forall k :: 1 <= k < |r| ==> r[k] == Collapse(s[1..])[k - 1];
      }
    }
  }

  /**
   * Concatenation is associative. The solver finds this only through
   * element-wise reasoning, which is costly in large proof contexts, so the
   * proofs that need it call this lemma.
   */
  lemma AppendAssoc<T>(a: seq<T>, b: seq<T>, c: seq<T>)
    ensures (a + b) + c == a + (b + c)
  {
  }

  /** Trimming the front of `a + b` stops inside `a` when `a` ends with a visible character. */
  lemma {:induction false} TrimStartAppend(a: string, b: string)
    requires a != [] && !IsWhitespace(a[|a| - 1])
    ensures TrimStart(a + b) == TrimStart(a) + b
  {
    if IsWhitespace(a[0]) {
      assert (a + b)[1..] == a[1..] + b;
      TrimStartAppend(a[1..], b);
    }
  }

  /** Trimming the front of a whitespace run followed by a visible character leaves what follows the run. */
  lemma {:induction false} TrimStartRun(w: string, b: string)
    requires forall k :: 0 <= k < |w| ==> IsWhitespace(w[k])
    requires b == [] || !IsWhitespace(b[0])
    ensures TrimStart(w + b) == b
  {
    if w == [] {
      assert w + b == b;
    } else {
      assert (w + b)[1..] == w[1..] + b;
      TrimStartRun(w[1..], b);
    }
  }

  /** The collapse works piecewise across a cut right behind a visible character. */
  lemma {:induction false} CollapseAppend(a: string, b: string)
    requires a != [] && !IsWhitespace(a[|a| - 1])
    ensures Collapse(a + b) == Collapse(a) + Collapse(b)
    decreases |a|, 1
  {
    if IsWhitespace(a[0]) {
      CollapseAppendBlank(a, b);
    } else {
      CollapseAppendVisible(a, b);
    }
  }

  /** `CollapseAppend` when `a` starts with whitespace: the leading run becomes one space on both sides. */
  lemma {:induction false} CollapseAppendBlank(a: string, b: string)
    requires a != [] && !IsWhitespace(a[|a| - 1]) && IsWhitespace(a[0])
    ensures Collapse(a + b) == Collapse(a) + Collapse(b)
    decreases |a|, 0
  {
    var t := TrimStart(a);
    TrimStartAppend(a, b);
    assert t != [] && t[|t| - 1] == a[|a| - 1];
    CollapseAppend(t, b);
    var ab := a + b;
    assert ab[0] == a[0];
    assert Collapse(ab) == [' '] + Collapse(t + b);
    assert Collapse(a) == [' '] + Collapse(t);
    AppendAssoc([' '], Collapse(t), Collapse(b));
  }

  /** `CollapseAppend` when `a` starts with a visible character, which both sides keep. */
  lemma {:induction false} CollapseAppendVisible(a: string, b: string)
    requires a != [] && !IsWhitespace(a[|a| - 1]) && !IsWhitespace(a[0])
    ensures Collapse(a + b) == Collapse(a) + Collapse(b)
    decreases |a|, 0
  {
    var ab, a' := a + b, a[1..];
    assert ab[0] == a[0] && ab[1..] == a' + b;
    if a' == [] {
      assert a' + b == b;
    } else {
      CollapseAppend(a', b);
    }
    assert Collapse(ab) == [a[0]] + Collapse(a' + b);
    assert Collapse(a) == [a[0]] + Collapse(a');
    AppendAssoc([a[0]], Collapse(a'), Collapse(b));
  }

  /** A whitespace run followed by a visible character (or nothing) collapses to one space. */
  lemma CollapseRun(w: string, b: string)
    requires w != [] && forall k :: 0 <= k < |w| ==> IsWhitespace(w[k])
    requires b == [] || !IsWhitespace(b[0])
    ensures Collapse(w + b) == " " + Collapse(b)
  {
    TrimStartRun(w, b);
    assert (w + b)[0] == w[0];
  }

  /** A whitespace run between a visible character and a visible character (or the end) becomes exactly one space. */
  lemma CollapseAcrossRun(a: string, w: string, b: string)
    requires a != [] && !IsWhitespace(a[|a| - 1])
    requires w != [] && forall k :: 0 <= k < |w| ==> IsWhitespace(w[k])
    requires b == [] || !IsWhitespace(b[0])
    ensures Collapse(a + w + b) == Collapse(a) + " " + Collapse(b)
  {
    AppendAssoc(a, w, b);
    CollapseAppend(a, w + b);
    CollapseRun(w, b);
    AppendAssoc(Collapse(a), " ", Collapse(b));
  }

  /** A contiguous slice of a single-spaced string is single-spaced. */
  lemma SingleSpacedSlice(s: string, i: nat, j: nat)
    requires i <= j <= |s| && SingleSpaced(s)
    ensures SingleSpaced(s[i..j])
  {
    forall k | 0 <= k < j - i && IsWhitespace(s[i..j][k])
      ensures s[i..j][k] == ' ' && (k + 1 < j - i ==> !IsWhitespace(s[i..j][k + 1]))
    {
      assert s[i..j][k] == s[i + k];
    }
  }

  /** Strip really strips: a stripped string is empty or starts and ends visibly. */
  lemma StripShape(s: string)
    ensures var r := Strip(s); r == [] || (!IsWhitespace(r[0]) && !IsWhitespace(r[|r| - 1]))
  {
    var t := TrimStart(s);
    var r := TrimEnd(t);
    if r != [] {
      assert r[0] == t[0];
    }
  }

  /** Strip leaves a string that already starts and ends visibly unchanged. */
  lemma StripTrimmed(s: string)
    requires s == [] || (!IsWhitespace(s[0]) && !IsWhitespace(s[|s| - 1]))
    ensures Strip(s) == s
  {
  }

  /** Stripping keeps a string single-spaced. */
  lemma StripSingleSpaced(c: string)
    requires SingleSpaced(c)
    ensures SingleSpaced(Strip(c))
  {
    var t := TrimStart(c);
    SingleSpacedSlice(c, |c| - |t|, |c|);
    assert c[|c| - |t|..|c|] == t;
    var r := TrimEnd(t);
    SingleSpacedSlice(t, 0, |r|);
    assert t[0..|r|] == r;
  }

  /** Stripping a single-spaced string with a visible character gives a sentence of the normalised shape. */
  lemma StripNormalized(c: string)
    requires SingleSpaced(c) && NonWs(c) != []
    ensures Normalized(Strip(c))
  {
    NonWsStrip(c);
    StripSingleSpaced(c);
    StripShape(c);
  }

  /** Collapsing then stripping a piece with a visible character gives a sentence of the normalised shape. */
  lemma CleanIsNormalized(p: string)
    requires NonWs(p) != []
    ensures Normalized(Strip(Collapse(p)))
    ensures NonWs(Strip(Collapse(p))) == NonWs(p)
  {
    var c := Collapse(p);
    CollapseSingleSpaced(p);
    NonWsCollapse(p);
    NonWsStrip(c);
    StripNormalized(c);
  }
}
