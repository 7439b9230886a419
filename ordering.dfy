/**
 * Python's ordering of strings (lexicographic by code point) and `sorted`
 * applied to a set of entity types.
 */
module Ordering {

  /** `a < b` on Python strings: the first differing code point decides, a proper prefix is smaller. */
  predicate LexLess(a: string, b: string) {
    if a == [] then b != []
    else if b == [] then false
    else a[0] < b[0] || (a[0] == b[0] && LexLess(a[1..], b[1..]))
  }

  lemma {:induction false} LexLessIrreflexive(a: string)
    ensures !LexLess(a, a)
  {
    if a != [] {
      LexLessIrreflexive(a[1..]);
    }
  }

  lemma {:induction false} LexLessTransitive(a: string, b: string, c: string)
    requires LexLess(a, b) && LexLess(b, c)
    ensures LexLess(a, c)
  {
    if a != [] && b != [] && c != [] && a[0] == b[0] && b[0] == c[0] {
      LexLessTransitive(a[1..], b[1..], c[1..]);
    }
  }

  lemma {:induction false} LexLessTotal(a: string, b: string)
    requires a != b
    ensures LexLess(a, b) || LexLess(b, a)
  {
    if a != [] && b != [] && a[0] == b[0] {
      assert a == [a[0]] + a[1..] && b == [b[0]] + b[1..];
      LexLessTotal(a[1..], b[1..]);
    }
  }

  /** The strings listed in `s`. */
  function Elements(s: seq<string>): set<string> {
    set y | y in s
  }

  /** Ascending and without repetitions. */
  ghost predicate StrictlySorted(s: seq<string>) {
    forall i, j :: 0 <= i < j < |s| ==> LexLess(s[i], s[j])
  }

  /** `x` put into its place in a sorted list (no change when it is there already). */
  function Insert(s: seq<string>, x: string): (r: seq<string>)
    requires StrictlySorted(s)
    ensures StrictlySorted(r)
    ensures Elements(r) == Elements(s) + {x}
  {
    if s == [] then [x]
    else if x == s[0] then s
    else if LexLess(x, s[0]) then
      PrependSmaller(x, s);
      [x] + s
    else
      LexLessTotal(x, s[0]);
      var t := Insert(s[1..], x);
      PrependHead(s, x, t);
      [s[0]] + t
  }

  lemma PrependSmaller(x: string, s: seq<string>)
    requires StrictlySorted(s) && s != [] && LexLess(x, s[0])
    ensures StrictlySorted([x] + s)
    ensures Elements([x] + s) == Elements(s) + {x}
  {
    forall j | 0 < j < |s| ensures LexLess(x, s[j]) {
      LexLessTransitive(x, s[0], s[j]);
    }
    var r := [x] + s;
    forall i, j | 0 <= i < j < |r| ensures LexLess(r[i], r[j]) {
      if i > 0 {
        assert r[i] == s[i - 1] && r[j] == s[j - 1];
      } else {
        assert r[j] == s[j - 1];
      }
    }
  }

  lemma PrependHead(s: seq<string>, x: string, t: seq<string>)
    requires StrictlySorted(s) && s != [] && LexLess(s[0], x)
    requires StrictlySorted(t) && Elements(t) == Elements(s[1..]) + {x}
    ensures StrictlySorted([s[0]] + t)
    ensures Elements([s[0]] + t) == Elements(s) + {x}
  {
    forall y | y in t ensures LexLess(s[0], y) {
      assert y in Elements(t);
      if y != x {
        assert y in Elements(s[1..]);
        var j :| 0 <= j < |s[1..]| && s[1..][j] == y;
        assert s[j + 1] == y;
      }
    }
    assert s == [s[0]] + s[1..];
    var r := [s[0]] + t;
    assert Elements(r) == {s[0]} + Elements(t);
    forall i, j | 0 <= i < j < |r| ensures LexLess(r[i], r[j]) {
      assert r[j] == t[j - 1] && t[j - 1] in t;
      if i > 0 {
        assert r[i] == t[i - 1];
      }
    }
  }

  /** `sorted(ents)` for a set of entity types. */
  method SortEntities(ents: set<string>) returns (r: seq<string>)
    ensures StrictlySorted(r)
    ensures Elements(r) == ents
  {
    r := [];
    var rest := ents;
    while rest != {}
      invariant StrictlySorted(r)
      invariant Elements(r) + rest == ents
      decreases rest
    {
      var x :| x in rest;
      r := Insert(r, x);
      rest := rest - {x};
    }
  }

  /** Only the empty list has no elements. */
  lemma ElementsEmpty(s: seq<string>)
    ensures Elements(s) == {} <==> s == []
  {
    if s != [] {
      assert s[0] in Elements(s);
    }
  }

  /** The head of a sorted list is below every other element. */
  lemma SortedHeadLeast(s: seq<string>, y: string)
    requires StrictlySorted(s) && y in s && y != s[0]
    ensures LexLess(s[0], y)
  {
    var j :| 0 <= j < |s| && s[j] == y;
  }

  /** A set has only one sorted listing, so `sorted` does not depend on the order the set is walked in. */
  lemma {:induction false} SortedUnique(a: seq<string>, b: seq<string>)
    requires StrictlySorted(a) && StrictlySorted(b)
    requires Elements(a) == Elements(b)
    ensures a == b
  {
    ElementsEmpty(a);
    ElementsEmpty(b);
    if a != [] && b != [] {
      assert forall y :: y in a <==> y in b by {
        forall y ensures y in a <==> y in b {
          assert y in a <==> y in Elements(a);
          assert y in b <==> y in Elements(b);
        }
      }
      assert a[0] == b[0] by {
        if a[0] != b[0] {
          SortedHeadLeast(b, a[0]);
          SortedHeadLeast(a, b[0]);
          LexLessTransitive(a[0], b[0], a[0]);
          LexLessIrreflexive(a[0]);
        }
      }
      forall y ensures y in Elements(a[1..]) <==> y in Elements(b[1..]) {
        if y in a[1..] {
          var i :| 0 <= i < |a[1..]| && a[1..][i] == y;
          assert LexLess(a[0], a[i + 1]);
          LexLessIrreflexive(y);
          assert y in a;
          var j :| 0 <= j < |b| && b[j] == y;
          assert j != 0;
          assert b[1..][j - 1] == y;
        }
        if y in b[1..] {
          var i :| 0 <= i < |b[1..]| && b[1..][i] == y;
          assert LexLess(b[0], b[i + 1]);
          LexLessIrreflexive(y);
          assert y in b;
          var j :| 0 <= j < |a| && a[j] == y;
          assert j != 0;
          assert a[1..][j - 1] == y;
        }
      }
      SortedUnique(a[1..], b[1..]);
      assert a == [a[0]] + a[1..] && b == [b[0]] + b[1..];
    }
  }
}
