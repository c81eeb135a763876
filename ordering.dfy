/** Sorting the list of `(key, display name)` pairs by key, as
    `typeKeys.sort(key=lambda x: x[0])` does. Python orders strings by
    comparing code points from the left, a proper prefix before its
    extensions, and its sort is stable. */
module Ordering {

  /** Python's `a <= b` on strings: code point by code point from the left,
      with a prefix before every string that extends it. */
  predicate StrLe(a: string, b: string)
    ensures a <= b ==> StrLe(a, b)
  {
    a == [] || (b != [] && (a[0] < b[0] || (a[0] == b[0] && StrLe(a[1..], b[1..]))))
  }

  /** Python's `a < b` on strings. */
  predicate StrLt(a: string, b: string) {
    StrLe(a, b) && a != b
  }

  lemma {:induction false} StrLeReflexive(a: string)
    ensures StrLe(a, a)
  {
    if a != [] {
      StrLeReflexive(a[1..]);
    }
  }

  lemma {:induction false} StrLeTotal(a: string, b: string)
    ensures StrLe(a, b) || StrLe(b, a)
  {
    if a != [] && b != [] && a[0] == b[0] {
      StrLeTotal(a[1..], b[1..]);
    }
  }

  lemma {:induction false} StrLeAntisymmetric(a: string, b: string)
    requires StrLe(a, b) && StrLe(b, a)
    ensures a == b
  {
    if a != [] && b != [] {
      StrLeAntisymmetric(a[1..], b[1..]);
      assert a == [a[0]] + a[1..] && b == [b[0]] + b[1..];
    }
  }

  lemma {:induction false} StrLeTransitive(a: string, b: string, c: string)
    requires StrLe(a, b) && StrLe(b, c)
    ensures StrLe(a, c)
  {
    if a != [] && b != [] && c != [] && a[0] == b[0] == c[0] {
      StrLeTransitive(a[1..], b[1..], c[1..]);
    }
  }

  /** The pairs are in ascending order of their keys. */
  ghost predicate SortedByKey(s: seq<(string, string)>) {
    forall i, j :: 0 <= i < j < |s| ==> StrLe(s[i].0, s[j].0)
  }

  /** No two pairs share a key. */
  ghost predicate DistinctKeys(s: seq<(string, string)>) {
    forall i, j :: 0 <= i < j < |s| ==> s[i].0 != s[j].0
  }

  /** Inserts `x` into a list sorted by key, after every pair whose key is
      not greater than its own (so that equal keys keep their order). */
  function InsertByKey(s: seq<(string, string)>, x: (string, string)): (r: seq<(string, string)>)
    ensures multiset(r) == multiset(s) + multiset{x}
    ensures |r| == |s| + 1
  {
    if s == [] then
      [x]
    else if StrLt(x.0, s[0].0) then
      [x] + s
    else
      assert s == [s[0]] + s[1..];
      [s[0]] + InsertByKey(s[1..], x)
  }

  /** Every key in `s` is at least `lo`. */
  ghost predicate KeysAtLeast(lo: string, s: seq<(string, string)>) {
    forall i :: 0 <= i < |s| ==> StrLe(lo, s[i].0)
  }

  lemma SortedCons(h: (string, string), t: seq<(string, string)>)
    requires SortedByKey(t) && KeysAtLeast(h.0, t)
    ensures SortedByKey([h] + t)
  {
    var r := [h] + t;
    forall i, j | 0 <= i < j < |r| ensures StrLe(r[i].0, r[j].0) {
      if i > 0 {
        assert r[i] == t[i - 1] && r[j] == t[j - 1];
      } else {
        assert r[j] == t[j - 1];
      }
    }
  }

  /** A key below every key of a sorted list is below all of it. */
  lemma BelowHead(lo: string, s: seq<(string, string)>)
    requires SortedByKey(s) && s != [] && StrLe(lo, s[0].0)
    ensures KeysAtLeast(lo, s)
  {
    forall i | 0 <= i < |s| ensures StrLe(lo, s[i].0) {
      if i > 0 {
        StrLeTransitive(lo, s[0].0, s[i].0);
      }
    }
  }

  lemma KeysAtLeastTail(lo: string, s: seq<(string, string)>)
    requires KeysAtLeast(lo, s) && s != []
    ensures KeysAtLeast(lo, s[1..])
  {
    forall i | 0 <= i < |s[1..]| ensures StrLe(lo, s[1..][i].0) {
      assert s[1..][i] == s[i + 1];
    }
  }

  lemma KeysAtLeastCons(lo: string, h: (string, string), t: seq<(string, string)>)
    requires StrLe(lo, h.0) && KeysAtLeast(lo, t)
    ensures KeysAtLeast(lo, [h] + t)
  {
    var r := [h] + t;
    forall i | 0 <= i < |r| ensures StrLe(lo, r[i].0) {
      if i > 0 {
        assert r[i] == t[i - 1];
      }
    }
  }

  lemma SortedTail(s: seq<(string, string)>)
    requires SortedByKey(s) && s != []
    ensures SortedByKey(s[1..]) && KeysAtLeast(s[0].0, s[1..])
  {
    forall i, j | 0 <= i < j < |s[1..]| ensures StrLe(s[1..][i].0, s[1..][j].0) {
      assert s[1..][i] == s[i + 1] && s[1..][j] == s[j + 1];
    }
    forall i | 0 <= i < |s[1..]| ensures StrLe(s[0].0, s[1..][i].0) {
      assert s[1..][i] == s[i + 1];
    }
  }

  /** Insertion keeps a lower bound on the keys. */
  lemma {:induction false} InsertKeepsLowerBound(lo: string, s: seq<(string, string)>, x: (string, string))
    requires KeysAtLeast(lo, s) && StrLe(lo, x.0)
    ensures KeysAtLeast(lo, InsertByKey(s, x))
  {
    if s == [] {
      KeysAtLeastCons(lo, x, s);
      assert InsertByKey(s, x) == [x] + s;
    } else if StrLt(x.0, s[0].0) {
      KeysAtLeastCons(lo, x, s);
    } else {
      KeysAtLeastTail(lo, s);
      InsertKeepsLowerBound(lo, s[1..], x);
      KeysAtLeastCons(lo, s[0], InsertByKey(s[1..], x));
    }
  }

  /** Insertion keeps a sorted list sorted. */
  lemma {:induction false} InsertByKeySorted(s: seq<(string, string)>, x: (string, string))
    requires SortedByKey(s)
    ensures SortedByKey(InsertByKey(s, x))
  {
    if s == [] {
    } else if StrLt(x.0, s[0].0) {
      BelowHead(x.0, s);
      SortedCons(x, s);
    } else {
      SortedTail(s);
      InsertByKeySorted(s[1..], x);
      StrLeTotal(x.0, s[0].0);
      if x.0 == s[0].0 { StrLeReflexive(x.0); }
      InsertKeepsLowerBound(s[0].0, s[1..], x);
      SortedCons(s[0], InsertByKey(s[1..], x));
    }
  }

  /** Python's `list.sort(key=lambda x: x[0])` on the list `s`: the result
      is in ascending order of keys and holds the same pairs. */
  method SortByKey(s: seq<(string, string)>) returns (r: seq<(string, string)>)
    ensures SortedByKey(r)
    ensures multiset(r) == multiset(s)
  {
    r := [];
    var i := 0;
    while i < |s|
      invariant 0 <= i <= |s|
      invariant SortedByKey(r)
      invariant multiset(r) == multiset(s[..i])
    {
      assert s[..i + 1] == s[..i] + [s[i]];
      InsertByKeySorted(r, s[i]);
      r := InsertByKey(r, s[i]);
      i := i + 1;
    }
    assert s[..|s|] == s;
  }

  /** Two sorted lists holding the same pairs, one with distinct keys,
      start with the same pair. */
  lemma SortedSameHead(a: seq<(string, string)>, b: seq<(string, string)>)
    requires SortedByKey(a) && SortedByKey(b) && DistinctKeys(a)
    requires multiset(a) == multiset(b) && a != []
    ensures b != [] && a[0] == b[0]
  {
    assert a[0] in multiset(b);
    assert b != [] && b[0] in multiset(a);
    var k :| 0 <= k < |a| && a[k] == b[0];
    var m :| 0 <= m < |b| && b[m] == a[0];
    assert StrLe(a[0].0, a[k].0) by { if k == 0 { StrLeReflexive(a[0].0); } }
    assert StrLe(b[0].0, b[m].0) by { if m == 0 { StrLeReflexive(b[0].0); } }
    StrLeAntisymmetric(a[0].0, b[0].0);
  }

  lemma MultisetTail<T>(s: seq<T>)
    requires s != []
    ensures multiset(s[1..]) == multiset(s) - multiset{s[0]}
  {
    assert s == [s[0]] + s[1..];
  }

  /** With distinct keys there is only one sorted order: two sorted lists
      holding the same pairs are equal, so the result does not depend on how
      the sort is done. */
  lemma {:induction false} SortedOrderIsUnique(a: seq<(string, string)>, b: seq<(string, string)>)
    requires SortedByKey(a) && SortedByKey(b) && DistinctKeys(a)
    requires multiset(a) == multiset(b)
    ensures a == b
  {
    if a == [] {
      assert |b| == |multiset(b)| == 0;
    } else {
      SortedSameHead(a, b);
      SortedTail(a);
      SortedTail(b);
      MultisetTail(a);
      MultisetTail(b);
      assert DistinctKeys(a[1..]) by {
        forall i, j | 0 <= i < j < |a[1..]| ensures a[1..][i].0 != a[1..][j].0 {
          assert a[1..][i] == a[i + 1] && a[1..][j] == a[j + 1];
        }
      }
      SortedOrderIsUnique(a[1..], b[1..]);
      assert a == [a[0]] + a[1..] && b == [b[0]] + b[1..];
    }
  }
}
