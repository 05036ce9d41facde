/**
  Python's `sorted` on the items of a `forced_nodes` dict. Keys are strings
  compared lexicographically by code point, a proper prefix being smaller.
  Sorting the items gives every conditional node a canonical processing order,
  which is what lets equal forcing assignments share vertices.
 */
module Ordering {
  import opened Identity
  import opened Wrappers

  /** A `forced_nodes` dict as its ordered list of (name, forced value) items. */
  type Forcing = seq<(string, Atom)>

  /** Python's `a <= b` on `str`. */
  predicate StrLe(a: string, b: string) {
    |a| == 0 || (|b| > 0 && (a[0] < b[0] || (a[0] == b[0] && StrLe(a[1..], b[1..]))))
  }

  lemma {:induction false} StrLeTotal(a: string, b: string)
    ensures StrLe(a, b) || StrLe(b, a)
  {
    if |a| > 0 && |b| > 0 && a[0] == b[0] {
      StrLeTotal(a[1..], b[1..]);
    }
  }

  lemma {:induction false} StrLeAntisymmetric(a: string, b: string)
    requires StrLe(a, b) && StrLe(b, a)
    ensures a == b
  {
    if |a| > 0 && |b| > 0 {
      StrLeAntisymmetric(a[1..], b[1..]);
      assert a == [a[0]] + a[1..];
      assert b == [b[0]] + b[1..];
    }
  }

  lemma {:induction false} StrLeTransitive(a: string, b: string, c: string)
    requires StrLe(a, b) && StrLe(b, c)
    ensures StrLe(a, c)
  {
    if |a| > 0 && |b| > 0 && |c| > 0 && a[0] == b[0] && b[0] == c[0] {
      StrLeTransitive(a[1..], b[1..], c[1..]);
    }
  }

  /** Adjacent items are in ascending key order. */
  ghost predicate SortedByKey(s: Forcing) {
    forall i :: 0 < i < |s| ==> StrLe(s[i - 1].0, s[i].0)
  }

  /** No key occurs twice, as in any Python dict. */
  ghost predicate DistinctKeys(s: Forcing) {
    forall i, j :: 0 <= i < |s| && 0 <= j < |s| && i != j ==> s[i].0 != s[j].0
  }

  function Insert(x: (string, Atom), s: Forcing): (r: Forcing)
    requires SortedByKey(s)
    ensures SortedByKey(r)
    ensures multiset(r) == multiset(s) + multiset{x}
    ensures |r| > 0 && (r[0] == x || (|s| > 0 && r[0] == s[0]))
  {
    if |s| == 0 then [x]
    else if StrLe(x.0, s[0].0) then [x] + s
    else
      StrLeTotal(x.0, s[0].0);
      var t := Insert(x, s[1..]);
      assert s == [s[0]] + s[1..];
      [s[0]] + t
  }

  /** `sorted(v.items())`: the same items, in ascending key order. */
  function SortByKey(s: Forcing): (r: Forcing)
    ensures SortedByKey(r)
    ensures multiset(r) == multiset(s)
  {
    if |s| == 0 then []
    else
      assert s == s[..|s| - 1] + [s[|s| - 1]];
      Insert(s[|s| - 1], SortByKey(s[..|s| - 1]))
  }

  /** In a key-sorted list, the first key is at most every later key. */
  lemma {:induction false} SortedHeadLeast(s: Forcing, i: int)
    requires SortedByKey(s)
    requires 0 <= i < |s|
    ensures StrLe(s[0].0, s[i].0)
  {
    if i == 0 {
      StrLeTotal(s[0].0, s[0].0);
    } else {
      SortedHeadLeast(s, i - 1);
      StrLeTransitive(s[0].0, s[i - 1].0, s[i].0);
    }
  }

  /**
    Two key-sorted lists of the same items with distinct keys are equal: the
    sorted order of a dict's items does not depend on the order it was written in.
   */
  lemma {:induction false} SortedUnique(a: Forcing, b: Forcing)
    requires SortedByKey(a) && SortedByKey(b)
    requires DistinctKeys(a)
    requires multiset(a) == multiset(b)
    ensures a == b
  {
    if |a| == 0 {
      assert |b| == |multiset(b)| == 0;
    } else {
      assert |b| == |multiset(b)| == |multiset(a)| == |a|;
      assert a[0] in multiset(b);
      var j :| 0 <= j < |b| && b[j] == a[0];
      assert b[0] in multiset(a);
      var i :| 0 <= i < |a| && a[i] == b[0];
      SortedHeadLeast(a, i);
      SortedHeadLeast(b, j);
      StrLeAntisymmetric(a[0].0, b[0].0);
      assert i == 0;
      assert a == [a[0]] + a[1..];
      assert b == [b[0]] + b[1..];
      assert a[0] == b[0];
      assert multiset(a[1..]) == multiset(a) - multiset{a[0]};
      assert multiset(b[1..]) == multiset(b) - multiset{b[0]};
      SortedUnique(a[1..], b[1..]);
    }
  }

  /** Mutualization: writing the same forced items in another order sorts to the same list. */
  lemma SortIgnoresWrittenOrder(s: Forcing, t: Forcing)
    requires DistinctKeys(s)
    requires multiset(s) == multiset(t)
    ensures SortByKey(s) == SortByKey(t)
  {
    var a, b := SortByKey(s), SortByKey(t);
    forall i, j | 0 <= i < |a| && 0 <= j < |a| && i != j
      ensures a[i].0 != a[j].0
    {
      assert a[i] in multiset(s);
      assert a[j] in multiset(s);
      var i' :| 0 <= i' < |s| && s[i'] == a[i];
      var j' :| 0 <= j' < |s| && s[j'] == a[j];
      if a[i].0 == a[j].0 {
        assert i' == j';
        MultisetTwoPositions(a, i, j);
        assert multiset(a)[a[i]] >= 2;
        SingleOccurrence(s, i');
      }
    }
    SortedUnique(a, b);
  }

  /** An item at two distinct positions occurs at least twice. */
  lemma MultisetTwoPositions<T>(a: seq<T>, i: int, j: int)
    requires 0 <= i < |a| && 0 <= j < |a| && i != j && a[i] == a[j]
    ensures multiset(a)[a[i]] >= 2
  {
    var lo, hi := if i < j then i else j, if i < j then j else i;
    assert a == a[..lo] + [a[lo]] + a[lo + 1..hi] + [a[hi]] + a[hi + 1..];
  }

  /** In a list with distinct keys, each item occurs once. */
  lemma {:induction false} SingleOccurrence(s: Forcing, k: int)
    requires DistinctKeys(s)
    requires 0 <= k < |s|
    ensures multiset(s)[s[k]] == 1
  {
    if |s| > 0 {
      assert s == [s[0]] + s[1..];
      if k == 0 {
        assert s[0] !in s[1..];
        assert multiset(s[1..])[s[0]] == 0;
      } else {
        SingleOccurrence(s[1..], k - 1);
        assert s[1..][k - 1] == s[k];
      }
    }
  }
}
