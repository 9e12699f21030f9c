/**
 * Generic facts about the tables of the store: a table is a sequence of
 * records kept in insertion order, and a query is a filter over it.
 */
module Sequences {
  import opened Wrappers

  /** The records of `s` that satisfy `p`, in their order in `s` (a queryset `filter`). */
  function Filter<T(!new)>(s: seq<T>, p: T -> bool): (r: seq<T>)
    ensures |r| <= |s|
    ensures forall x :: x in r <==> x in s && p(x)
  {
    if s == [] then []
    else if p(s[0]) then [s[0]] + Filter(s[1..], p)
    else Filter(s[1..], p)
  }

  /** `s` back to front. */
  function Reverse<T(!new)>(s: seq<T>): (r: seq<T>)
    ensures |r| == |s|
    ensures forall i :: 0 <= i < |s| ==> r[i] == s[|s| - 1 - i]
    ensures forall x :: x in r <==> x in s
  {
    if s == [] then [] else Reverse(s[1..]) + [s[0]]
  }

  /** The first `n` records of `s`, or all of them when there are fewer (a queryset slice `[:n]`). */
  function Take<T>(s: seq<T>, n: nat): (r: seq<T>)
    ensures |r| == if |s| < n then |s| else n
    ensures r == s[..|r|]
  {
    if |s| <= n then s else s[..n]
  }

  /** The position of the first record of `s` that satisfies `p`, if any (a queryset `.get` or `.first()`). */
  function FirstIndex<T>(s: seq<T>, p: T -> bool): (r: Option<nat>)
    ensures r.Some? ==> r.value < |s| && p(s[r.value]) && forall k :: 0 <= k < r.value ==> !p(s[k])
    ensures r.None? <==> forall k :: 0 <= k < |s| ==> !p(s[k])
  {
    if s == [] then None
    else if p(s[0]) then Some(0)
    else match FirstIndex(s[1..], p)
      case None => None
      case Some(k) => Some(k + 1)
  }

  /** The key strictly increases along `s`. */
  ghost predicate Ascending<T>(s: seq<T>, key: T -> int)
  {
    forall i, j :: 0 <= i < j < |s| ==> key(s[i]) < key(s[j])
  }

  /** The key strictly decreases along `s`. */
  ghost predicate Descending<T>(s: seq<T>, key: T -> int)
  {
    forall i, j :: 0 <= i < j < |s| ==> key(s[i]) > key(s[j])
  }

  /** Every key in `s` is below `bound`. */
  ghost predicate Below<T>(s: seq<T>, key: T -> int, bound: int)
  {
    forall i :: 0 <= i < |s| ==> key(s[i]) < bound
  }

  /** No two records of `s` share a key (a `unique_together` constraint). */
  ghost predicate Distinct<T, K>(s: seq<T>, key: T -> K)
  {
    forall i, j :: 0 <= i < j < |s| ==> key(s[i]) != key(s[j])
  }

  /** The number of records of `s` whose key is `k`. */
  function Count<T(!new), K(==)>(s: seq<T>, key: T -> K, k: K): (n: nat)
    ensures n <= |s|
    ensures n == 0 <==> forall x :: x in s ==> key(x) != k
  {
    if s == [] then 0 else (if key(s[0]) == k then 1 else 0) + Count(s[1..], key, k)
  }

  lemma {:induction false} FilterAscending<T(!new)>(s: seq<T>, p: T -> bool, key: T -> int)
    requires Ascending(s, key)
    ensures Ascending(Filter(s, p), key)
  {
    if s != [] {
      FilterAscending(s[1..], p, key);
      var rest := Filter(s[1..], p);
      forall x | x in rest ensures key(s[0]) < key(x) {
        var k :| 0 <= k < |s[1..]| && s[1..][k] == x;
        assert s[k + 1] == x;
      }
    }
  }

  lemma {:induction false} FilterDistinct<T(!new), K>(s: seq<T>, p: T -> bool, key: T -> K)
    requires Distinct(s, key)
    ensures Distinct(Filter(s, p), key)
  {
    if s != [] {
      FilterDistinct(s[1..], p, key);
      var rest := Filter(s[1..], p);
      forall x | x in rest ensures key(s[0]) != key(x) {
        var k :| 0 <= k < |s[1..]| && s[1..][k] == x;
        assert s[k + 1] == x;
      }
    }
  }

  lemma FilterBelow<T(!new)>(s: seq<T>, p: T -> bool, key: T -> int, bound: int)
    requires Below(s, key, bound)
    ensures Below(Filter(s, p), key, bound)
  {
    var r := Filter(s, p);
    forall i | 0 <= i < |r| ensures key(r[i]) < bound {
      assert r[i] in s;
    }
  }

  lemma ReverseDescending<T(!new)>(s: seq<T>, key: T -> int)
    requires Ascending(s, key)
    ensures Descending(Reverse(s), key)
  {
  }

  /** A table kept in ascending key order lists its filtered rows in descending key order when reversed. */
  lemma NewestFirst<T(!new)>(s: seq<T>, p: T -> bool, key: T -> int)
    ensures Ascending(s, key) ==> Descending(Reverse(Filter(s, p)), key)
  {
    if Ascending(s, key) {
      FilterAscending(s, p, key);
      ReverseDescending(Filter(s, p), key);
    }
  }

  /** A key that occurs in a table without duplicate keys occurs exactly once. */
  lemma {:induction false} CountDistinct<T(!new), K>(s: seq<T>, key: T -> K, k: K)
    requires Distinct(s, key)
    requires exists x :: x in s && key(x) == k
    ensures Count(s, key, k) == 1
  {
    assert s != [];
    var tail := s[1..];
    assert Distinct(tail, key);
    if key(s[0]) == k {
      forall x | x in tail ensures key(x) != k {
        var j :| 0 <= j < |tail| && tail[j] == x;
        assert s[j + 1] == x;
      }
    } else {
      var x :| x in s && key(x) == k;
      assert x in tail;
      CountDistinct(tail, key, k);
    }
  }

  /** Splitting a filter into two disjoint filters splits its length. */
  lemma {:induction false} FilterSplit<T(!new)>(s: seq<T>, p: T -> bool, q: T -> bool, r: T -> bool)
    requires forall x :: x in s ==> (p(x) <==> q(x) || r(x)) && !(q(x) && r(x))
    ensures |Filter(s, p)| == |Filter(s, q)| + |Filter(s, r)|
  {
    if s != [] {
      assert s[0] in s;
      assert forall x :: x in s[1..] ==> x in s;
      FilterSplit(s[1..], p, q, r);
    }
  }

  /** Two tables of equal length whose rows agree position by position (row k of `s` satisfies `p` exactly when row k of `s'` satisfies `p'`) have filters of equal length. */
  lemma {:induction false} FilterLengthPointwise<T(!new)>(s: seq<T>, s': seq<T>, p: T -> bool, p': T -> bool)
    requires |s| == |s'| && forall k :: 0 <= k < |s| ==> p(s[k]) == p'(s'[k])
    ensures |Filter(s, p)| == |Filter(s', p')|
  {
    if s != [] {
      assert p(s[0]) == p'(s'[0]);
      FilterLengthPointwise(s[1..], s'[1..], p, p');
    }
  }

  /** A filter no row of the table satisfies selects nothing. */
  lemma {:induction false} FilterNone<T(!new)>(s: seq<T>, p: T -> bool)
    requires forall x :: x in s ==> !p(x)
    ensures Filter(s, p) == []
  {
    if s != [] {
      assert s[0] in s;
      assert forall x :: x in s[1..] ==> x in s;
      FilterNone(s[1..], p);
    }
  }

  /** Two filters that agree on every row of the table select the same rows. */
  lemma {:induction false} FilterAgree<T(!new)>(s: seq<T>, p: T -> bool, q: T -> bool)
    requires forall x :: x in s ==> p(x) == q(x)
    ensures Filter(s, p) == Filter(s, q)
  {
    if s != [] {
      assert s[0] in s;
      assert forall x :: x in s[1..] ==> x in s;
      FilterAgree(s[1..], p, q);
    }
  }
}
