/**
 * OrderBy/ThenBy of LINQ: a stable sort by a "sorts at or before" relation.
 * It is written as an insertion sort that puts each element before the first
 * one it sorts at or before, so equal elements keep their input order.
 */
module Sorting {

  /** `le` is total and transitive: a key comparison. */
  ghost predicate TotalPreorder<T(!new)>(le: (T, T) -> bool) {
    && (forall a, b :: le(a, b) || le(b, a))
    && (forall a, b, c :: le(a, b) && le(b, c) ==> le(a, c))
  }

  ghost predicate SortedBy<T>(s: seq<T>, le: (T, T) -> bool) {
    forall i, j :: 0 <= i < j < |s| ==> le(s[i], s[j])
  }

  function InsertBy<T>(x: T, s: seq<T>, le: (T, T) -> bool): (r: seq<T>)
    ensures multiset(r) == multiset(s) + multiset{x}
    ensures |r| == |s| + 1
  {
    if s == [] then [x]
    else if le(x, s[0]) then [x] + s
    else
      assert s == [s[0]] + s[1..];
      [s[0]] + InsertBy(x, s[1..], le)
  }

  /** The sorted sequence: the same elements, ordered by `le`, ties in input order. */
  function SortBy<T>(s: seq<T>, le: (T, T) -> bool): (r: seq<T>)
    ensures multiset(r) == multiset(s)
    ensures |r| == |s|
  {
    if s == [] then []
    else
      assert s == [s[0]] + s[1..];
      InsertBy(s[0], SortBy(s[1..], le), le)
  }

  /** Sorting neither adds nor drops an element. */
  lemma SortByMember<T>(s: seq<T>, le: (T, T) -> bool, x: T)
    ensures x in SortBy(s, le) <==> x in s
  {
    assert x in SortBy(s, le) <==> x in multiset(SortBy(s, le));
    assert x in s <==> x in multiset(s);
  }

  lemma {:induction false} InsertBySorted<T(!new)>(x: T, s: seq<T>, le: (T, T) -> bool)
    requires TotalPreorder(le) && SortedBy(s, le)
    ensures SortedBy(InsertBy(x, s, le), le)
  {
    if s != [] && !le(x, s[0]) {
      InsertBySorted(x, s[1..], le);
      var r := InsertBy(x, s, le);
      var t := InsertBy(x, s[1..], le);
      assert r == [s[0]] + t;
      forall j | 1 <= j < |r| ensures le(s[0], r[j]) {
        assert r[j] == t[j - 1];
        assert r[j] in multiset(t);
        assert r[j] in multiset(s[1..]) + multiset{x};
        if r[j] != x {
          var k :| 0 <= k < |s[1..]| && s[1..][k] == r[j];
          assert s[1..][k] == s[k + 1];
        }
      }
    }
  }

  lemma {:induction false} SortBySorted<T(!new)>(s: seq<T>, le: (T, T) -> bool)
    requires TotalPreorder(le)
    ensures SortedBy(SortBy(s, le), le)
  {
    if s != [] {
      SortBySorted(s[1..], le);
      InsertBySorted(s[0], SortBy(s[1..], le), le);
    }
  }

  /** The elements of `s` that tie with `x` under `le`, in their order in `s`. */
  function TiesWith<T>(s: seq<T>, le: (T, T) -> bool, x: T): seq<T>
    decreases |s|
  {
    if s == [] then []
    else (if le(x, s[0]) && le(s[0], x) then [s[0]] else []) + TiesWith(s[1..], le, x)
  }

  lemma TiesCons<T>(h: T, rest: seq<T>, le: (T, T) -> bool, x: T)
    ensures TiesWith([h] + rest, le, x) == (if le(x, h) && le(h, x) then [h] else []) + TiesWith(rest, le, x)
  {
    assert ([h] + rest)[0] == h && ([h] + rest)[1..] == rest;
  }

  /** Inserting an element puts it before every element it ties with. */
  lemma {:induction false} InsertByTies<T(!new)>(y: T, t: seq<T>, le: (T, T) -> bool, x: T)
    requires TotalPreorder(le)
    ensures TiesWith(InsertBy(y, t, le), le, x) ==
      (if le(x, y) && le(y, x) then [y] else []) + TiesWith(t, le, x)
    decreases |t|
  {
    if t == [] {
    } else if le(y, t[0]) {
      TiesCons(y, t, le, x);
    } else {
      var ys: seq<T> := if le(x, y) && le(y, x) then [y] else [];
      var ts: seq<T> := if le(x, t[0]) && le(t[0], x) then [t[0]] else [];
      var u := InsertBy(y, t[1..], le);
      var w := TiesWith(t[1..], le, x);
      InsertByTies(y, t[1..], le, x);
      TiesCons(t[0], u, le, x);
      var h := t[0];
      assert le(y, x) && le(x, h) ==> le(y, h);
      TieSwap(ts, ys, w);
    }
  }

  /** Two tie groups of which one is empty may be written in either order. */
  lemma TieSwap<T>(a: seq<T>, b: seq<T>, w: seq<T>)
    requires a == [] || b == []
    ensures a + (b + w) == b + (a + w)
  {
  }

  /** The sort is stable: elements that tie keep their input order. */
  lemma {:induction false} SortByStable<T(!new)>(s: seq<T>, le: (T, T) -> bool, x: T)
    requires TotalPreorder(le)
    ensures TiesWith(SortBy(s, le), le, x) == TiesWith(s, le, x)
    decreases |s|
  {
    if s != [] {
      SortByStable(s[1..], le, x);
      InsertByTies(s[0], SortBy(s[1..], le), le, x);
    }
  }

  /** No two elements of `s` tie under `le` unless they are equal. */
  ghost predicate NoTies<T>(s: seq<T>, le: (T, T) -> bool) {
    forall i, j :: 0 <= i < |s| && 0 <= j < |s| && le(s[i], s[j]) && le(s[j], s[i]) ==> s[i] == s[j]
  }

  lemma MultisetTail<T>(s: seq<T>, t: seq<T>)
    requires s != [] && t != [] && s[0] == t[0] && multiset(s) == multiset(t)
    ensures multiset(s[1..]) == multiset(t[1..])
  {
    assert s == [s[0]] + s[1..];
    assert t == [t[0]] + t[1..];
    assert multiset(s) == multiset{s[0]} + multiset(s[1..]);
    assert multiset(t) == multiset{t[0]} + multiset(t[1..]);
    assert multiset(s[1..]) == multiset(s) - multiset{s[0]};
    assert multiset(t[1..]) == multiset(t) - multiset{t[0]};
  }

  lemma NoTiesTail<T>(s: seq<T>, le: (T, T) -> bool)
    requires s != [] && NoTies(s, le)
    ensures NoTies(s[1..], le)
  {
    forall a, b | 0 <= a < |s[1..]| && 0 <= b < |s[1..]| && le(s[1..][a], s[1..][b]) && le(s[1..][b], s[1..][a])
      ensures s[1..][a] == s[1..][b]
    {
      assert s[1..][a] == s[a + 1] && s[1..][b] == s[b + 1];
    }
  }

  /**
   * Without ties there is one sorted arrangement of a multiset: two sorted
   * sequences with the same elements are equal.
   */
  lemma {:induction false} SortedUnique<T(!new)>(s: seq<T>, t: seq<T>, le: (T, T) -> bool)
    requires SortedBy(s, le) && SortedBy(t, le)
    requires multiset(s) == multiset(t)
    requires NoTies(s, le)
    ensures s == t
    decreases |s|
  {
    assert |s| == |multiset(s)| == |multiset(t)| == |t|;
    if s != [] {
      assert s[0] in multiset(t) && t[0] in multiset(s);
      var i :| 0 <= i < |t| && t[i] == s[0];
      var j :| 0 <= j < |s| && s[j] == t[0];
      if i > 0 && j > 0 {
        assert le(t[0], t[i]);
        assert le(s[0], s[j]);
        assert s[0] == s[j];
      }
      MultisetTail(s, t);
      NoTiesTail(s, le);
      SortedUnique(s[1..], t[1..], le);
      assert s == [s[0]] + s[1..] && t == [t[0]] + t[1..];
    }
  }

  /** A sequence already sorted is its own sorted arrangement, when there are no ties. */
  lemma SortBySortedInput<T(!new)>(s: seq<T>, le: (T, T) -> bool)
    requires TotalPreorder(le) && SortedBy(s, le) && NoTies(s, le)
    ensures SortBy(s, le) == s
  {
    SortBySorted(s, le);
    var r := SortBy(s, le);
    assert NoTies(r, le) by {
      forall a, b | 0 <= a < |r| && 0 <= b < |r| && le(r[a], r[b]) && le(r[b], r[a])
        ensures r[a] == r[b]
      {
        assert r[a] in multiset(s) && r[b] in multiset(s);
        var a' :| 0 <= a' < |s| && s[a'] == r[a];
        var b' :| 0 <= b' < |s| && s[b'] == r[b];
      }
    }
    SortedUnique(r, s, le);
  }

  /** A key `f` that tells the elements of `s` apart. */
  ghost predicate DistinctBy<T, U>(s: seq<T>, f: T -> U) {
    forall i, j :: 0 <= i < j < |s| ==> f(s[i]) != f(s[j])
  }

  /** Dropping the head keeps a sequence distinct by `f`. */
  lemma DistinctTail<T, U>(s: seq<T>, f: T -> U)
    requires s != [] && DistinctBy(s, f)
    ensures DistinctBy(s[1..], f)
  {
    forall i, j | 0 <= i < j < |s[1..]| ensures f(s[1..][i]) != f(s[1..][j]) {
      assert s[1..][i] == s[i + 1] && s[1..][j] == s[j + 1];
    }
  }

  /** A head whose key no later element shares keeps the sequence distinct by `f`. */
  lemma DistinctCons<T, U>(h: T, t: seq<T>, f: T -> U)
    requires DistinctBy(t, f) && forall y :: y in t ==> f(y) != f(h)
    ensures DistinctBy([h] + t, f)
  {
    var r := [h] + t;
    forall i, j | 0 <= i < j < |r| ensures f(r[i]) != f(r[j]) {
      assert r[j] == t[j - 1];
      if i > 0 {
        assert r[i] == t[i - 1];
      }
    }
  }

  lemma {:induction false} InsertByDistinct<T, U>(x: T, s: seq<T>, le: (T, T) -> bool, f: T -> U)
    requires DistinctBy(s, f) && forall y :: y in s ==> f(y) != f(x)
    ensures DistinctBy(InsertBy(x, s, le), f)
  {
    if s == [] {
    } else if le(x, s[0]) {
      DistinctCons(x, s, f);
    } else {
      var t := InsertBy(x, s[1..], le);
      DistinctTail(s, f);
      InsertByDistinct(x, s[1..], le, f);
      forall y | y in t ensures f(y) != f(s[0]) {
        assert y in multiset(s[1..]) + multiset{x};
        if y != x {
          var k :| 0 <= k < |s[1..]| && s[1..][k] == y;
          assert s[1..][k] == s[k + 1];
        }
      }
      DistinctCons(s[0], t, f);
    }
  }

  /** Sorting keeps a distinguishing key distinguishing: no element is duplicated. */
  lemma {:induction false} SortByDistinct<T, U>(s: seq<T>, le: (T, T) -> bool, f: T -> U)
    requires DistinctBy(s, f)
    ensures DistinctBy(SortBy(s, le), f)
  {
    if s != [] {
      DistinctTail(s, f);
      SortByDistinct(s[1..], le, f);
      forall y | y in SortBy(s[1..], le) ensures f(y) != f(s[0]) {
        assert y in multiset(s[1..]);
        var k :| 0 <= k < |s[1..]| && s[1..][k] == y;
        assert s[1..][k] == s[k + 1];
      }
      InsertByDistinct(s[0], SortBy(s[1..], le), le, f);
    }
  }
}
