/**
 * The sequence helpers of the localiser: CountMatching, the length of the run
 * of positions where two sequences agree, and FirstIndexOf, a first-match
 * search; and LINQ's Distinct, which the callers use on names and languages.
 */
module EnumerableExtensions {

  function Min(a: int, b: int): int { if a <= b then a else b }
  function Max(a: int, b: int): int { if a >= b then a else b }

  /**
   * The number of consecutive positions, from `i` on, where `a` and `b`
   * agree, stopping at the first disagreement or at the end of the shorter one.
   */
  function RunFrom<T(==)>(a: seq<T>, b: seq<T>, i: nat): (r: nat)
    ensures i + r <= Max(Min(|a|, |b|), i)
    ensures forall j :: i <= j < i + r ==> a[j] == b[j]
    ensures i + r < Min(|a|, |b|) ==> a[i + r] != b[i + r]
    decreases Min(|a|, |b|) - i
  {
    if i < Min(|a|, |b|) && a[i] == b[i] then 1 + RunFrom(a, b, i + 1) else 0
  }

  /**
   * CountMatching(e1, e2, start): zip the two sequences, skip `start` pairs
   * (a negative `start` skips none), and give the index of the first
   * disagreeing pair among the rest; when there is none, the shorter length
   * minus `start`, each length first clamped at zero.
   */
  function CountMatching<T(==)>(a: seq<T>, b: seq<T>, start: int): (r: nat)
    ensures start >= 0 ==> r <= Max(Min(|a|, |b|) - start, 0)
    ensures start >= 0 ==> forall j :: start <= j < start + r ==> a[j] == b[j]
    ensures start >= 0 && start + r < Min(|a|, |b|) ==> a[start + r] != b[start + r]
  {
    var skip := Max(start, 0);
    var run := RunFrom(a, b, skip);
    if skip + run < Min(|a|, |b|) then run
    else Min(Max(|a| - start, 0), Max(|b| - start, 0))
  }

  lemma {:induction false} RunFromSymmetric<T>(a: seq<T>, b: seq<T>, i: nat)
    ensures RunFrom(a, b, i) == RunFrom(b, a, i)
    decreases Min(|a|, |b|) - i
  {
    if i < Min(|a|, |b|) && a[i] == b[i] {
      RunFromSymmetric(a, b, i + 1);
    }
  }

  /** The count does not depend on which side is the receiver. */
  lemma CountMatchingSymmetric<T>(a: seq<T>, b: seq<T>, start: int)
    ensures CountMatching(a, b, start) == CountMatching(b, a, start)
  {
    RunFromSymmetric(a, b, Max(start, 0));
  }

  /**
   * A run of `n` agreeing positions from `start` that ends at a disagreement
   * or at the end of the shorter sequence is exactly what CountMatching counts.
   */
  lemma CountMatchingRun<T>(a: seq<T>, b: seq<T>, start: nat, n: nat)
    requires start + n <= Min(|a|, |b|)
    requires a[start..start + n] == b[start..start + n]
    requires start + n < Min(|a|, |b|) ==> a[start + n] != b[start + n]
    ensures CountMatching(a, b, start) == n
  {
    var r := CountMatching(a, b, start);
    assert forall j :: start <= j < start + n ==> a[j] == a[start..start + n][j - start];
  }

  /** The length of the common prefix of `a` and `b`. */
  function CommonPrefix<T(==)>(a: seq<T>, b: seq<T>): nat {
    if a != [] && b != [] && a[0] == b[0] then 1 + CommonPrefix(a[1..], b[1..]) else 0
  }

  lemma {:induction false} RunFromIsCommonPrefix<T>(a: seq<T>, b: seq<T>, i: nat)
    requires i <= Min(|a|, |b|)
    ensures RunFrom(a, b, i) == CommonPrefix(a[i..], b[i..])
    decreases Min(|a|, |b|) - i
  {
    if i < Min(|a|, |b|) && a[i] == b[i] {
      RunFromIsCommonPrefix(a, b, i + 1);
      assert a[i..][1..] == a[i + 1..] && b[i..][1..] == b[i + 1..];
    }
  }

  /** Counting from the start, CountMatching is the common prefix length. */
  lemma CountMatchingIsCommonPrefix<T>(a: seq<T>, b: seq<T>)
    ensures CountMatching(a, b, 0) == CommonPrefix(a, b)
  {
    RunFromIsCommonPrefix(a, b, 0);
    assert a[0..] == a && b[0..] == b;
  }

  /** The cases of the unit test of CountMatching. */
  lemma CountMatchingExamples()
    ensures CountMatching("appleHere", "appleThere", 0) == 5
    ensures CountMatching("apples", "apples", 0) == 6
    ensures CountMatching("apple", "banana", 0) == 0
    ensures CountMatching("1234pineappleHere", "4321pineappleThereitIs", 4) == 9
    ensures CountMatching("1234appleHere", "4321appleThere", 0) == 0
    ensures CountMatching("", "", 0) == 0
    ensures CountMatching("apple", "orange", 0) == 0
    ensures CountMatching("apple", "apples", 0) == 5
  {
    CountMatchingRun("appleHere", "appleThere", 0, 5);
    CountMatchingRun("apples", "apples", 0, 6);
    CountMatchingRun("apple", "banana", 0, 0);
    CountMatchingRun("1234pineappleHere", "4321pineappleThereitIs", 4, 9);
    CountMatchingRun("1234appleHere", "4321appleThere", 0, 0);
    CountMatchingRun("apple", "orange", 0, 0);
    CountMatchingRun("apple", "apples", 0, 5);
  }

  /** The first index `i >= from` with `matchedOn(i, items[i])`, or -1. */
  function FirstIndexFrom<T>(items: seq<T>, matchedOn: (int, T) -> bool, from: nat): (r: int)
    requires from <= |items|
    ensures r == -1 || from <= r < |items|
    ensures r == -1 <==> forall j :: from <= j < |items| ==> !matchedOn(j, items[j])
    ensures r != -1 ==> matchedOn(r, items[r]) && forall j :: from <= j < r ==> !matchedOn(j, items[j])
    decreases |items| - from
  {
    if from == |items| then -1
    else if matchedOn(from, items[from]) then from
    else FirstIndexFrom(items, matchedOn, from + 1)
  }

  /** FirstIndexOf: the least index whose element matches, or -1 when none does. */
  function FirstIndexOf<T>(items: seq<T>, matchedOn: (int, T) -> bool): (r: int)
    ensures r == -1 <==> forall j :: 0 <= j < |items| ==> !matchedOn(j, items[j])
    ensures r != -1 ==> 0 <= r < |items| && matchedOn(r, items[r])
    ensures r != -1 ==> forall j :: 0 <= j < r ==> !matchedOn(j, items[j])
  {
    FirstIndexFrom(items, matchedOn, 0)
  }

  /** No element appears twice. */
  predicate Distinct<T(==)>(s: seq<T>) {
    forall i, j :: 0 <= i < j < |s| ==> s[i] != s[j]
  }

  /** LINQ Distinct(): each element once, at its first appearance. */
  function Dedup<T(==)>(s: seq<T>): seq<T>
    decreases |s|
  {
    if s == [] then []
    else
      var n := |s| - 1;
      var p := Dedup(s[..n]);
      if s[n] in p then p else p + [s[n]]
  }

  lemma {:induction false} DedupMembers<T>(s: seq<T>, k: T)
    ensures k in Dedup(s) <==> k in s
    decreases |s|
  {
    if s != [] {
      var n := |s| - 1;
      DedupMembers(s[..n], k);
      DedupMembers(s[..n], s[n]);
      assert s == s[..n] + [s[n]];
    }
  }

  /**
   * Distinct() keeps the order of first appearance: wherever a later element
   * of the result occurs in the source, an earlier element occurs before it.
   */
  lemma {:induction false} DedupOrder<T>(s: seq<T>)
    ensures var d := Dedup(s);
      forall i, j, q :: 0 <= i < j < |d| && 0 <= q < |s| && s[q] == d[j] ==> d[i] in s[..q]
    decreases |s|
  {
    if s != [] {
      var n := |s| - 1;
      var t := s[..n];
      var p := Dedup(t);
      var d := Dedup(s);
      DedupOrder(t);
      DedupMembers(t, s[n]);
      forall i, j, q | 0 <= i < j < |d| && 0 <= q < |s| && s[q] == d[j] ensures d[i] in s[..q] {
        assert d[i] == p[i];
        DedupMembers(t, p[i]);
        if q < n {
          assert t[q] == s[q] && t[..q] == s[..q];
        } else {
          assert s[..q] == t;
        }
      }
    }
  }

  /** Distinct() gives no element twice. */
  lemma {:induction false} DedupNoRepeats<T>(s: seq<T>)
    ensures Distinct(Dedup(s))
    decreases |s|
  {
    if s != [] {
      var n := |s| - 1;
      DedupNoRepeats(s[..n]);
      var p := Dedup(s[..n]);
      if s[n] !in p {
        var q := p + [s[n]];
        forall i, j | 0 <= i < j < |q| ensures q[i] != q[j] {
          if j == |p| {
            assert q[i] == p[i];
          } else {
            assert q[i] == p[i] && q[j] == p[j];
          }
        }
      }
    }
  }

  /** `Where(x => key(x) == k)`: the elements with key `k`, in their order. */
  function GroupOf<T, K(==)>(s: seq<T>, key: T -> K, k: K): seq<T>
    decreases |s|
  {
    if s == [] then []
    else
      var n := |s| - 1;
      GroupOf(s[..n], key, k) + (if key(s[n]) == k then [s[n]] else [])
  }

  /** The groups of the given keys, one after another. */
  function GroupsOf<T, K(==)>(s: seq<T>, key: T -> K, keys: seq<K>): seq<T>
    decreases |keys|
  {
    if keys == [] then []
    else
      var m := |keys| - 1;
      GroupsOf(s, key, keys[..m]) + GroupOf(s, key, keys[m])
  }

  /** A group holds exactly the elements with its key. */
  lemma {:induction false} GroupOfMembers<T, K>(s: seq<T>, key: T -> K, k: K, x: T)
    ensures x in GroupOf(s, key, k) <==> x in s && key(x) == k
    decreases |s|
  {
    if s != [] {
      var n := |s| - 1;
      GroupOfMembers(s[..n], key, k, x);
      assert s == s[..n] + [s[n]];
    }
  }

  lemma {:induction false} GroupsOfNothing<T, K>(key: T -> K, keys: seq<K>)
    ensures GroupsOf([], key, keys) == []
    decreases |keys|
  {
    if keys != [] {
      GroupsOfNothing(key, keys[..|keys| - 1]);
    }
  }

  /** The group of a key after one more element arrives. */
  lemma GroupOfLast<T, K>(s: seq<T>, key: T -> K, k: K)
    requires |s| > 0
    ensures var n := |s| - 1;
      multiset(GroupOf(s, key, k)) == multiset(GroupOf(s[..n], key, k)) +
        (if key(s[n]) == k then multiset{s[n]} else multiset{})
  {
  }

  lemma AddedOnce<T>(a: multiset<T>, a0: multiset<T>, b: multiset<T>, b0: multiset<T>, x: T, p: bool, q: bool)
    requires a == a0 + (if p then multiset{x} else multiset{})
    requires b == b0 + (if q then multiset{x} else multiset{})
    requires !(p && q)
    ensures a + b == a0 + b0 + (if p || q then multiset{x} else multiset{})
  {
  }

  /** The groups of some keys after one more element arrives: it lands once if its key is among them. */
  ghost predicate LastLands<T, K>(s: seq<T>, key: T -> K, keys: seq<K>)
    requires |s| > 0
  {
    var n := |s| - 1;
    multiset(GroupsOf(s, key, keys)) == multiset(GroupsOf(s[..n], key, keys)) +
      (if key(s[n]) in keys then multiset{s[n]} else multiset{})
  }

  lemma LastLandsStep<T, K>(s: seq<T>, key: T -> K, keys: seq<K>)
    requires |s| > 0 && |keys| > 0
    requires keys[|keys| - 1] !in keys[..|keys| - 1]
    requires LastLands(s, key, keys[..|keys| - 1])
    ensures LastLands(s, key, keys)
  {
    var n := |s| - 1;
    var m := |keys| - 1;
    var x := s[n];
    var ks := keys[..m];
    GroupOfLast(s, key, keys[m]);
    var inFront := key(x) in ks;
    var atEnd := key(x) == keys[m];
    assert keys == ks + [keys[m]];
    assert key(x) in keys <==> inFront || atEnd;
    var a0 := multiset(GroupsOf(s[..n], key, ks));
    var b0 := multiset(GroupOf(s[..n], key, keys[m]));
    var a := multiset(GroupsOf(s, key, ks));
    var b := multiset(GroupOf(s, key, keys[m]));
    assert multiset(GroupsOf(s, key, keys)) == a + b;
    assert multiset(GroupsOf(s[..n], key, keys)) == a0 + b0;
    AddedOnce(a, a0, b, b0, x, inFront, atEnd);
  }

  /** Dropping the last of distinct keys leaves distinct keys without it. */
  lemma DistinctInit<T>(keys: seq<T>)
    requires |keys| > 0 && Distinct(keys)
    ensures var m := |keys| - 1; keys[m] !in keys[..m] && Distinct(keys[..m])
  {
    var m := |keys| - 1;
    assert forall i :: 0 <= i < m ==> keys[..m][i] == keys[i];
  }

  lemma {:induction false} GroupsLast<T, K>(s: seq<T>, key: T -> K, keys: seq<K>)
    requires |s| > 0 && Distinct(keys)
    ensures LastLands(s, key, keys)
    decreases |keys|
  {
    if keys != [] {
      DistinctInit(keys);
      GroupsLast(s, key, keys[..|keys| - 1]);
      LastLandsStep(s, key, keys);
    }
  }

  /** Every element's key is among the keys. */
  ghost predicate Covers<T, K>(s: seq<T>, key: T -> K, keys: seq<K>) {
    forall i :: 0 <= i < |s| ==> key(s[i]) in keys
  }

  /** The groups of the keys hold every element exactly once. */
  ghost predicate Partitioned<T, K>(s: seq<T>, key: T -> K, keys: seq<K>) {
    multiset(GroupsOf(s, key, keys)) == multiset(s)
  }

  lemma CoversInit<T, K>(s: seq<T>, key: T -> K, keys: seq<K>)
    requires |s| > 0 && Covers(s, key, keys)
    ensures Covers(s[..|s| - 1], key, keys) && key(s[|s| - 1]) in keys
  {
    assert forall i :: 0 <= i < |s| - 1 ==> s[..|s| - 1][i] == s[i];
  }

  lemma PartitionStep<T, K>(s: seq<T>, key: T -> K, keys: seq<K>)
    requires |s| > 0 && key(s[|s| - 1]) in keys
    requires Partitioned(s[..|s| - 1], key, keys)
    requires LastLands(s, key, keys)
    ensures Partitioned(s, key, keys)
  {
    var n := |s| - 1;
    assert s == s[..n] + [s[n]];
  }

  /** Distinct keys that cover every element split the elements into their groups, each element once. */
  lemma {:induction false} GroupsPartition<T, K>(s: seq<T>, key: T -> K, keys: seq<K>)
    requires Distinct(keys)
    requires Covers(s, key, keys)
    ensures Partitioned(s, key, keys)
    decreases |s|
  {
    if s == [] {
      GroupsOfNothing(key, keys);
    } else {
      CoversInit(s, key, keys);
      GroupsPartition(s[..|s| - 1], key, keys);
      GroupsLast(s, key, keys);
      PartitionStep(s, key, keys);
    }
  }

  /** `ts.Select(t => (s, t))`. */
  function PairsWith<S, D>(s: S, ts: seq<D>): (ps: seq<(S, D)>)
    ensures |ps| == |ts|
    ensures forall i :: 0 <= i < |ts| ==> ps[i] == (s, ts[i])
  {
    seq(|ts|, i requires 0 <= i < |ts| => (s, ts[i]))
  }

  /** `srcs.SelectMany(s => targets(s).Select(t => (s, t)))`: each source with each of its targets, source by source. */
  function PairsUpTo<S, D>(srcs: seq<S>, targets: S -> seq<D>): seq<(S, D)>
    decreases |srcs|
  {
    if srcs == [] then []
    else
      var n := |srcs| - 1;
      PairsUpTo(srcs[..n], targets) + PairsWith(srcs[n], targets(srcs[n]))
  }

  /** The pairs of the first sources are a prefix of the pairs of all of them. */
  lemma {:induction false} PairsUpToPrefix<S, D>(srcs: seq<S>, targets: S -> seq<D>, a: nat)
    requires a <= |srcs|
    ensures var pre := PairsUpTo(srcs[..a], targets);
      |pre| <= |PairsUpTo(srcs, targets)| && PairsUpTo(srcs, targets)[..|pre|] == pre
    decreases |srcs|
  {
    if a < |srcs| {
      var n := |srcs| - 1;
      assert srcs[..n][..a] == srcs[..a];
      PairsUpToPrefix(srcs[..n], targets, a);
    } else {
      assert srcs[..a] == srcs;
    }
  }

  /** The pairs of source `a` follow those of the sources before it. */
  lemma PairsUpToSplit<S, D>(srcs: seq<S>, targets: S -> seq<D>, a: nat)
    requires a < |srcs|
    ensures var pre := PairsUpTo(srcs[..a], targets);
      var seg := PairsWith(srcs[a], targets(srcs[a]));
      && PairsUpTo(srcs[..a + 1], targets) == pre + seg
      && |pre| + |seg| <= |PairsUpTo(srcs, targets)|
      && PairsUpTo(srcs, targets)[..|pre| + |seg|] == pre + seg
  {
    assert srcs[..a + 1][..a] == srcs[..a];
    PairsUpToPrefix(srcs, targets, a + 1);
  }

  /** The first `done` pairs are the pairs of the first `si` sources. */
  ghost predicate PairsDone<S, D>(srcs: seq<S>, targets: S -> seq<D>, si: nat, pairs: seq<(S, D)>, done: nat) {
    si <= |srcs| && done <= |pairs| && pairs[..done] == PairsUpTo(srcs[..si], targets)
  }

  lemma PairsStarted<S, D>(srcs: seq<S>, targets: S -> seq<D>, pairs: seq<(S, D)>)
    ensures PairsDone(srcs, targets, 0, pairs, 0)
  {
    assert pairs[..0] == [] && srcs[..0] == [];
  }

  lemma SegmentAt<T>(all: seq<T>, pre: seq<T>, seg: seq<T>, start: nat)
    requires start == |pre| && |pre| + |seg| <= |all| && all[..|pre| + |seg|] == pre + seg
    ensures forall ti :: 0 <= ti < |seg| ==> all[start + ti] == seg[ti]
  {
    forall ti | 0 <= ti < |seg| ensures all[start + ti] == seg[ti] {
      assert all[start + ti] == all[..|pre| + |seg|][start + ti];
    }
  }

  /** The pairs of source `si` come right after the pairs of the sources before it. */
  lemma PairsOfSource<S, D>(srcs: seq<S>, targets: S -> seq<D>, si: nat, pairs: seq<(S, D)>, start: nat,
                            s: S, ts: seq<D>)
    requires si < |srcs| && pairs == PairsUpTo(srcs, targets) && PairsDone(srcs, targets, si, pairs, start)
    requires s == srcs[si] && ts == targets(s)
    ensures start + |ts| <= |pairs| && forall ti :: 0 <= ti < |ts| ==> pairs[start + ti] == (s, ts[ti])
  {
    PairsUpToSplit(srcs, targets, si);
    SegmentAt(pairs, PairsUpTo(srcs[..si], targets), PairsWith(s, ts), start);
  }

  /** Once every pair of source `si` is done, the pairs done are those of the sources up to it. */
  lemma SourcePairsDone<S, D>(srcs: seq<S>, targets: S -> seq<D>, si: nat, pairs: seq<(S, D)>, start: nat)
    requires si < |srcs| && pairs == PairsUpTo(srcs, targets) && PairsDone(srcs, targets, si, pairs, start)
    ensures PairsDone(srcs, targets, si + 1, pairs, start + |targets(srcs[si])|)
  {
    PairsUpToSplit(srcs, targets, si);
  }

  lemma PairsFinished<S, D>(srcs: seq<S>, targets: S -> seq<D>, pairs: seq<(S, D)>, done: nat)
    requires pairs == PairsUpTo(srcs, targets) && PairsDone(srcs, targets, |srcs|, pairs, done)
    ensures pairs[..done] == pairs
  {
    assert srcs[..|srcs|] == srcs;
  }

  /** A pair is listed exactly when its source is and its target is one of that source's. */
  lemma {:induction false} PairsUpToMembers<S, D>(srcs: seq<S>, targets: S -> seq<D>, k: (S, D))
    ensures k in PairsUpTo(srcs, targets) <==> k.0 in srcs && k.1 in targets(k.0)
    decreases |srcs|
  {
    if srcs != [] {
      var n := |srcs| - 1;
      var seg := PairsWith(srcs[n], targets(srcs[n]));
      PairsUpToMembers(srcs[..n], targets, k);
      assert srcs == srcs[..n] + [srcs[n]];
      if k.0 == srcs[n] && k.1 in targets(srcs[n]) {
        var j :| 0 <= j < |seg| && targets(srcs[n])[j] == k.1;
        assert seg[j] == k;
      }
    }
  }

  /** Distinct sources, each with distinct targets, give distinct pairs. */
  lemma {:induction false} PairsUpToDistinct<S, D>(srcs: seq<S>, targets: S -> seq<D>)
    requires Distinct(srcs) && forall s :: s in srcs ==> Distinct(targets(s))
    ensures Distinct(PairsUpTo(srcs, targets))
    decreases |srcs|
  {
    if srcs != [] {
      var n := |srcs| - 1;
      var pre := PairsUpTo(srcs[..n], targets);
      var tgts := targets(srcs[n]);
      var seg := PairsWith(srcs[n], tgts);
      assert forall m :: 0 <= m < n ==> srcs[..n][m] == srcs[m];
      PairsUpToDistinct(srcs[..n], targets);
      assert Distinct(tgts);
      var ks := pre + seg;
      forall i, j | 0 <= i < j < |ks| ensures ks[i] != ks[j] {
        if j >= |pre| && i < |pre| {
          PairsUpToMembers(srcs[..n], targets, ks[i]);
          assert ks[j].0 == srcs[n];
        } else if i >= |pre| {
          assert ks[i] == seg[i - |pre|] && ks[j] == seg[j - |pre|];
          assert tgts[i - |pre|] != tgts[j - |pre|];
        }
      }
    }
  }
}
