/**
 * The few string operations of the .NET base library the localiser relies on:
 * ordinal comparison (standing for String.Compare and the default string
 * comparer of OrderBy), String.Split on one character and String.Replace.
 */
module Strings {

  /** String.Compare as a sign: -1, 0 or 1, lexicographic on character codes. */
  function Compare(a: string, b: string): (r: int)
    ensures -1 <= r <= 1
    ensures r == 0 <==> a == b
  {
    if a == [] then (if b == [] then 0 else -1)
    else if b == [] then 1
    else if a[0] < b[0] then -1
    else if a[0] > b[0] then 1
    else
      var r := Compare(a[1..], b[1..]);
      assert r == 0 ==> a == [a[0]] + a[1..] == [b[0]] + b[1..] == b;
      r
  }

  /** The "sorts at or before" relation used by OrderBy/ThenBy on strings. */
  predicate AtMost(a: string, b: string) {
    Compare(a, b) <= 0
  }

  lemma {:induction false} CompareAntisymmetric(a: string, b: string)
    ensures Compare(a, b) == -Compare(b, a)
  {
    if a != [] && b != [] && a[0] == b[0] {
      CompareAntisymmetric(a[1..], b[1..]);
    }
  }

  lemma {:induction false} CompareTransitive(a: string, b: string, c: string)
    requires Compare(a, b) <= 0 && Compare(b, c) <= 0
    ensures Compare(a, c) <= 0
  {
    if a != [] && b != [] && c != [] && a[0] == b[0] == c[0] {
      CompareTransitive(a[1..], b[1..], c[1..]);
    }
  }

  /** A strict comparison result carries over to anything at or after its right side. */
  lemma {:induction false} CompareStrictTransitive(a: string, b: string, c: string)
    requires Compare(a, b) < 0 && Compare(b, c) <= 0
    ensures Compare(a, c) < 0
  {
    CompareTransitive(a, b, c);
    if Compare(a, c) == 0 {
      assert a == c;
      CompareAntisymmetric(b, c);
    }
  }

  lemma CompareTotal(a: string, b: string)
    ensures AtMost(a, b) || AtMost(b, a)
  {
    CompareAntisymmetric(a, b);
  }

  /** Number of occurrences of `c` in `s`. */
  function Occurrences(s: string, c: char): nat {
    if s == [] then 0 else (if s[0] == c then 1 else 0) + Occurrences(s[1..], c)
  }

  /** String.Join(sep, parts). */
  function Join(parts: seq<string>, sep: char): string
    requires |parts| > 0
  {
    if |parts| == 1 then parts[0] else parts[0] + [sep] + Join(parts[1..], sep)
  }

  /**
   * String.Split(sep): every piece between separators, the empty ones
   * included, so that joining the pieces gives back the input.
   */
  function Split(s: string, sep: char): (parts: seq<string>)
    ensures |parts| == Occurrences(s, sep) + 1
    ensures forall i :: 0 <= i < |parts| ==> sep !in parts[i]
    ensures Join(parts, sep) == s
  {
    if s == [] then [""]
    else
      var rest := Split(s[1..], sep);
      if s[0] == sep then
        assert s == [sep] + s[1..];
        [""] + rest
      else
        var r := [[s[0]] + rest[0]] + rest[1..];
        assert r[1..] == rest[1..];
        assert s == [s[0]] + s[1..];
        r
  }

  /** Splitting undoes joining pieces that hold no separator. */
  lemma {:induction false} SplitJoin(parts: seq<string>, sep: char)
    requires |parts| > 0
    requires forall i :: 0 <= i < |parts| ==> sep !in parts[i]
    ensures Split(Join(parts, sep), sep) == parts
  {
    if |parts| == 1 {
      SplitNoSeparator(parts[0], sep);
    } else {
      var tail := Join(parts[1..], sep);
      SplitJoin(parts[1..], sep);
      SplitPrefix(parts[0], tail, sep);
      assert parts == [parts[0]] + parts[1..];
    }
  }

  lemma {:induction false} SplitNoSeparator(s: string, sep: char)
    requires sep !in s
    ensures Split(s, sep) == [s]
  {
    if s != [] {
      SplitNoSeparator(s[1..], sep);
    }
  }

  /** Splitting `head + sep + tail`, where `head` holds no separator. */
  lemma {:induction false} SplitPrefix(head: string, tail: string, sep: char)
    requires sep !in head
    ensures Split(head + [sep] + tail, sep) == [head] + Split(tail, sep)
  {
    if head == [] {
      assert head + [sep] + tail == [sep] + tail;
      assert ([sep] + tail)[1..] == tail;
    } else {
      var s := head + [sep] + tail;
      assert s[1..] == head[1..] + [sep] + tail;
      SplitPrefix(head[1..], tail, sep);
      assert [head[0]] + head[1..] == head;
    }
  }

  /** `s` starts with `p`. */
  predicate StartsWith(s: string, p: string) {
    |p| <= |s| && s[..|p|] == p
  }

  /**
   * String.Replace(pattern, replacement): a left-to-right scan that rewrites
   * every non-overlapping occurrence of `pattern`.
   */
  function Replace(s: string, pattern: string, replacement: string): string
    requires |pattern| > 0
    decreases |s|
  {
    if StartsWith(s, pattern) then replacement + Replace(s[|pattern|..], pattern, replacement)
    else if s == [] then []
    else [s[0]] + Replace(s[1..], pattern, replacement)
  }

  /**
   * Rewriting a pattern into a single fresh character is undone by rewriting
   * that character back into the pattern.
   */
  lemma {:induction false} ReplaceRoundTrip(s: string, pattern: string, c: char)
    requires |pattern| > 0 && c !in pattern && c !in s
    ensures Replace(Replace(s, pattern, [c]), [c], pattern) == s
  {
    if StartsWith(s, pattern) {
      var rest := s[|pattern|..];
      var x := Replace(rest, pattern, [c]);
      ReplaceRoundTrip(rest, pattern, c);
      assert ([c] + x)[..1] == [c];
      assert ([c] + x)[1..] == x;
      assert s == s[..|pattern|] + rest;
    } else if s != [] {
      var x := Replace(s[1..], pattern, [c]);
      ReplaceRoundTrip(s[1..], pattern, c);
      assert ([s[0]] + x)[0] == s[0];
      assert ([s[0]] + x)[1..] == x;
      assert s == [s[0]] + s[1..];
    }
  }

  /** `s` holds no occurrence of `p` at any position. */
  predicate NoOccurrence(s: string, p: string) {
    forall i :: 0 <= i <= |s| ==> !StartsWith(s[i..], p)
  }

  /**
   * Wherever the rewritten text shows no replacement character, it is still
   * the original text: its first `n` characters are those of `s`.
   */
  lemma {:induction false} UnreplacedPrefix(s: string, pattern: string, c: char, n: nat)
    requires |pattern| > 0 && n <= |Replace(s, pattern, [c])|
    ensures var r := Replace(s, pattern, [c]);
      c !in r[..n] ==> n <= |s| && r[..n] == s[..n]
    decreases |s|
  {
    var r := Replace(s, pattern, [c]);
    if n > 0 {
      if StartsWith(s, pattern) {
        assert r[..n][0] == c;
      } else {
        var x := Replace(s[1..], pattern, [c]);
        assert r == [s[0]] + x;
        UnreplacedPrefix(s[1..], pattern, c, n - 1);
        assert r[..n] == [s[0]] + x[..n - 1];
        if c !in r[..n] {
          assert c !in x[..n - 1];
          assert s[..n] == [s[0]] + s[1..][..n - 1];
        }
      }
    }
  }

  /**
   * Rewriting a pattern into a character outside it leaves no occurrence of
   * the pattern: every occurrence is rewritten, and none is formed anew.
   */
  lemma {:induction false} ReplaceLeavesNoOccurrence(s: string, pattern: string, c: char)
    requires |pattern| > 0 && c !in pattern
    ensures NoOccurrence(Replace(s, pattern, [c]), pattern)
    decreases |s|
  {
    var r := Replace(s, pattern, [c]);
    var m := |pattern|;
    if StartsWith(s, pattern) {
      var x := Replace(s[m..], pattern, [c]);
      ReplaceLeavesNoOccurrence(s[m..], pattern, c);
      assert r == [c] + x;
      forall i | 0 <= i <= |r| ensures !StartsWith(r[i..], pattern) {
        if i == 0 {
          assert r[0] == c;
        } else {
          assert r[i..] == x[i - 1..];
        }
      }
    } else if s != [] {
      var x := Replace(s[1..], pattern, [c]);
      ReplaceLeavesNoOccurrence(s[1..], pattern, c);
      assert r == [s[0]] + x;
      forall i | 0 <= i <= |r| ensures !StartsWith(r[i..], pattern) {
        if i == 0 {
          if m <= |r| {
            UnreplacedPrefix(s[1..], pattern, c, m - 1);
            assert r[..m] == [s[0]] + x[..m - 1];
            if c !in x[..m - 1] {
              assert s[..m] == [s[0]] + s[1..][..m - 1];
            } else {
              var k :| 0 <= k < m - 1 && x[..m - 1][k] == c;
              assert r[..m][k + 1] == c;
            }
          }
        } else {
          assert r[i..] == x[i - 1..];
        }
      }
    }
  }
}
