/**
 * `OrderBy(x => x)` with the default string comparer. The comparer's
 * culture-specific collation is a parameter here: any total order on strings.
 * `OrdinalLessOrEqual` is one instance.
 */
module Ordering {

  /** A total order: total, antisymmetric and transitive. */
  ghost predicate IsTotalOrder(leq: (string, string) -> bool)
  {
    && (forall x, y :: leq(x, y) || leq(y, x))
    && (forall x, y :: leq(x, y) && leq(y, x) ==> x == y)
    && (forall x, y, z :: leq(x, y) && leq(y, z) ==> leq(x, z))
  }

  predicate Sorted(leq: (string, string) -> bool, s: seq<string>)
  {
    forall i, j :: 0 <= i < j < |s| ==> leq(s[i], s[j])
  }

  /** No string occurs twice. */
  predicate Distinct(s: seq<string>)
  {
    forall i, j :: 0 <= i < j < |s| ==> s[i] != s[j]
  }

  /**
   * `Distinct()` with an ordinal comparer: the first occurrence of each
   * string, in order of first occurrence.
   */
  function Dedup(s: seq<string>): (r: seq<string>)
    ensures Distinct(r)
    ensures forall x :: x in r <==> x in s
    ensures |r| <= |s|
  {
    if s == [] then []
    else
      var init, last := s[..|s| - 1], s[|s| - 1];
      assert s == init + [last];
      var d := Dedup(init);
      if last in d then d else d + [last]
  }

  /** Insert `x` into sorted `s` before the first element not below it. */
  function Insert(leq: (string, string) -> bool, x: string, s: seq<string>): (r: seq<string>)
    requires IsTotalOrder(leq) && Sorted(leq, s)
    ensures Sorted(leq, r)
    ensures multiset(r) == multiset(s) + multiset{x}
  {
    if s == [] then [x]
    else if leq(x, s[0]) then
      PrependSmallest(leq, x, s);
      [x] + s
    else
      var t := Insert(leq, x, s[1..]);
      assert s == [s[0]] + s[1..];
      BelowInsertion(leq, s[0], x, s[1..], t);
      PrependBelowAll(leq, s[0], t);
      [s[0]] + t
  }

  /** A string at most every element of a sorted sequence can go in front of it. */
  lemma PrependBelowAll(leq: (string, string) -> bool, h: string, t: seq<string>)
    requires Sorted(leq, t)
    requires forall k :: 0 <= k < |t| ==> leq(h, t[k])
    ensures Sorted(leq, [h] + t)
  {
    var r := [h] + t;
    forall i, j | 0 <= i < j < |r| ensures leq(r[i], r[j]) {
      assert r[j] == t[j - 1];
      if i > 0 {
        assert r[i] == t[i - 1];
      }
    }
  }

  /** A string at most the first element of a sorted sequence is at most all of them. */
  lemma PrependSmallest(leq: (string, string) -> bool, x: string, s: seq<string>)
    requires IsTotalOrder(leq) && Sorted(leq, s) && s != [] && leq(x, s[0])
    ensures Sorted(leq, [x] + s)
  {
    forall k | 0 <= k < |s| ensures leq(x, s[k]) {
      if k > 0 {
        assert leq(s[0], s[k]);
      }
    }
    PrependBelowAll(leq, x, s);
  }

  /** A lower bound of `s` that is also below `x` bounds any rearrangement of `s` with `x` added. */
  lemma BelowInsertion(leq: (string, string) -> bool, h: string, x: string, s: seq<string>, t: seq<string>)
    requires IsTotalOrder(leq) && !leq(x, h)
    requires forall k :: 0 <= k < |s| ==> leq(h, s[k])
    requires multiset(t) == multiset(s) + multiset{x}
    ensures forall k :: 0 <= k < |t| ==> leq(h, t[k])
  {
    forall k | 0 <= k < |t| ensures leq(h, t[k]) {
      assert t[k] in multiset(t);
      if t[k] != x {
        assert t[k] in multiset(s);
        var i :| 0 <= i < |s| && s[i] == t[k];
      }
    }
  }

  /** `OrderBy(x => x)`: a sorted permutation of the input (an insertion sort). */
  function Sort(leq: (string, string) -> bool, s: seq<string>): (r: seq<string>)
    requires IsTotalOrder(leq)
    ensures Sorted(leq, r)
    ensures multiset(r) == multiset(s)
  {
    if s == [] then []
    else
      assert s == s[..|s| - 1] + [s[|s| - 1]];
      Insert(leq, s[|s| - 1], Sort(leq, s[..|s| - 1]))
  }

  /** Sorting keeps exactly the elements of its input. */
  lemma SortSameElements(leq: (string, string) -> bool, s: seq<string>)
    requires IsTotalOrder(leq)
    ensures |Sort(leq, s)| == |s|
    ensures forall x :: x in Sort(leq, s) <==> x in s
  {
    var r := Sort(leq, s);
    assert |multiset(r)| == |multiset(s)|;
    forall x ensures x in r <==> x in s {
      assert x in r <==> x in multiset(r);
      assert x in s <==> x in multiset(s);
    }
  }

  /** A permutation of a duplicate-free sequence is duplicate-free. */
  lemma {:induction false} DistinctPermutation(a: seq<string>, b: seq<string>)
    requires multiset(a) == multiset(b) && Distinct(a)
    ensures Distinct(b)
  {
    forall x | x in multiset(a) ensures multiset(a)[x] == 1 {
      DistinctCount(a, x);
    }
    forall i, j | 0 <= i < j < |b| ensures b[i] != b[j] {
      RepeatCounts(b, i, j);
    }
  }

  /** An element found at two positions occurs at least twice. */
  lemma RepeatCounts(b: seq<string>, i: int, j: int)
    requires 0 <= i < j < |b|
    ensures b[i] == b[j] ==> multiset(b)[b[i]] >= 2
  {
    assert b == b[..i] + [b[i]] + b[i + 1..j] + [b[j]] + b[j + 1..];
  }

  /** In a duplicate-free sequence every element occurs once. */
  lemma {:induction false} DistinctCount(a: seq<string>, x: string)
    requires Distinct(a) && x in a
    ensures multiset(a)[x] == 1
  {
    if a[0] == x {
      assert a == [x] + a[1..];
      assert x !in a[1..];
    } else {
      assert a == [a[0]] + a[1..];
      DistinctCount(a[1..], x);
    }
  }

  /**
   * Two sorted, duplicate-free sequences with the same elements are equal:
   * the sorted listing of a set does not depend on the order it was gathered in.
   */
  lemma {:induction false} SortedSetUnique(leq: (string, string) -> bool, a: seq<string>, b: seq<string>)
    requires IsTotalOrder(leq)
    requires Sorted(leq, a) && Sorted(leq, b) && Distinct(a) && Distinct(b)
    requires forall x :: x in a <==> x in b
    ensures a == b
  {
    assert a != [] ==> a[0] in a;
    assert b != [] ==> b[0] in b;
    if a != [] && b != [] {
      assert a[0] in b && b[0] in a;
      assert leq(a[0], b[0]) && leq(b[0], a[0]);
      assert a[0] == b[0];
      forall x ensures x in a[1..] <==> x in b[1..] {
        assert x in a[1..] <==> x in a && x != a[0];
        assert x in b[1..] <==> x in b && x != b[0];
      }
      SortedSetUnique(leq, a[1..], b[1..]);
      assert a == [a[0]] + a[1..] && b == [b[0]] + b[1..];
    }
  }

  /**
   * `StringComparer.Ordinal`: lexicographic comparison by character. A
   * Dafny `char` is a Unicode scalar value, where .NET compares UTF-16 code
   * units; the two orders agree on text inside the Basic Multilingual Plane.
   */
  predicate OrdinalLessOrEqual(a: string, b: string)
  {
    if a == [] then true
    else if b == [] then false
    else if a[0] != b[0] then a[0] < b[0]
    else OrdinalLessOrEqual(a[1..], b[1..])
  }

  /** The ordinal comparison is a total order, so it can stand for the default comparer. */
  lemma OrdinalIsTotalOrder()
    ensures IsTotalOrder(OrdinalLessOrEqual)
  {
    forall x, y ensures OrdinalLessOrEqual(x, y) || OrdinalLessOrEqual(y, x) {
      OrdinalTotal(x, y);
    }
    forall x, y | OrdinalLessOrEqual(x, y) && OrdinalLessOrEqual(y, x) ensures x == y {
      OrdinalAntisymmetric(x, y);
    }
    forall x, y, z | OrdinalLessOrEqual(x, y) && OrdinalLessOrEqual(y, z) ensures OrdinalLessOrEqual(x, z) {
      OrdinalTransitive(x, y, z);
    }
  }

  lemma {:induction false} OrdinalTotal(x: string, y: string)
    ensures OrdinalLessOrEqual(x, y) || OrdinalLessOrEqual(y, x)
  {
    if x != [] && y != [] && x[0] == y[0] {
      OrdinalTotal(x[1..], y[1..]);
    }
  }

  lemma {:induction false} OrdinalAntisymmetric(x: string, y: string)
    requires OrdinalLessOrEqual(x, y) && OrdinalLessOrEqual(y, x)
    ensures x == y
  {
    if x != [] && y != [] {
      OrdinalAntisymmetric(x[1..], y[1..]);
      assert x == [x[0]] + x[1..] && y == [y[0]] + y[1..];
    }
  }

  lemma {:induction false} OrdinalTransitive(x: string, y: string, z: string)
    requires OrdinalLessOrEqual(x, y) && OrdinalLessOrEqual(y, z)
    ensures OrdinalLessOrEqual(x, z)
  {
    if x != [] && y != [] && z != [] && x[0] == y[0] && y[0] == z[0] {
      OrdinalTransitive(x[1..], y[1..], z[1..]);
    }
  }
}
