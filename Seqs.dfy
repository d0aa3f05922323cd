/**
 * The LINQ operators the core composes (`Where`, `Select`), as functions on
 * sequences that keep the order of their input.
 */
module Seqs {

  /** `Where(p)`: the elements of `s` that satisfy `p`, in their original order. */
  function Filter<T>(p: T -> bool, s: seq<T>): (r: seq<T>)
    ensures |r| <= |s|
    ensures forall i :: 0 <= i < |r| ==> r[i] in s && p(r[i])
    ensures forall i :: 0 <= i < |s| && p(s[i]) ==> s[i] in r
  {
    if s == [] then []
    else Filter(p, s[..|s| - 1]) + (if p(s[|s| - 1]) then [s[|s| - 1]] else [])
  }

  /** `Select(f)`: one image per element, at the same position. */
  function Map<A, B>(f: A -> B, s: seq<A>): (r: seq<B>)
    ensures |r| == |s|
    ensures forall i :: 0 <= i < |s| ==> r[i] == f(s[i])
  {
    if s == [] then [] else Map(f, s[..|s| - 1]) + [f(s[|s| - 1])]
  }

  /** A one-element sequence survives exactly when its element does. */
  lemma FilterSingle<T>(p: T -> bool, x: T)
    ensures Filter(p, [x]) == if p(x) then [x] else []
  {
    assert [x][..0] == [];
  }

  /** Filtering distributes over concatenation, so the relative order of survivors is that of the input. */
  lemma {:induction false} FilterConcat<T>(p: T -> bool, a: seq<T>, b: seq<T>)
    ensures Filter(p, a + b) == Filter(p, a) + Filter(p, b)
  {
    if b != [] {
      var ab := a + b;
      assert ab[..|ab| - 1] == a + b[..|b| - 1];
      assert ab[|ab| - 1] == b[|b| - 1];
      FilterConcat(p, a, b[..|b| - 1]);
    } else {
      assert a + b == a;
    }
  }

  /** Mapping distributes over concatenation. */
  lemma MapConcat<A, B>(f: A -> B, a: seq<A>, b: seq<A>)
    ensures Map(f, a + b) == Map(f, a) + Map(f, b)
  {
    assert Map(f, a + b) == Map(f, a) + Map(f, b) by {
      var l, r := Map(f, a + b), Map(f, a) + Map(f, b);
      assert |l| == |r|;
      forall i | 0 <= i < |l| ensures l[i] == r[i] {
        if i < |a| { assert (a + b)[i] == a[i]; } else { assert (a + b)[i] == b[i - |a|]; }
      }
    }
  }

  /** Two successive filters can be applied in either order. */
  lemma {:induction false} FilterCommutes<T>(p: T -> bool, q: T -> bool, s: seq<T>)
    ensures Filter(p, Filter(q, s)) == Filter(q, Filter(p, s))
  {
    if s != [] {
      var init, last := s[..|s| - 1], s[|s| - 1];
      FilterCommutes(p, q, init);
      FilterConcat(p, Filter(q, init), if q(last) then [last] else []);
      FilterConcat(q, Filter(p, init), if p(last) then [last] else []);
      assert Filter(p, [last]) == (if p(last) then [last] else []) by { assert [last][..0] == []; }
      assert Filter(q, [last]) == (if q(last) then [last] else []) by { assert [last][..0] == []; }
    }
  }

  /** A filter every element passes keeps the whole sequence. */
  lemma {:induction false} FilterAllPass<T>(p: T -> bool, s: seq<T>)
    requires forall i :: 0 <= i < |s| ==> p(s[i])
    ensures Filter(p, s) == s
  {
    if s != [] {
      FilterAllPass(p, s[..|s| - 1]);
    }
  }

  /** An image of a filtered sequence is the image of some element that passed the filter, and conversely. */
  lemma MapFilterMembership<A, B>(f: A -> B, p: A -> bool, s: seq<A>, y: B)
    ensures y in Map(f, Filter(p, s)) <==> exists i :: 0 <= i < |s| && p(s[i]) && f(s[i]) == y
  {
    var kept := Filter(p, s);
    if y in Map(f, kept) {
      var k :| 0 <= k < |kept| && Map(f, kept)[k] == y;
      assert kept[k] in s;
      var i :| 0 <= i < |s| && s[i] == kept[k];
      assert p(s[i]) && f(s[i]) == y;
    }
    if exists i :: 0 <= i < |s| && p(s[i]) && f(s[i]) == y {
      var i :| 0 <= i < |s| && p(s[i]) && f(s[i]) == y;
      assert s[i] in kept;
      var k :| 0 <= k < |kept| && kept[k] == s[i];
      assert Map(f, kept)[k] == y;
    }
  }

  /** Filters that agree on every element of `s` select the same elements. */
  lemma {:induction false} FilterCongruent<T>(p1: T -> bool, p2: T -> bool, s: seq<T>)
    requires forall i :: 0 <= i < |s| ==> p1(s[i]) == p2(s[i])
    ensures Filter(p1, s) == Filter(p2, s)
  {
    if s != [] {
      FilterCongruent(p1, p2, s[..|s| - 1]);
    }
  }

  /** Functions that agree on every element of `s` map it alike. */
  lemma MapCongruent<A, B>(f1: A -> B, f2: A -> B, s: seq<A>)
    requires forall i :: 0 <= i < |s| ==> f1(s[i]) == f2(s[i])
    ensures Map(f1, s) == Map(f2, s)
  {
  }
}
