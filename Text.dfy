/**
 * The .NET string primitives the query engine relies on:
 * `char.IsWhiteSpace`, `string.IsNullOrWhiteSpace`, `string.Trim()` and
 * `string.Contains(_, StringComparison.OrdinalIgnoreCase)`.
 */
module Text {
  import opened Wrappers

  /** The characters `char.IsWhiteSpace` accepts (Unicode White_Space, Zs/Zl/Zp and the C0/C1 controls 9-13 and 0x85). */
  predicate IsWhiteSpace(c: char)
  {
    c == ' ' || ('\t' <= c <= '\r') || c == '\U{85}' || c == '\U{A0}' || c == '\U{1680}'
    || ('\U{2000}' <= c <= '\U{200A}') || c == '\U{2028}' || c == '\U{2029}'
    || c == '\U{202F}' || c == '\U{205F}' || c == '\U{3000}'
  }

  predicate AllWhiteSpace(s: string)
  {
    forall i :: 0 <= i < |s| ==> IsWhiteSpace(s[i])
  }

  /** `string.IsNullOrWhiteSpace`: null, empty, or whitespace only. */
  predicate IsNullOrWhiteSpace(s: Option<string>)
  {
    s.None? || AllWhiteSpace(s.value)
  }

  /** Leading whitespace removed: the result is a suffix of `s` after a whitespace-only prefix. */
  function TrimStart(s: string): (r: string)
    ensures |r| <= |s| && r == s[|s| - |r|..]
    ensures forall i {:trigger IsWhiteSpace(s[i])} :: 0 <= i < |s| - |r| ==> IsWhiteSpace(s[i])
    ensures r != [] ==> !IsWhiteSpace(r[0])
  {
    if |s| > 0 && IsWhiteSpace(s[0]) then
      var t := s[1..];
      var r := TrimStart(t);
      assert forall i :: 1 <= i < |s| - |r| ==> s[i] == t[i - 1];
      r
    else s
  }

  /** Trailing whitespace removed: the result is a prefix of `s` before a whitespace-only suffix. */
  function TrimEnd(s: string): (r: string)
    ensures |r| <= |s| && r == s[..|r|]
    ensures forall i {:trigger IsWhiteSpace(s[i])} :: |r| <= i < |s| ==> IsWhiteSpace(s[i])
    ensures r != [] ==> !IsWhiteSpace(r[|r| - 1])
  {
    if |s| > 0 && IsWhiteSpace(s[|s| - 1]) then
      var t := s[..|s| - 1];
      var r := TrimEnd(t);
      assert forall i :: |r| <= i < |t| ==> s[i] == t[i];
      r
    else s
  }

  /**
   * `string.Trim()`: the slice of `s` left after removing whitespace at both
   * ends. It is empty exactly for whitespace-only input, and otherwise begins
   * and ends with non-whitespace.
   */
  function Trim(s: string): (r: string)
    ensures exists a :: 0 <= a <= |s| - |r| && r == s[a..a + |r|] && AllWhiteSpace(s[..a]) && AllWhiteSpace(s[a + |r|..])
    ensures r == [] <==> AllWhiteSpace(s)
    ensures r != [] ==> !IsWhiteSpace(r[0]) && !IsWhiteSpace(r[|r| - 1])
  {
    TrimEndOf(s, TrimStart(s))
  }

  /** The second half of `Trim`: `t` is `s` with its leading whitespace removed; remove the trailing whitespace. */
  function TrimEndOf(s: string, t: string): (r: string)
    requires |t| <= |s| && t == s[|s| - |t|..]
    requires forall i {:trigger IsWhiteSpace(s[i])} :: 0 <= i < |s| - |t| ==> IsWhiteSpace(s[i])
    requires t != [] ==> !IsWhiteSpace(t[0])
    ensures exists a :: 0 <= a <= |s| - |r| && r == s[a..a + |r|] && AllWhiteSpace(s[..a]) && AllWhiteSpace(s[a + |r|..])
    ensures r == [] <==> AllWhiteSpace(s)
    ensures r != [] ==> !IsWhiteSpace(r[0]) && !IsWhiteSpace(r[|r| - 1])
  {
    var r := TrimEnd(t);
    TrimSlice(s, t, r);
    r
  }

  /** A slice of `s` with whitespace on both sides, taken as `Trim` takes it: first the start, then the end. */
  lemma TrimSlice(s: string, t: string, r: string)
    requires |t| <= |s| && t == s[|s| - |t|..]
    requires forall i {:trigger IsWhiteSpace(s[i])} :: 0 <= i < |s| - |t| ==> IsWhiteSpace(s[i])
    requires t != [] ==> !IsWhiteSpace(t[0])
    requires |r| <= |t| && r == t[..|r|]
    requires forall i {:trigger IsWhiteSpace(t[i])} :: |r| <= i < |t| ==> IsWhiteSpace(t[i])
    requires r != [] ==> !IsWhiteSpace(r[|r| - 1])
    ensures exists a :: 0 <= a <= |s| - |r| && r == s[a..a + |r|] && AllWhiteSpace(s[..a]) && AllWhiteSpace(s[a + |r|..])
    ensures r == [] <==> AllWhiteSpace(s)
    ensures r != [] ==> !IsWhiteSpace(r[0])
  {
    var a := |s| - |t|;
    assert r == s[a..a + |r|] by {
      forall k | 0 <= k < |r| ensures r[k] == s[a + k] {
        assert r[k] == t[k];
      }
    }
    var pre, post := s[..a], s[a + |r|..];
    forall i | 0 <= i < |pre| ensures IsWhiteSpace(pre[i]) {
      assert pre[i] == s[i];
    }
    forall i | 0 <= i < |post| ensures IsWhiteSpace(post[i]) {
      assert post[i] == t[|r| + i];
    }
    assert 0 <= a <= |s| - |r| && r == s[a..a + |r|] && AllWhiteSpace(pre) && AllWhiteSpace(post);
    if r != [] {
      assert r[0] == t[0];
    } else if t == [] {
      assert forall i :: 0 <= i < |s| ==> IsWhiteSpace(s[i]);
    }
  }

  /** Trimming what is already trimmed changes nothing. */
  lemma TrimIdempotent(s: string)
    ensures Trim(Trim(s)) == Trim(s)
  {
    TrimmedUnchanged(Trim(s));
  }

  /** A string that is empty or has non-whitespace at both ends is its own trim. */
  lemma TrimmedUnchanged(r: string)
    requires r != [] ==> !IsWhiteSpace(r[0]) && !IsWhiteSpace(r[|r| - 1])
    ensures Trim(r) == r
  {
    WhiteSpaceFramedSlice(r, Trim(r));
  }

  /** The only slice of `r` framed by whitespace on both sides is `r` itself, when `r`'s ends are not whitespace. */
  lemma WhiteSpaceFramedSlice(r: string, t: string)
    requires r != [] ==> !IsWhiteSpace(r[0]) && !IsWhiteSpace(r[|r| - 1])
    requires exists a :: 0 <= a <= |r| - |t| && t == r[a..a + |t|] && AllWhiteSpace(r[..a]) && AllWhiteSpace(r[a + |t|..])
    ensures t == r
  {
    var a :| 0 <= a <= |r| - |t| && t == r[a..a + |t|] && AllWhiteSpace(r[..a]) && AllWhiteSpace(r[a + |t|..]);
    WhiteSpacePrefixStart(r, a);
    WhiteSpaceSuffixEnd(r, a + |t|);
    assert t == r[0..|r|];
  }

  /** A non-empty whitespace prefix of `s` starts `s` with whitespace. */
  lemma WhiteSpacePrefixStart(s: string, a: nat)
    requires a <= |s| && AllWhiteSpace(s[..a])
    ensures a > 0 ==> IsWhiteSpace(s[0])
  {
    if a > 0 { assert s[..a][0] == s[0]; }
  }

  /** A non-empty whitespace suffix of `s` ends `s` with whitespace. */
  lemma WhiteSpaceSuffixEnd(s: string, b: nat)
    requires b <= |s| && AllWhiteSpace(s[b..])
    ensures b < |s| ==> IsWhiteSpace(s[|s| - 1])
  {
    if b < |s| { assert s[b..][|s| - b - 1] == s[|s| - 1]; }
  }

  /** `string.Join("", parts)`: the parts one after another. */
  function Join(parts: seq<string>): (r: string)
    ensures |parts| == 1 ==> r == parts[0]
  {
    if parts == [] then "" else Join(parts[..|parts| - 1]) + parts[|parts| - 1]
  }

  /** Adding a part adds its text at the end. */
  lemma JoinSnoc(parts: seq<string>, part: string)
    ensures Join(parts + [part]) == Join(parts) + part
  {
    assert (parts + [part])[..|parts|] == parts;
  }

  /** The per-character case fold behind `OrdinalIgnoreCase` (upper-casing; ASCII letters only). */
  function Fold(c: char): (f: char)
    ensures 'a' <= c <= 'z' ==> f as int == c as int - 32
    ensures !('a' <= c <= 'z') ==> f == c
  {
    if 'a' <= c <= 'z' then (c as int - 32) as char else c
  }

  lemma FoldIdempotent(c: char)
    ensures Fold(Fold(c)) == Fold(c)
  {
  }

  /** Two characters fold alike exactly when they are equal or are the two cases of one ASCII letter. */
  lemma FoldEqual(c: char, d: char)
    ensures Fold(c) == Fold(d) <==>
      || c == d
      || ('a' <= c <= 'z' && d as int == c as int - 32)
      || ('a' <= d <= 'z' && c as int == d as int - 32)
  {
  }

  /** Two strings equal up to case: same length and equal folded characters. */
  predicate EqualsIgnoreCase(a: string, b: string)
  {
    |a| == |b| && forall i :: 0 <= i < |a| ==> Fold(a[i]) == Fold(b[i])
  }

  /** `kw` occurs in `s` at offset `i`, up to case. */
  predicate MatchesAt(s: string, kw: string, i: int)
  {
    0 <= i <= |s| - |kw| && EqualsIgnoreCase(s[i..i + |kw|], kw)
  }

  /** `s.Contains(kw, StringComparison.OrdinalIgnoreCase)`. */
  predicate ContainsIgnoreCase(s: string, kw: string)
  {
    exists i | 0 <= i <= |s| - |kw| :: MatchesAt(s, kw, i)
  }

  /** A null string never contains anything: `s?.Contains(kw, ...) == true`. */
  predicate OptionContainsIgnoreCase(s: Option<string>, kw: string)
  {
    s.Some? && ContainsIgnoreCase(s.value, kw)
  }

  /** The empty string contains no non-empty keyword. */
  lemma EmptyContainsNothing(kw: string)
    requires kw != []
    ensures !ContainsIgnoreCase("", kw)
  {
  }

  /** Containment ignores the case of either side: folding the text first does not change the answer. */
  lemma ContainsIgnoresCase(s: string, kw: string)
    ensures ContainsIgnoreCase(s, kw) <==> ContainsIgnoreCase(seq(|s|, j requires 0 <= j < |s| => Fold(s[j])), kw)
  {
    var u := seq(|s|, j requires 0 <= j < |s| => Fold(s[j]));
    assert |u| == |s|;
    if ContainsIgnoreCase(s, kw) {
      var i: int :| MatchesAt(s, kw, i);
      assert MatchesAt(s, kw, i);
      assert 0 <= i <= |u| - |kw| && EqualsIgnoreCase(s[i..i + |kw|], kw);
      assert MatchesAt(u, kw, i) by {
        forall k | 0 <= k < |kw| ensures Fold(u[i..i + |kw|][k]) == Fold(kw[k]) {
          assert u[i + k] == Fold(s[i + k]);
          FoldIdempotent(s[i + k]);
        }
      }
    }
    if ContainsIgnoreCase(u, kw) {
      var i: int :| MatchesAt(u, kw, i);
      assert MatchesAt(u, kw, i);
      assert 0 <= i <= |s| - |kw| && EqualsIgnoreCase(u[i..i + |kw|], kw);
      assert MatchesAt(s, kw, i) by {
        forall k | 0 <= k < |kw| ensures Fold(s[i..i + |kw|][k]) == Fold(kw[k]) {
          assert u[i + k] == Fold(s[i + k]);
          assert Fold(u[i..i + |kw|][k]) == Fold(kw[k]);
          FoldIdempotent(s[i + k]);
        }
      }
    }
  }

  /** A keyword with a character that matches no character of `s`, in any case, is not contained in `s`. */
  lemma MissingCharNotContained(s: string, kw: string, k: int)
    requires 0 <= k < |kw|
    requires forall c | c in s :: Fold(c) != Fold(kw[k])
    ensures !ContainsIgnoreCase(s, kw)
  {
    forall i | 0 <= i <= |s| - |kw| ensures !MatchesAt(s, kw, i) {
      assert s[i..i + |kw|][k] == s[i + k];
      assert s[i + k] in s;
    }
  }
}
