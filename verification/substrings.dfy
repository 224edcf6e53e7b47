/** Occurrences of a pattern inside a string, and the facts used to locate
    every occurrence of a run of hexadecimal digits (such as a MIME
    boundary) inside a text assembled from pieces. */
module Substrings {

  /** `p` occurs in `s` starting at index `i`. */
  predicate OccursAt(s: string, p: string, i: int)
  {
    0 <= i && i + |p| <= |s| && s[i..i + |p|] == p
  }

  predicate Contains(s: string, p: string)
  {
    exists i | 0 <= i <= |s| :: OccursAt(s, p, i)
  }

  /** The index of the last `c` in `s`, or -1 when `s` has none. */
  function LastIndex(s: string, c: char): (i: int)
    ensures -1 <= i < |s|
    ensures i >= 0 ==> s[i] == c
    ensures forall j | i < j < |s| :: s[j] != c
  {
    if |s| == 0 then -1
    else if s[|s| - 1] == c then |s| - 1
    else LastIndex(s[..|s| - 1], c)
  }

  /** A lower-case hexadecimal digit. */
  predicate IsHex(c: char)
  {
    '0' <= c <= '9' || 'a' <= c <= 'f'
  }

  predicate AllHex(p: string)
  {
    forall k | 0 <= k < |p| :: IsHex(p[k])
  }

  /** An occurrence is a character-by-character match. */
  lemma OccursAtChars(s: string, p: string, i: int, k: int)
    requires OccursAt(s, p, i) && 0 <= k < |p|
    ensures s[i + k] == p[k]
  {
    assert s[i..i + |p|][k] == s[i + k];
  }

  /** A window of `s` holding a non-hex character cannot be an occurrence
      of an all-hex pattern. */
  lemma Pinned(s: string, p: string, i: int, m: int)
    requires AllHex(p) && 0 <= m < |s| && !IsHex(s[m])
    requires i <= m < i + |p|
    ensures !OccursAt(s, p, i)
  {
    if OccursAt(s, p, i) {
      OccursAtChars(s, p, i, m - i);
    }
  }

  /** An occurrence of an all-hex pattern in `x + y` where the junction
      touches a non-hex character lies wholly in `x` or wholly in `y`. */
  lemma HexSplit(x: string, y: string, p: string, i: int)
    requires AllHex(p)
    requires (|x| > 0 && !IsHex(x[|x| - 1])) || (|y| > 0 && !IsHex(y[0]))
    ensures OccursAt(x + y, p, i) ==> OccursAt(x, p, i) || OccursAt(y, p, i - |x|)
  {
    var s := x + y;
    if i < |x| < i + |p| {
      if |x| > 0 && !IsHex(x[|x| - 1]) {
        assert s[|x| - 1] == x[|x| - 1];
        Pinned(s, p, i, |x| - 1);
      } else {
        assert s[|x|] == y[0];
        Pinned(s, p, i, |x|);
      }
    } else if 0 <= i && i + |p| <= |x| && OccursAt(s, p, i) {
      forall k | 0 <= k < |p|
        ensures x[i + k] == p[k]
      {
        OccursAtChars(s, p, i, k);
      }
      OccursByChars(x, p, i);
    } else if |x| <= i && i + |p| <= |s| && OccursAt(s, p, i) {
      forall k | 0 <= k < |p|
        ensures y[i - |x| + k] == p[k]
      {
        OccursAtChars(s, p, i, k);
      }
      OccursByChars(y, p, i - |x|);
    }
  }

  /** Occurrences survive putting text on either side. */
  lemma OccursInJoin(x: string, y: string, z: string, p: string)
    requires y == p
    ensures OccursAt(x + y + z, p, |x|)
  {
    assert (x + y + z)[|x|..|x| + |p|] == y;
  }

  lemma OccursLeft(x: string, y: string, p: string, i: int)
    requires OccursAt(x, p, i)
    ensures OccursAt(x + y, p, i)
  {
    assert (x + y)[i..i + |p|] == x[i..i + |p|];
  }

  lemma OccursRight(x: string, y: string, p: string, j: int)
    requires OccursAt(y, p, j)
    ensures OccursAt(x + y, p, j + |x|)
  {
    assert (x + y)[j + |x|..j + |x| + |p|] == y[j..j + |p|];
  }

  /** Part of an occurrence is an occurrence of the part. */
  lemma OccursMiddle(s: string, a: string, q: string, c: string, i: int)
    requires OccursAt(s, a + q + c, i)
    ensures OccursAt(s, q, i + |a|)
  {
    var p := a + q + c;
    forall k | 0 <= k < |q|
      ensures s[i + |a| + k] == q[k]
    {
      OccursAtChars(s, p, i, |a| + k);
      assert p[|a| + k] == q[k];
    }
    OccursByChars(s, q, i + |a|);
  }

  lemma Assoc(a: string, b: string, c: string)
    ensures a + b + c == a + (b + c)
  {
  }

  lemma OccursPrefix(x: string, y: string)
    ensures OccursAt(x + y, x, 0)
  {
    assert (x + y)[..|x|] == x;
  }

  lemma OccursSuffix(x: string, y: string)
    ensures OccursAt(x + y, y, |x|)
  {
    assert (x + y)[|x|..] == y;
  }

  /** Adjacent occurrences make an occurrence of the concatenation. */
  lemma OccursConcat(s: string, p: string, q: string, i: int)
    requires OccursAt(s, p, i) && OccursAt(s, q, i + |p|)
    ensures OccursAt(s, p + q, i)
  {
    assert s[i..i + |p| + |q|] == s[i..i + |p|] + s[i + |p|..i + |p| + |q|];
  }

  /** An occurrence in a suffix is an occurrence in the whole. */
  lemma OccursInSuffix(s: string, a: int, p: string, i: int)
    requires 0 <= a <= |s| && OccursAt(s[a..], p, i)
    ensures OccursAt(s, p, a + i)
  {
    assert s[a + i..a + i + |p|] == s[a..][i..i + |p|];
  }

  /** A character-by-character match is an occurrence. */
  lemma OccursByChars(s: string, p: string, i: int)
    requires 0 <= i && i + |p| <= |s|
    requires forall k | 0 <= k < |p| :: s[i + k] == p[k]
    ensures OccursAt(s, p, i)
  {
    assert s[i..i + |p|] == p;
  }

  /** A value placed between a text ending in `b` and one starting with `c`
      is found, framed by `b` and `c`, where `b` starts. */
  lemma Framed(x: string, v: string, y: string, b: string, c: string)
    requires OccursAt(x, b, |x| - |b|) && OccursAt(y, c, 0)
    ensures OccursAt(x + (v + y), b + v + c, |x| - |b|)
  {
    OccursLeft(x, v + y, b, |x| - |b|);
    OccursPrefix(v, y);
    OccursRight(x, v + y, v, 0);
    OccursLeft(y, [], c, 0);
    assert y + [] == y;
    OccursRight(v, y, c, 0);
    OccursRight(x, v + y, c, |v|);
    OccursConcat(x + (v + y), b, v, |x| - |b|);
    OccursConcat(x + (v + y), b + v, c, |x| - |b|);
  }
}
