/** Java's `stream().filter(p).collect(toList())` over sequences, and what it promises. */
module Seqs {

  /** The elements of `s` that satisfy `p`, in the order they have in `s`. */
  function Filter<T>(p: T -> bool, s: seq<T>): (r: seq<T>)
    ensures |r| <= |s|
    ensures forall x | x in r :: x in s && p(x)
    ensures forall x | x in s && p(x) :: x in r
  {
    if s == [] then [] else (if p(s[0]) then [s[0]] else []) + Filter(p, s[1..])
  }

  lemma {:induction false} FilterAppend<T>(p: T -> bool, a: seq<T>, b: seq<T>)
    ensures Filter(p, a + b) == Filter(p, a) + Filter(p, b)
  {
    if a == [] {
      assert a + b == b;
    } else {
      assert (a + b)[1..] == a[1..] + b;
      FilterAppend(p, a[1..], b);
    }
  }

  /** Filtering a filtered sequence again with the same predicate changes nothing. */
  lemma {:induction false} FilterIdempotent<T>(p: T -> bool, s: seq<T>)
    ensures Filter(p, Filter(p, s)) == Filter(p, s)
  {
    if s != [] {
      FilterIdempotent(p, s[1..]);
      FilterAppend(p, if p(s[0]) then [s[0]] else [], Filter(p, s[1..]));
    }
  }

  /** The positions of `s` whose elements satisfy `p`, in increasing order. */
  function MatchIndices<T>(p: T -> bool, s: seq<T>): (r: seq<nat>)
    ensures forall k | 0 <= k < |r| :: r[k] < |s| && p(s[r[k]])
    ensures forall k, l | 0 <= k < l < |r| :: r[k] < r[l]
    ensures forall i | 0 <= i < |s| && p(s[i]) :: i in r
  {
    if s == [] then []
    else
      var n := |s| - 1;
      var r0 := MatchIndices(p, s[..n]);
      assert forall k | 0 <= k < |r0| :: s[..n][r0[k]] == s[r0[k]];
      r0 + (if p(s[n]) then [n] else [])
  }

  /** Filter keeps the input order: its k-th element is the element of `s` at the k-th matching position. */
  lemma {:induction false} FilterKeepsOrder<T>(p: T -> bool, s: seq<T>)
    ensures |Filter(p, s)| == |MatchIndices(p, s)|
    ensures forall k | 0 <= k < |Filter(p, s)| :: Filter(p, s)[k] == s[MatchIndices(p, s)[k]]
  {
    if s != [] {
      var n := |s| - 1;
      var f0, m0 := Filter(p, s[..n]), MatchIndices(p, s[..n]);
      FilterKeepsOrder(p, s[..n]);
      assert s == s[..n] + [s[n]];
      FilterAppend(p, s[..n], [s[n]]);
      assert Filter(p, [s[n]]) == (if p(s[n]) then [s[n]] else []) by {
        assert [s[n]][1..] == [];
      }
      OrderSnoc(s, f0, m0, p(s[n]));
    }
  }

  /** Extending a prefix's order correspondence by the last element, when it matches. */
  lemma OrderSnoc<T>(s: seq<T>, f0: seq<T>, m0: seq<nat>, b: bool)
    requires |s| > 0 && |f0| == |m0|
    requires forall k | 0 <= k < |m0| :: m0[k] < |s| - 1 && f0[k] == s[..|s| - 1][m0[k]]
    ensures var n := |s| - 1;
      var fs, ms := f0 + (if b then [s[n]] else []), m0 + (if b then [n] else []);
      |fs| == |ms| && forall k | 0 <= k < |fs| :: fs[k] == s[ms[k]]
  {
  }

  /** The position of the first `sep` in `x`, or `|x|` when there is none. */
  function FirstIndexOf<T(==)>(x: seq<T>, sep: T): (k: nat)
    ensures k <= |x|
  {
    if x == [] || x[0] == sep then 0 else 1 + FirstIndexOf(x[1..], sep)
  }

  lemma {:induction false} FirstIndexOfAfter<T>(a: seq<T>, r: seq<T>, sep: T)
    requires sep !in a && r != [] && r[0] == sep
    ensures FirstIndexOf(a + r, sep) == |a|
  {
    if a != [] {
      assert (a + r)[1..] == a[1..] + r;
      assert a[0] in a;
      FirstIndexOfAfter(a[1..], r, sep);
    }
  }

  /** Two sequences free of `sep`, each followed by `sep`, are equal when the concatenations are. */
  lemma PrefixBeforeSeparator<T>(a: seq<T>, ra: seq<T>, b: seq<T>, rb: seq<T>, sep: T)
    requires sep !in a && sep !in b
    requires ra != [] && ra[0] == sep && rb != [] && rb[0] == sep
    requires a + ra == b + rb
    ensures a == b && ra == rb
  {
    FirstIndexOfAfter(a, ra, sep);
    FirstIndexOfAfter(b, rb, sep);
    assert a == (a + ra)[..|a|] && b == (b + rb)[..|b|];
    assert ra == (a + ra)[|a|..] && rb == (b + rb)[|b|..];
  }

  /** A common prefix can be cancelled. */
  lemma PrefixCancel<T>(p: seq<T>, x: seq<T>, y: seq<T>)
    requires p + x == p + y
    ensures x == y
  {
    assert x == (p + x)[|p|..];
  }
}
