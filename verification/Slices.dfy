/** Facts about concatenation and slicing, stated once so that proofs can name them. */
module Slices {

  lemma Assoc<T>(a: seq<T>, b: seq<T>, c: seq<T>)
    ensures a + b + c == a + (b + c)
  {
  }

  lemma SplitAt<T>(s: seq<T>, i: nat, j: nat)
    requires i <= j <= |s|
    ensures s[..j] == s[..i] + s[i..j]
  {
  }

  /** A slice known to be a + b, taken apart. */
  lemma SliceParts<T>(m: seq<T>, off: nat, a: seq<T>, b: seq<T>)
    requires off + |a| + |b| <= |m| && m[off..off + |a| + |b|] == a + b
    ensures m[off..off + |a|] == a
    ensures m[off + |a|..off + |a| + |b|] == b
  {
    var s := m[off..off + |a| + |b|];
    assert s[..|a|] == a && s[|a|..] == b;
    assert m[off..off + |a|] == s[..|a|];
    assert m[off + |a|..off + |a| + |b|] == s[|a|..];
  }

  /** The sequence w stands in m at position p. */
  ghost predicate HoldsAt<T>(m: seq<T>, p: nat, w: seq<T>) { p + |w| <= |m| && m[p..p + |w|] == w }

  lemma HoldsParts<T>(m: seq<T>, p: nat, a: seq<T>, b: seq<T>)
    requires HoldsAt(m, p, a + b)
    ensures HoldsAt(m, p, a) && HoldsAt(m, p + |a|, b)
  {
    SliceParts(m, p, a, b);
  }

  lemma HoldsElement<T>(m: seq<T>, p: nat, w: seq<T>, i: nat)
    requires HoldsAt(m, p, w) && i < |w|
    ensures m[p + i] == w[i]
  {
    assert m[p + i] == m[p..p + |w|][i];
  }

  /** Slices of a suffix, as slices of the whole. */
  lemma TailSlices<T>(s: seq<T>, i: nat, j: nat, k: nat)
    requires i <= j <= k <= |s|
    ensures s[i..][..j - i] == s[i..j]
    ensures s[i..][k - i..] == s[k..]
  {
  }

  lemma MidSlice<T>(s: seq<T>, i: nat, j: nat, k: nat)
    requires i <= j <= k <= |s|
    ensures s[i..][j - i..k - i] == s[j..k]
  {
  }

  /** Sequences that agree from i on agree from any later position on. */
  lemma SuffixAgrees<T>(s: seq<T>, t: seq<T>, i: nat, j: nat)
    requires |s| == |t| && i <= j <= |s| && s[i..] == t[i..]
    ensures s[j..] == t[j..]
  {
    TailSlices(s, i, j, j);
    TailSlices(t, i, j, j);
  }

  lemma ConsSlice<T>(s: seq<T>, k: nat)
    requires 0 < k <= |s|
    ensures s[..k] == [s[0]] + s[1..][..k - 1]
  {
  }
}
