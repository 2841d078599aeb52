/** Facts about parts of strings. */
module Slices {

  lemma SliceOfSlice(t: string, from: nat, to: nat, i: nat, j: nat)
    requires from <= to <= |t| && i <= j <= to - from
    ensures t[from..to][i..j] == t[from + i..from + j]
  {
    var whole, part := t[from..to], t[from + i..from + j];
    forall k | 0 <= k < j - i ensures whole[i..j][k] == part[k] {
      assert whole[i..j][k] == whole[i + k];
    }
  }

  lemma TailOfTail(t: string, p: nat, n: nat)
    requires p + n <= |t|
    ensures t[p..][n..] == t[p + n..]
  {
    assert t[p..|t|] == t[p..] && t[p + n..|t|] == t[p + n..];
    assert t[p..][n..|t| - p] == t[p..][n..];
    SliceOfSlice(t, p, |t|, n, |t| - p);
  }

  /** A text that begins with `a + b` has `a` first and `b` behind it. */
  lemma BeginsInParts(t: string, p: nat, a: string, b: string)
    requires p <= |t| && a + b <= t[p..]
    ensures p + |a| + |b| <= |t| && a <= t[p..] && b <= t[p + |a|..]
    ensures t[p..p + |a|] == a && t[p + |a|..p + |a| + |b|] == b
  {
    var ab := a + b;
    forall k | 0 <= k < |ab| ensures t[p + k] == ab[k] {
      assert t[p..][k] == ab[k];
    }
    forall k | 0 <= k < |a| ensures t[p..][k] == a[k] {
      assert ab[k] == a[k];
    }
    forall k | 0 <= k < |b| ensures t[p + |a|..][k] == b[k] {
      assert ab[|a| + k] == b[k];
    }
  }

  lemma BeginsWith(t: string, p: nat, a: string)
    requires p <= |t| && a <= t[p..]
    ensures p + |a| <= |t| && t[p..p + |a|] == a && forall k :: 0 <= k < |a| ==> t[p + k] == a[k]
  {
    forall k | 0 <= k < |a| ensures t[p + k] == a[k] {
      assert t[p..][k] == a[k];
    }
  }

  /** A tail made of two parts, cut between them. */
  lemma TailInParts(t: string, p: nat, a: string, b: string)
    requires p <= |t| && t[p..] == a + b
    ensures p + |a| <= |t| && t[p..p + |a|] == a && t[p + |a|..] == b
  {
    BeginsInParts(t, p, a, b);
    assert t[p + |a|..|t|] == t[p + |a|..];
  }
}
