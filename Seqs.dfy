/** Facts about sequences used by the trie proofs: slicing, concatenation and update. */
module Seqs {

  /** A slice of a slice is a slice: the window of `c` inside `t`, offset by where `t`
      sits in `r`. Stated with the offsets `x` and `s` of routing (i - x is where t
      starts, i - s is where c starts). */
  lemma SliceCompose<X>(r: seq<X>, t: seq<X>, c: seq<X>, i: int, x: int, s: int)
    requires 0 <= s <= x <= i
    requires i - x + |t| <= |r| && t == r[i - x..i - x + |t|]
    requires x - s + |c| <= |t| && c == t[x - s..x - s + |c|]
    ensures i - s + |c| <= |r| && c == r[i - s..i - s + |c|]
  {
    var b, o := i - x, x - s;
    forall k | 0 <= k < |c|
      ensures c[k] == r[b + o + k]
    {
      assert c[k] == t[o + k];
    }
  }

  /** An element of a slice is the element of the whole sequence at the shifted index. */
  lemma SliceAt<X>(r: seq<X>, t: seq<X>, i: int, x: int)
    requires 0 <= x <= i && i - x + |t| <= |r| && t == r[i - x..i - x + |t|] && x < |t|
    ensures i < |r| && t[x] == r[i]
  {
    assert t[x] == r[i - x + x];
  }

  lemma ConcatAssoc<X>(a: seq<X>, b: seq<X>, c: seq<X>)
    ensures a + (b + c) == (a + b) + c
  {
  }

  lemma UpdateLeft<X>(pre: seq<X>, post: seq<X>, i: nat, v: X)
    requires i < |pre|
    ensures (pre + post)[i := v] == pre[i := v] + post
  {
  }

  lemma UpdateRight<X>(pre: seq<X>, post: seq<X>, j: nat, v: X)
    requires j < |post|
    ensures (pre + post)[|pre| + j := v] == pre + post[j := v]
  {
  }

  /** Updating inside the middle part of a concatenation. */
  lemma UpdateMiddle<X>(pre: seq<X>, mid: seq<X>, post: seq<X>, s: nat, v: X)
    requires s < |mid|
    ensures (pre + mid + post)[|pre| + s := v] == pre + mid[s := v] + post
  {
  }

  /** Splitting a prefix at p. */
  lemma TakeSplit<X>(f: seq<X>, p: nat, q: nat)
    requires p <= q <= |f|
    ensures f[..p] + f[p..q] == f[..q]
  {
  }

  /** A prefix of a concatenation that stays inside the left part. */
  lemma TakeLeft<X>(f: seq<X>, g: seq<X>, n: nat)
    requires n <= |f|
    ensures (f + g)[..n] == f[..n]
  {
  }

  /** A prefix of a concatenation that reaches into the right part. */
  lemma TakeRight<X>(f: seq<X>, g: seq<X>, k: nat)
    requires k <= |g|
    ensures (f + g)[..|f| + k] == f + g[..k]
  {
  }

  /** A prefix of a slice is a shorter slice. */
  lemma SliceTake<X>(f: seq<X>, a: nat, b: nat, k: nat)
    requires a <= b <= |f| && k <= b - a
    ensures f[a..b][..k] == f[a..a + k]
  {
  }

  /** Keeping a prefix of the part at |a|: the elements before it, then the first k + 1
      elements of b, are the first |a| + k + 1 elements of the whole. */
  lemma JoinPrefix<X>(f: seq<X>, a: seq<X>, b: seq<X>, rest: seq<X>, k: nat)
    requires f == a + b + rest && k < |b|
    ensures a + b[..k + 1] == f[..|a| + k + 1]
  {
    assert f[..|a| + k + 1] == a + b[..k + 1] by {
      forall m | 0 <= m < |a| + k + 1
        ensures f[m] == (a + b[..k + 1])[m]
      {
        if m >= |a| { assert f[m] == b[m - |a|]; }
      }
    }
  }

  /** The prefix of full length is the whole sequence. */
  lemma TakeAll<X>(f: seq<X>)
    ensures f[..|f|] == f
  {
  }
}
