/**
 * Facts about sequence concatenation and slicing that the layout proofs
 * use to locate one record inside the whole archive.
 */
module Sequences {

  /** Reassociating a three-part concatenation. */
  lemma Assoc<T>(a: seq<T>, b: seq<T>, c: seq<T>)
    ensures a + (b + c) == a + b + c
  {
  }

  /** Regrouping a five-part concatenation around its middle parts. */
  lemma Regroup<T>(a: seq<T>, b: seq<T>, c: seq<T>, d: seq<T>, e: seq<T>)
    ensures a + b + c + d + e == a + b + (c + d + e)
    ensures a + (b + c + d) + e == (a + b) + c + (d + e)
  {
  }

  /** A slice that picks out the middle part of a concatenation. */
  lemma SliceMiddle<T>(front: seq<T>, mid: seq<T>, back: seq<T>)
    ensures (front + mid + back)[|front|..|front| + |mid|] == mid
  {
  }

  /** A sequence split around its i-th element. */
  lemma SplitAt<T>(s: seq<T>, i: nat)
    requires i < |s|
    ensures s == s[..i] + s[i..]
    ensures s[i..] == [s[i]] + s[i + 1..]
    ensures [s[i]][..0] == []
  {
  }

  /** A slice of a slice found at p is the slice at the shifted bounds. */
  lemma SubSlice<T>(s: seq<T>, p: nat, h: seq<T>, a: nat, b: nat)
    requires p + |h| <= |s| && s[p..p + |h|] == h && a <= b <= |h|
    ensures s[p + a..p + b] == h[a..b]
  {
    forall k | 0 <= k < b - a
      ensures s[p + a..p + b][k] == h[a..b][k]
    {
      assert s[p + a + k] == s[p..p + |h|][a + k];
    }
  }

  /** The two halves of a concatenation. */
  lemma Halves<T>(x: seq<T>, y: seq<T>)
    ensures (x + y)[..|x|] == x && (x + y)[|x|..] == y
  {
  }
}
