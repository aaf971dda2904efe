/**
 * General facts about sequences that the string proofs lean on:
 * associativity of concatenation and how slices of slices line up.
 * Each is proved here once, in a small context.
 */
module Seqs {

  /** Concatenation is associative; stated once so that proofs about
      strings built piece by piece need not rediscover it. */
  lemma AppendAssoc<T>(a: seq<T>, b: seq<T>, c: seq<T>)
    ensures a + (b + c) == (a + b) + c
  {
  }

  /** Taking one more element appends it. */
  lemma TakeSnoc<T>(s: seq<T>, i: nat)
    requires i < |s|
    ensures s[..i + 1] == s[..i] + [s[i]]
  {
  }

  /** Dropping the head of a concatenation with a non-empty front. */
  lemma DropHeadAppend<T>(xs: seq<T>, ys: seq<T>)
    requires xs != []
    ensures (xs + ys)[1..] == xs[1..] + ys
  {
  }

  /** Taking a prefix and dropping its head, in either order. */
  lemma TakeDropHead<T>(s: seq<T>, m: nat)
    requires 1 <= m <= |s|
    ensures s[..m][1..] == s[1..][..m - 1]
  {
  }

  /** A prefix of a suffix is a slice. */
  lemma DropTake<T>(s: seq<T>, i: nat, n: nat)
    requires i + n <= |s|
    ensures s[i..][..n] == s[i..i + n]
  {
  }

  /** A suffix of a suffix is a suffix. */
  lemma DropDrop<T>(s: seq<T>, i: nat, k: nat)
    requires i + k <= |s|
    ensures s[i..][k..] == s[i + k..]
  {
  }

  /** Cutting a sequence around one element and gluing it back together. */
  lemma Reassemble<T>(s: seq<T>, i: nat)
    requires i < |s|
    ensures s == s[..i] + [s[i]] + s[i + 1..]
  {
  }
}
