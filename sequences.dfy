/**
 Small facts about sequence concatenation, stated once so that the proofs
 about strings and lines can cite them instead of rediscovering them.
 */
module Sequences {

  /** A non-empty sequence is its head followed by its tail, also in front of
      another sequence. */
  lemma ConsAppend<T>(a: seq<T>, b: seq<T>)
    requires |a| > 0
    ensures a == [a[0]] + a[1..]
    ensures a + b == [a[0]] + (a[1..] + b)
  {
  }

  /** The same for the first two elements. */
  lemma TwoConsAppend<T>(a: seq<T>, b: seq<T>)
    requires |a| > 1
    ensures a == [a[0], a[1]] + a[2..]
    ensures a + b == [a[0], a[1]] + (a[2..] + b)
  {
  }

  /** Concatenation is associative. */
  lemma AppendAssoc<T>(x: seq<T>, y: seq<T>, z: seq<T>)
    ensures x + (y + z) == (x + y) + z
  {
  }

  /** The head and tail of a concatenation whose first part is non-empty. */
  lemma AppendHeadTail<T>(x: seq<T>, y: seq<T>)
    requires |x| > 0
    ensures (x + y)[0] == x[0]
    ensures (x + y)[1..] == x[1..] + y
  {
  }

  /** Taking one more element of a sequence appends that element. */
  lemma TakeNext<T>(s: seq<T>, i: nat)
    requires i < |s|
    ensures s[..i + 1] == s[..i] + [s[i]]
  {
  }

  /** The parts of a three-part concatenation can be sliced back out. */
  lemma SliceParts<T>(x: seq<T>, p: seq<T>, y: seq<T>)
    ensures (x + p + y)[..|x|] == x
    ensures (x + p + y)[|x|..|x| + |p|] == p
  {
  }
}
