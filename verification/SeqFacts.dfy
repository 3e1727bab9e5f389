/** Small facts about sequences, proved once and used where the context
    around them would make the solver work hard for them. */
module SeqFacts {

  /** A non-empty sequence is its front followed by its last element. */
  lemma ButLast<T>(xs: seq<T>)
    requires xs != []
    ensures xs[..|xs| - 1] + [xs[|xs| - 1]] == xs
  {
  }

  /** Extending a prefix by the next element gives the next prefix. */
  lemma PrefixStep<T>(xs: seq<T>, i: nat)
    requires i < |xs|
    ensures xs[..i] + [xs[i]] == xs[..i + 1]
  {
  }

  /** A sequence is what comes before position `k`, the element there, and
      what comes after. */
  lemma SplitAt<T>(xs: seq<T>, k: nat)
    requires k < |xs|
    ensures xs == (xs[..k] + [xs[k]]) + xs[k + 1..]
  {
  }

  /** The ends of the slice from `a` through `b`. */
  lemma SliceEnds<T>(xs: seq<T>, a: nat, b: nat)
    requires a <= b < |xs|
    ensures |xs[a..b + 1]| == b + 1 - a && xs[a..b + 1][0] == xs[a] && xs[a..b + 1][b - a] == xs[b]
  {
  }

  /** The empty sequence is a unit of concatenation. */
  lemma AppendEmpty<T>(x: seq<T>)
    ensures x + [] == x && [] + x == x
  {
  }

  /** Concatenation is associative. */
  lemma Assoc<T>(x: seq<T>, y: seq<T>, z: seq<T>)
    ensures x + (y + z) == (x + y) + z
  {
  }
}
