/**
 * Regrouping facts about sequence concatenation, stated on abstract
 * sequences so that callers do not pay for the extensionality argument on
 * their own, larger terms.
 */
module Seqs {
  /** Appending two parts one after the other appends them together. */
  lemma AppendTwo<T>(before: seq<T>, p1: seq<T>, p2: seq<T>)
    ensures before + p1 + p2 == before + (p1 + p2)
  {
  }

  /** Appending three parts one after the other appends them together. */
  lemma AppendThree<T>(before: seq<T>, p1: seq<T>, p2: seq<T>, p3: seq<T>)
    ensures before + p1 + p2 + p3 == before + (p1 + p2 + p3)
  {
  }

  /** A sequence is its prefix followed by its suffix. */
  lemma Glue<T>(r: seq<T>, start: nat)
    requires start <= |r|
    ensures r == r[..start] + r[start..]
  {
  }

  /** Dropping twice drops the sum. */
  lemma DropDrop<T>(s: seq<T>, m: nat, n: nat)
    requires m + n <= |s|
    ensures s[m..][n..] == s[m + n..]
  {
  }

  /** The first element, then a prefix of the rest, is a prefix. */
  lemma ConsTake<T>(s: seq<T>, n: nat)
    requires 0 < n <= |s|
    ensures [s[0]] + s[1..][..n - 1] == s[..n]
  {
  }
}
