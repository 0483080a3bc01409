/**
 * Facts about sequences, stated for any element type so that the
 * verifier reasons about them without looking inside the elements.
 */
module Seqs {

  /** A prefix of a prefix is a prefix. */
  lemma TakeTake<T>(s: seq<T>, n: nat, i: nat)
    requires i <= n <= |s|
    ensures s[..n][..i] == s[..i]
  {
  }

  /** Dropping the last element of a concatenation with a non-empty back drops it from the back. */
  lemma TakeAppend<T>(a: seq<T>, b: seq<T>)
    requires b != []
    ensures (a + b)[..|a + b| - 1] == a + b[..|b| - 1]
    ensures (a + b)[|a + b| - 1] == b[|b| - 1]
  {
  }

  lemma AppendAssoc<T>(a: seq<T>, b: seq<T>, c: seq<T>)
    ensures (a + b) + c == a + (b + c)
  {
  }
}
