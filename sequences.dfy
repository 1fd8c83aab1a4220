/**
 * Facts about concatenation and prefixes of sequences, stated once so that the proofs
 * about strings and write logs can use them without re-deriving them element by element.
 */
module Sequences {

  lemma ConcatAssoc<T>(x: seq<T>, y: seq<T>, z: seq<T>)
    ensures x + (y + z) == x + y + z
  {
  }

  /** The empty sequence and the first element of a concatenation. */
  lemma ConcatParts<T>(x: seq<T>, y: seq<T>)
    ensures x == [] ==> x + y == y
    ensures x != [] ==> (x + y)[0] == x[0] && (x + y)[1..] == x[1..] + y
  {
    if x != [] {
      assert (x + y)[1..] == x[1..] + y;
    }
  }

  /** What follows a prefix of a concatenation is the rest of it. */
  lemma DropPrefix<T>(x: seq<T>, y: seq<T>)
    ensures x <= x + y && (x + y)[|x|..] == y
  {
  }

  lemma PrefixTrans<T>(a: seq<T>, b: seq<T>, c: seq<T>)
    requires a <= b && b <= c
    ensures a <= c
  {
    assert c[..|b|][..|a|] == c[..|a|];
  }

  lemma PrefixConcat<T>(x: seq<T>, a: seq<T>, b: seq<T>)
    requires a <= b
    ensures x + a <= x + b
  {
    assert (x + b)[..|x + a|] == x + a;
  }
}
