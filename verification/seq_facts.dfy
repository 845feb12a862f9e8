/**
 Sequence bookkeeping shared by the proofs: each equation is stated once, so that the
 large proof contexts only need to match it by congruence.
 */
module SeqFacts {

  lemma AppendNil<T>(s: seq<T>)
    ensures s + [] == s
  {
  }

  lemma Assoc<T>(a: seq<T>, b: seq<T>, c: seq<T>)
    ensures a + b + c == a + (b + c)
  {
  }

  lemma Assoc4<T>(a: seq<T>, b: seq<T>, c: seq<T>, d: seq<T>)
    ensures a + (b + c + d) == a + b + c + d
  {
  }

  /** A non-empty sequence is its first element followed by the rest. */
  lemma Uncons<T>(y: seq<T>, m: seq<T>)
    requires y != []
    ensures [y[0]] + (y[1..] + m) == y + m
  {
    assert y == [y[0]] + y[1..];
  }
}
