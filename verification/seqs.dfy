/** Small facts about sequence concatenation that the solver finds slowly on its own. */
module Seqs {

  /** Prepending one element commutes with appending a suffix. */
  lemma ConsAppend<T>(x: T, p: seq<T>, q: seq<T>)
    ensures [x] + (p + q) == ([x] + p) + q
  {
  }

  lemma AppendAssoc<T>(a: seq<T>, b: seq<T>, c: seq<T>)
    ensures a + b + c == a + (b + c)
  {
  }

  lemma TakeDrop<T>(s: seq<T>, n: nat)
    requires n <= |s|
    ensures s[..n] + s[n..] == s
  {
  }

  /** Swapping two elements keeps the multiset. */
  lemma SwapTwo<T>(x: T, y: T)
    ensures multiset([x, y]) == multiset([y, x])
  {
  }

  /** Swapping the last two of three elements keeps the multiset. */
  lemma SwapLastTwo<T>(x: T, y: T, z: T)
    ensures multiset([x, y, z]) == multiset([x, z, y])
  {
  }

  /** A sequence's multiset is its head's plus its tail's. */
  lemma MultisetCons<T>(s: seq<T>)
    requires s != []
    ensures multiset(s) == multiset{s[0]} + multiset(s[1..])
  {
    assert s == [s[0]] + s[1..];
  }
}
