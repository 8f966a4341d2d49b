/** Small facts about sequence concatenation, stated once so that proofs can cite them. */
module Seqs {

  lemma AppendAssoc<T>(a: seq<T>, x: seq<T>, w: seq<T>, y: seq<T>)
    requires y == x + w
    ensures a + x + w == a + y
  {
  }

  lemma AppendLast<T>(a: seq<T>, vs: seq<T>)
    requires |vs| > 0
    ensures a + vs[..|vs| - 1] + [vs[|vs| - 1]] == a + vs
  {
    assert vs[..|vs| - 1] + [vs[|vs| - 1]] == vs;
  }

  /** A prefix of a nonempty sequence is its head followed by a prefix of its tail. */
  lemma PrefixCons<T>(s: seq<T>, j: nat)
    requires j < |s|
    ensures s[..j + 1] == [s[0]] + s[1..][..j]
  {
  }
}
