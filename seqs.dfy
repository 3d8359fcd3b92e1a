/** Three facts about sequences, stated once so that proofs about long
    concatenations can cite them instead of rediscovering them. */
module Seqs {
  /** Concatenation is associative. */
  lemma Assoc<T>(a: seq<T>, b: seq<T>, c: seq<T>)
    ensures (a + b) + c == a + (b + c)
  {
  }

  /** A suffix is its first element followed by the shorter suffix. */
  lemma ConsSlice<T>(s: seq<T>, i: nat)
    requires i < |s|
    ensures [s[i]] + s[i + 1..] == s[i..]
  {
  }

  /** A non-empty sequence is its head followed by its tail. */
  lemma ConsHead<T>(s: seq<T>)
    requires s != []
    ensures s == [s[0]] + s[1..]
  {
  }
}
