/** Facts about sequences that several modules use. */
module Seqs {
  /** Concatenation is associative; stated once so that long appends can be regrouped. */
  lemma AppendAssoc<T>(a: seq<T>, b: seq<T>, c: seq<T>)
    ensures (a + b) + c == a + (b + c)
  {
  }
}
