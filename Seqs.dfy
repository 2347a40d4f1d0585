// Sequence facts shared by the string modules.
module Seqs {

  /** Appending in two steps is appending at once. */
  lemma Regroup<T>(a: seq<T>, b: seq<T>, c: seq<T>)
    ensures (a + b) + c == a + (b + c)
  {
  }
}
