/** The optional value used for `Option` results of the source (`str::find`, the JSON parser). */
module Wrappers {
  datatype Option<+T> = None | Some(value: T)
}

/** Sequence facts the proofs call on large terms, where they are cheaper proved once. */
module Seqs {
  lemma ConcatAssoc<T>(a: seq<T>, b: seq<T>, c: seq<T>)
    ensures a + b + c == a + (b + c)
  {
  }

  lemma EmptyConcat<T>(a: seq<T>)
    ensures [] + a == a
  {
  }
}
