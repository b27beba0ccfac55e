/** Sequence facts shared by the other modules. */
module Seqs {

  /** No element of `s` appears twice. */
  predicate Distinct<T(==)>(s: seq<T>)
  {
    forall a, b | 0 <= a < b < |s| :: s[a] != s[b]
  }
}
