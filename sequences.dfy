/** Facts about sequences shared by the string and bit-list modules. */
module Sequences {

  /** Concatenation is associative; stated once so that callers can name the regrouping. */
  lemma AppendAssoc<T>(a: seq<T>, b: seq<T>, c: seq<T>)
    ensures (a + b) + c == a + (b + c)
  {
  }
}
