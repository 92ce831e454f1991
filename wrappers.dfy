/** The optional value and the sequence fact shared by the modules of this
    project. */
module Wrappers {
  datatype Option<T> = None | Some(value: T)

  /** Appending two lists one after the other appends their concatenation. */
  lemma AppendAssoc<T>(a: seq<T>, b: seq<T>, c: seq<T>)
    ensures a + b + c == a + (b + c)
  {
  }
}
