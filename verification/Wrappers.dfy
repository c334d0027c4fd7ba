// An optional value, and a law of texts that several modules use.
module Wrappers {

  datatype Option<T> = None | Some(value: T)

  lemma Assoc(a: string, b: string, c: string)
    ensures a + b + c == a + (b + c)
  {
  }
}
