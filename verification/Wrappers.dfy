/** The Option type shared by the models: a C function that returns false, or
    NULL, returns None here. */
module Wrappers {
  datatype Option<+T> = None | Some(value: T)

  lemma MultisetOfSum<T>(a: seq<T>, b: seq<T>)
    ensures multiset(a + b) == multiset(a) + multiset(b)
  {
  }
}
