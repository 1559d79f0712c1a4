module Wrappers {
  /** A value that may be absent: a possibly null pointer, or an answer not yet given. */
  datatype Option<+T> = None | Some(value: T)

  function Min(a: nat, b: nat): nat {
    if a < b then a else b
  }
}
