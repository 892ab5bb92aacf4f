/** Small helper datatypes shared by the modules of the memory game model. */
module Wrappers {

  /** An optional value. */
  datatype Option<+T> = None | Some(value: T)

  function Min(a: nat, b: nat): nat
  {
    if a <= b then a else b
  }
}
