/** What several of the models share. */
module Prelude {

  datatype Option<+T> = None | Some(value: T)

  /** An allocator as one call meets it: whether the i-th request is granted. */
  type Luck = nat -> bool

  function Min(a: nat, b: nat): nat {
    if a <= b then a else b
  }

  function Max(a: nat, b: nat): nat {
    if a <= b then b else a
  }
}
