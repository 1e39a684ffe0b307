/** Rust's `Option`, as the generator uses it for "maybe a struct member" and
    "maybe an enum type name". */
module Wrappers {

  datatype Option<+T> = None | Some(value: T)
}
