/** Optional values and the outcome of a computation that may panic.
    A Rust `panic!`, a failed `assert!`, an `expect` on `None` and an
    arithmetic overflow in a debug build all become `Panic`. */
module Outcomes {

  datatype Option<+T> = None | Some(value: T)

  datatype Result<+T> = Ok(value: T) | Panic(reason: string)
}
