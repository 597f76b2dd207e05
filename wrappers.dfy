/** Option and Result: the source's `Option`, `Result`, and the panics of the
    boot path, written as values; and Rust's `usize` on a 64-bit target. */
module Wrappers {

  datatype Option<+T> = None | Some(value: T)

  datatype Result<+R, +E> = Success(value: R) | Failure(error: E)

  const USIZE_MAX: nat := 0xFFFF_FFFF_FFFF_FFFF

  /** A value of Rust's `usize` on a 64-bit target. */
  type Usize = n: nat | n <= USIZE_MAX
}
