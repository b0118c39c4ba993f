/** Result types shared by the allocator and terminal models. */
module Wrappers {

  /** A value that may be absent; stands for a C pointer that may be NULL. */
  datatype Option<+T> = None | Some(value: T)

  /** Either a computed value or the error the C code would signal instead. */
  datatype Result<+R, +E> = Success(value: R) | Failure(error: E)
}
