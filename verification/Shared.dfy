/** Small types that several models use. */
module Shared {

  datatype Option<T> = None | Some(value: T)

  type byte = x: int | 0 <= x < 256
}
