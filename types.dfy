/** Value types shared by every part of the cache model. */
module Types {

  /** One byte of a Go `[]byte`. */
  type byte = b: int | 0 <= b < 256

  /** An immutable byte payload; stands for the cache's `ByteView`. */
  type Bytes = seq<byte>

  datatype Option<T> = None | Some(value: T)

  /** A Go `(value, error)` pair: either a value or the text of the error. */
  datatype Result<T> = Ok(value: T) | Err(message: string)
}
