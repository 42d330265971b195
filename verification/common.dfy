/** Small shared vocabulary: optional values, results with an error, raw bytes. */
module Common {

  /** One octet of a file's contents (the source's `ArrayBuffer` / `Uint8Array` element). */
  type byte = x: int | 0 <= x < 256

  /** The contents of a file. */
  type Bytes = seq<byte>

  /** A value that may be absent (JavaScript `undefined` / `null`). */
  datatype Option<T> = None | Some(value: T)

  /** Either a value or the error that a rejected promise or a thrown exception would carry. */
  datatype Result<T, E> = Ok(value: T) | Err(error: E)
}
