/** Shared value types of the hashing utilities: bytes, the two error kinds
    the utilities throw, and the wrappers that carry them. */
module Types {

  /** One octet. A CryptoJS WordArray is modelled as a `seq<byte>`. */
  newtype byte = b: int | 0 <= b < 256

  /** The two exceptions thrown by the utilities: an argument of `smthash`
      of an unsupported kind, and a non-hex text given to `hexToWordArray`
      (whose message names the offending text). */
  datatype Error = InvalidInput | NotHexString(text: string)

  datatype Option<T> = None | Some(value: T)

  datatype Result<T> = Success(value: T) | Failure(error: Error)
}
