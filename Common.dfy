/** Values shared by the length-prefixed codec and the client/server exchange. */
module Common {

  /** One octet on the wire. */
  type Byte = b: int | 0 <= b < 256

  /** The exceptions the Python code raises on the paths modelled here. */
  datatype Error =
    | LengthOverflow      // socket.htonl refuses a length of 2^32 or more
    | ShortLengthPrefix   // struct.unpack is handed fewer than four bytes
    | DecodeError         // bytes.decode() meets bytes that are not well-formed UTF-8
    | NotADigit           // int() of a one-character string that is not a decimal digit

  datatype Result<T> = Ok(value: T) | Err(error: Error)

  /** The outcome of an operation that returns nothing but may raise. */
  datatype Outcome = Pass | Fail(error: Error)

  datatype Option<T> = None | Some(value: T)
}
