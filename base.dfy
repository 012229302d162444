/** Types shared by every module of the model: octets, optional values and
    the three ways a library call can end (a value, a reported error, a panic). */
module Base {

  /** One octet of a body, a buffer or a file. */
  newtype byte = x: int | 0 <= x < 256

  /** The largest `usize` of the 64-bit targets the module is built for. */
  const USIZE_MAX: nat := 0xFFFF_FFFF_FFFF_FFFF

  datatype Option<+T> = None | Some(value: T)

  /** How a library routine ends: with a value, with an error that it
      returns to its caller (Rust's `?` and `Err`), or with a panic
      (`unwrap` of nothing, an index out of range, `panic!`), which aborts
      the worker because it unwinds across the C boundary. */
  datatype Outcome<+T> = Ok(value: T) | Err(msg: string) | Panic(msg: string)

  /** A byte read as the character with the same code (ISO 8859-1), which is
      how the library turns cached CSS bytes into text. */
  function ByteToChar(b: byte): (c: char)
    ensures c as int == b as int
  {
    (b as int) as char
  }
}
