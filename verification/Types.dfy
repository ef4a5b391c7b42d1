/** Values shared by every module: bytes, the machine-integer bounds the source
    relies on, and the result and error shapes of `src/error.rs`. */
module Types {

  type byte = n: int | 0 <= n < 256

  /** An unsigned 64-bit value, the type checksums travel in. */
  type U64 = n: int | 0 <= n < 0x1_0000_0000_0000_0000

  const U32_MAX: nat := 0xFFFF_FFFF
  const USIZE_MAX: nat := 0xFFFF_FFFF_FFFF_FFFF

  datatype Option<+T> = None | Some(value: T)

  datatype Result<+T, +E> = Ok(value: T) | Err(error: E)

  /** The kinds of `std::io::Error` the read loops tell apart. */
  datatype IoKind = Interrupted | EndOfFile | Other(code: int)

  /** The failure categories a framer or deframer can report. */
  datatype ErrorKind =
    | Io(kind: IoKind)
    | ChecksumMismatch(expected: U64, calculated: U64)
    | InvalidFrame(declaredLen: nat, limit: nat)
    | UnexpectedEof

  function Max(a: nat, b: nat): nat {
    if a < b then b else a
  }
}
