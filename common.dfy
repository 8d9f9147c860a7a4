/** Machine integer types of the Rust program, the error taxonomy of the
    codecs, and the Option/Result wrappers shared by every other module. */
module Common {

  /** Rust `u8`. */
  type u8 = x: int | 0 <= x < 0x100

  /** Rust `u64`, and `usize` on a 64-bit target. */
  type u64 = x: int | 0 <= x < 0x1_0000_0000_0000_0000

  /** Rust `i64`. */
  type i64 = x: int | -0x8000_0000_0000_0000 <= x < 0x8000_0000_0000_0000

  const I64_MIN: i64 := -0x8000_0000_0000_0000
  const I64_MAX: i64 := 0x7fff_ffff_ffff_ffff

  /** Why a decode fails. The source builds human-readable messages for the
      first three; only the kind is kept here. */
  datatype Error =
    | LengthMismatch(expected: nat, actual: nat)  // TraceId text is not BASE64_LENGTH bytes
    | InvalidBase64                               // the base64 decoder rejected the text
    | OutputTooSmall                              // the text decodes to more than the 16-byte buffer
    | UnexpectedEnd                               // postcard: the input ran out
    | BadVarint                                   // postcard: a varint longer than a u64 allows

  datatype Option<+T> = None | Some(value: T)

  datatype Result<+T> = Ok(value: T) | Err(error: Error)

  /** A value decoded from the front of a byte buffer, and the bytes after it. */
  datatype Decoded<+T> = Decoded(value: T, rest: seq<u8>)

  /** Concatenation of byte sequences regroups freely. */
  lemma ConcatAssoc(a: seq<u8>, b: seq<u8>, c: seq<u8>)
    ensures a + b + c == a + (b + c)
  {
  }
}
