/** Shared vocabulary: bytes, the unsigned 64-bit range, Option, and the wire constants. */
module Common {

  /** One octet of the wire. */
  type Byte = b: int | 0 <= b < 256

  const U64_LIMIT: int := 0x1_0000_0000_0000_0000

  /** Rust's `u64` (and `usize` on the 64-bit targets the server runs on). */
  type U64 = n: int | 0 <= n < U64_LIMIT

  datatype Option<+T> = None | Some(value: T)

  const CR: Byte := 13
  const LF: Byte := 10
  const CRLF: seq<Byte> := [CR, LF]

  // Frame sigils
  const PLUS: Byte := 43    // '+'
  const MINUS: Byte := 45   // '-'
  const COLON: Byte := 58   // ':'
  const DOLLAR: Byte := 36  // '$'
  const STAR: Byte := 42    // '*'

  /** A carriage return immediately followed by a line feed starts at index `i` of `s`. */
  predicate CrlfAt(s: seq<Byte>, i: int)
  {
    0 <= i && i + 1 < |s| && s[i] == CR && s[i + 1] == LF
  }

  /** `s` holds no `\r\n` pair anywhere. */
  predicate NoCrlf(s: seq<Byte>)
  {
    forall i :: 0 <= i < |s| ==> !CrlfAt(s, i)
  }

  /** `a` and `b` hold the same bytes below index `n`. */
  predicate AgreeBelow(a: seq<Byte>, b: seq<Byte>, n: int)
  {
    n <= |a| && n <= |b| && forall i :: 0 <= i < n ==> a[i] == b[i]
  }
}
