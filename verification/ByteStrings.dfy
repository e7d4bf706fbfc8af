/** Byte strings and the character classes of the C library, as the other modules use them. */
module ByteStrings {
  type byte = b: int | 0 <= b < 256
  type bytes = seq<byte>

  const LF: byte := 10
  const CR: byte := 13
  const ZERO: byte := 48

  predicate IsDigit(b: byte) {
    ZERO <= b < ZERO + 10
  }

  predicate IsSpace(b: byte) {
    b == 32 || 9 <= b <= 13
  }

  /** `tolower` in the C locale. */
  function LowerChar(c: byte): byte {
    if 65 <= c <= 90 then c + 32 else c
  }

  function Min(a: nat, b: nat): nat {
    if a <= b then a else b
  }
}
