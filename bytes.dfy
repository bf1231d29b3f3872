/** Machine integers of the 8-bit target and the C conversions the firmware relies on. */
module Bytes {

  /** An `unsigned char`. */
  type Byte = x: int | 0 <= x < 256

  /** An `unsigned int`; the target compiler makes it 16 bits wide. */
  type Word = x: int | 0 <= x < 65536

  const Nul: Byte := 0
  const LineFeed: Byte := 10
  const Dollar: Byte := 36
  const Comma: Byte := 44
  const DigitZero: Byte := 48
  const DigitNine: Byte := 57
  const LetterA: Byte := 65
  const LetterE: Byte := 69
  const LetterN: Byte := 78

  /** Conversion of an `int` value to `unsigned char`: reduction modulo 2^8. */
  function UChar(x: int): Byte {
    x % 256
  }

  /** Conversion of an `int` value to 16-bit `unsigned int`: reduction modulo 2^16. */
  function UInt(x: int): Word {
    x % 65536
  }

  /** Byte `i` of a zero-filled buffer whose leading bytes are `s`: every read past `s` yields 0. */
  function At(s: seq<Byte>, i: int): (b: Byte)
    ensures i < 0 || i >= |s| ==> b == Nul
    ensures 0 <= i < |s| ==> b == s[i]
  {
    if 0 <= i < |s| then s[i] else Nul
  }

  predicate IsDigit(c: Byte) {
    DigitZero <= c <= DigitNine
  }

  /** `n` zero bytes, the contents of a buffer after `memset(.., 0, n)`. */
  function Zeros(n: nat): (r: seq<Byte>)
    ensures |r| == n && forall i :: 0 <= i < n ==> r[i] == 0
  {
    seq(n, _ => 0)
  }

  lemma UCharShift(a: int, k: int)
    ensures UChar(a + 256 * k) == UChar(a)
  {
  }

  lemma UIntShift(a: int, k: int)
    ensures UInt(a + 65536 * k) == UInt(a)
  {
  }
}
