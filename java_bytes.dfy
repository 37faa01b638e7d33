/** Java's signed 8-bit `byte` and the two ways the configuration turns one
    into a map key: the mask `number & 0xff` and the widening cast `(int) number`. */
module JavaBytes {

  /** A Java `byte`: a two's-complement 8-bit value, read as -128..127. */
  type JByte = b: int | -128 <= b < 128

  /** `number & 0xff`: Java widens the byte to a sign-extended 32-bit int and
      keeps its low eight bits. The low eight bits of a two's-complement value
      are its remainder modulo 256, which is what Dafny's Euclidean `%` gives
      for negative operands as well. */
  function AndFF(b: JByte): (r: int)
    ensures 0 <= r < 256
    ensures b >= 0 ==> r == b
    ensures b < 0 ==> r == b + 256
  {
    b % 256
  }

  /** `(int) number`: the widening conversion keeps the signed value. */
  function SignExtend(b: JByte): (r: int)
    ensures r == b
    ensures AndFF(b) == r % 256
  {
    b
  }

  /** The Java `byte` that holds the low eight bits of `x`: what a byte field
      keeps of a descriptor value. Values 128..255 come out negative. */
  function ToByte(x: int): (r: JByte)
    ensures AndFF(r) == x % 256
    ensures -128 <= x < 128 ==> r == x
    ensures 128 <= x < 256 ==> r == x - 256
  {
    (x + 128) % 256 - 128
  }

  /** The mask loses no information: distinct bytes give distinct keys. */
  lemma AndFFInjective(a: JByte, b: JByte)
    requires AndFF(a) == AndFF(b)
    ensures a == b
  {
  }

  /** The two conversions agree exactly on the non-negative bytes. */
  lemma AndFFAgreesWithCast(b: JByte)
    ensures AndFF(b) == SignExtend(b) <==> b >= 0
  {
  }

  /** Every key 0..255 is the mask of exactly one byte. */
  lemma AndFFOnto(k: int)
    requires 0 <= k < 256
    ensures var b: JByte := if k < 128 then k else k - 256; AndFF(b) == k
  {
  }
}
