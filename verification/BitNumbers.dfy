/** The numbers that bit patterns stand for, told by their bytes. */
module BitNumbers {
  /** The word of four bytes, the lowest first. */
  function Join(a: bv8, b: bv8, c: bv8, d: bv8): bv32 {
    (a as bv32) | ((b as bv32) << 8) | ((c as bv32) << 16) | ((d as bv32) << 24)
  }

  lemma FourBytesOf(a: bv8, b: bv8, c: bv8, d: bv8, w: bv32)
    requires w == (a as bv32) | ((b as bv32) << 8) | ((c as bv32) << 16) | ((d as bv32) << 24)
    ensures w as nat == a as nat + 0x100 * b as nat + 0x1_0000 * c as nat + 0x100_0000 * d as nat
  {
  }

  lemma JoinIs(a: bv8, b: bv8, c: bv8, d: bv8)
    ensures Join(a, b, c, d) == (a as bv32) | ((b as bv32) << 8) | ((c as bv32) << 16) | ((d as bv32) << 24)
  {
  }

  /** The number of a word of four bytes. */
  lemma FourBytes(a: bv8, b: bv8, c: bv8, d: bv8)
    ensures Join(a, b, c, d) as nat == a as nat + 0x100 * b as nat + 0x1_0000 * c as nat + 0x100_0000 * d as nat
  {
    hide Join;
    JoinIs(a, b, c, d);
    FourBytesOf(a, b, c, d, Join(a, b, c, d));
  }

  lemma ByteRange(a: bv8)
    ensures a as nat < 0x100
  {
  }

  lemma TopBit(c: bv8)
    ensures c & 0x80 == 0x80 <==> c as nat / 0x80 == 1
  {
  }

  lemma LowBits(d: bv8)
    ensures d & 0x7F == 0x7F <==> d as nat % 0x80 == 0x7F
  {
  }

  /** The exponent field of four bytes: the low bits of the last and the top bit of the one before. */
  lemma ExponentOfBytes(a: nat, b: nat, c: nat, d: nat)
    requires a < 0x100 && b < 0x100 && c < 0x100 && d < 0x100
    ensures var n := a + 0x100 * b + 0x1_0000 * c + 0x100_0000 * d;
            n / 0x80_0000 % 0x100 == 0xFF <==> d % 0x80 == 0x7F && c / 0x80 == 1
  {
    var n := a + 0x100 * b + 0x1_0000 * c + 0x100_0000 * d;
    var top, low := c / 0x80, c % 0x80;
    assert n == 0x80_0000 * (2 * d + top) + (a + 0x100 * b + 0x1_0000 * low);
    assert n / 0x80_0000 == 2 * d + top;
  }

  /** The mask of the exponent picks the same bits. */
  lemma MaskOfBytes(a: bv8, b: bv8, c: bv8, d: bv8)
    ensures Join(a, b, c, d) & 0x7F80_0000 == 0x7F80_0000 <==> d & 0x7F == 0x7F && c & 0x80 == 0x80
  {
  }
}
