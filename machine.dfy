/** Fixed-width integer types of the MIPS target (N64) and the int8_t wrap-around of a store. */
module Machine {

  type U8 = x: int | 0 <= x < 0x100
  type U16 = x: int | 0 <= x < 0x1_0000
  type U32 = x: int | 0 <= x < 0x1_0000_0000
  type I8 = x: int | -0x80 <= x < 0x80

  /**
    The value an int8_t holds after storing the int `x` into it (two's
    complement truncation): it agrees with `x` modulo 256 and equals `x`
    when `x` fits.
  */
  function WrapI8(x: int): (r: I8)
    ensures (r - x) % 0x100 == 0
    ensures -0x80 <= x < 0x80 ==> r == x
  {
    (x + 0x80) % 0x100 - 0x80
  }

  /** Two successive int8_t stores (`m += a; m -= b;`) end where one store of the exact sum ends. */
  lemma WrapI8Compose(m: int, a: int, b: int)
    ensures WrapI8(WrapI8(m + a) - b) == WrapI8(m + a - b)
  {
    var s := WrapI8(m + a);
    assert (s - (m + a)) % 0x100 == 0;
    var k := (s - (m + a)) / 0x100;
    assert s - b == (m + a - b) + k * 0x100;
    ShiftByMultiple(m + a - b, k);
  }

  lemma ShiftByMultiple(x: int, k: int)
    ensures WrapI8(x + k * 0x100) == WrapI8(x)
  {
    assert (x + k * 0x100 + 0x80) % 0x100 == (x + 0x80) % 0x100;
  }

}
