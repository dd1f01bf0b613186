/** The integer conversions of C that the sources rely on. */
module CIntegers {

  const INT_MAX: int := 0x7FFF_FFFF

  /** The conversion of an unsigned integer to a 32-bit `int`. */
  function ToInt32(x: nat): (r: int)
    ensures r <= x && r <= INT_MAX && (x <= INT_MAX ==> r == x)
  {
    var low := x % 0x1_0000_0000;
    if low > INT_MAX then low - 0x1_0000_0000 else low
  }

  /** It is the one number of that range that differs by a multiple of 2^32. */
  lemma ToInt32Wraps(x: nat, r: int)
    ensures -0x8000_0000 <= r <= 0x7FFF_FFFF && (x - r) % 0x1_0000_0000 == 0 <==> r == ToInt32(x)
  {
  }
}
