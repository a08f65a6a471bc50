/** C's 32-bit signed integers: the range, truncating division and remainder. */
module CInt {
  const INT32_MIN: int := -0x8000_0000
  const INT32_MAX: int := 0x7FFF_FFFF

  newtype int32 = x: int | -0x8000_0000 <= x < 0x8000_0000

  function Abs(a: int): (r: nat) {
    if a < 0 then -a else a
  }

  /** Division truncates toward zero. */
  function CDiv(a: int, b: int): (r: int)
    requires b > 0
  {
    if a >= 0 then a / b else -(-a / b)
  }

  /** The remainder has the sign of the dividend. */
  function CMod(a: int, b: int): (r: int)
    requires b > 0
  {
    a - b * CDiv(a, b)
  }

  lemma TruncatedDivision(a: int, b: int)
    requires b > 0
    ensures a == b * CDiv(a, b) + CMod(a, b)
    ensures a >= 0 ==> 0 <= CMod(a, b) < b && CDiv(a, b) == Abs(a) / b
    ensures a < 0 ==> -b < CMod(a, b) <= 0 && CDiv(a, b) == -(Abs(a) / b)
  {
    var q, r := Abs(a) / b, Abs(a) % b;
    assert Abs(a) == b * q + r;
    assert a < 0 ==> b * -q == -(b * q);
  }

  /** Storing a wider value in an int32_t keeps its low 32 bits. */
  function Low32(v: int): (r: int32) {
    var m := v % 0x1_0000_0000;
    (if m > INT32_MAX then m - 0x1_0000_0000 else m) as int32
  }

  lemma LowOfSmall(v: int)
    requires INT32_MIN <= v <= INT32_MAX
    ensures Low32(v) as int == v
  {
  }

  /** Two's complement negation; only INT32_MIN is its own negative (see README.md). */
  function Neg32(v: int32): (r: int32) {
    if v as int == INT32_MIN then v else -v
  }
}
