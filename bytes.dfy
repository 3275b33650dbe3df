/**
 * Fixed-width integer types of the firmware (uint8_t, uint16_t, uint32_t,
 * int32_t) as subset types of int, and the 32-bit two's-complement
 * reduction that the target applies to int32_t arithmetic.
 */
module Bytes {

  type byte = x: int | 0 <= x < 0x100
  type uint16 = x: int | 0 <= x < 0x1_0000
  type uint32 = x: int | 0 <= x < 0x1_0000_0000
  type int32 = x: int | -0x8000_0000 <= x < 0x8000_0000

  const TWO32: int := 0x1_0000_0000
  const INT32_MIN: int := -0x8000_0000
  const INT32_MAX: int := 0x7FFF_FFFF

  /** x and y are equal modulo 2^32. */
  predicate Cong32(x: int, y: int) {
    (x - y) % TWO32 == 0
  }

  lemma ModPeriodic(a: int, k: int)
    ensures (a + TWO32 * k) % TWO32 == a % TWO32
  {
    var q, r := a / TWO32, a % TWO32;
    assert a + TWO32 * k == TWO32 * (q + k) + r;
  }

  /** Euclidean division is unique: a q and r with x == m * q + r and 0 <= r < m are x / m and x % m. */
  lemma DivUnique(x: int, m: int, q: int, r: int)
    requires m > 0 && 0 <= r < m && x == m * q + r
    ensures x / m == q && x % m == r
  {
    var q0, r0 := x / m, x % m;
    assert x == m * q0 + r0;
    assert m * (q - q0) == r0 - r;
    if q > q0 {
      MulAtLeast(m, q - q0);
    } else if q < q0 {
      MulAtLeast(m, q0 - q);
    }
  }

  lemma MulAtLeast(m: int, d: int)
    requires m > 0 && d >= 1
    ensures m * d >= m
  {
    assert m * d == m * (d - 1) + m;
  }

  /** The int32_t value that a mathematical result wraps to. */
  function Wrap32(x: int): (r: int32)
    ensures Cong32(r, x)
    ensures INT32_MIN <= x <= INT32_MAX ==> r == x
  {
    var h := x + 0x8000_0000;
    ModPeriodic(h % TWO32 - h, h / TWO32);
    h % TWO32 - 0x8000_0000
  }

  lemma CongSym(x: int, y: int)
    requires Cong32(x, y)
    ensures Cong32(y, x)
  {
    ModPeriodic(0, -((x - y) / TWO32));
  }

  lemma CongTrans(x: int, y: int, z: int)
    requires Cong32(x, y) && Cong32(y, z)
    ensures Cong32(x, z)
  {
    var k1, k2 := (x - y) / TWO32, (y - z) / TWO32;
    assert x - z == TWO32 * (k1 + k2);
    ModPeriodic(0, k1 + k2);
  }

  lemma CongAdd(x: int, y: int, d: int)
    requires Cong32(x, y)
    ensures Cong32(x + d, y + d)
  {
  }

  lemma CongMul(m: int, x: int, y: int)
    requires Cong32(x, y)
    ensures Cong32(m * x, m * y)
  {
    var k := (x - y) / TWO32;
    assert x - y == TWO32 * k;
    assert m * x - m * y == TWO32 * (m * k) by {
      assert m * x - m * y == m * (x - y);
    }
    ModPeriodic(0, m * k);
  }

  /** Values congruent modulo 2^32 wrap to the same int32_t. */
  lemma {:induction false} CongWrap(x: int, y: int)
    requires Cong32(x, y)
    ensures Wrap32(x) == Wrap32(y)
  {
    var k := (x - y) / TWO32;
    assert x + 0x8000_0000 == (y + 0x8000_0000) + TWO32 * k;
    ModPeriodic(y + 0x8000_0000, k);
  }

  /** The uint32_t that an int32_t converts to. */
  function ToUnsigned32(x: int32): (r: uint32)
    ensures Cong32(r, x)
    ensures r == 0 <==> x == 0
  {
    ModPeriodic(x, 1);
    if x < 0 then x + TWO32 else x
  }
}
