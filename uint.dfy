/**
 * Fixed-width unsigned integers of the firmware (uint8_t, uint16_t, uint32_t)
 * and the C arithmetic on them that the core relies on: wrap-around
 * subtraction of millisecond timestamps, narrowing conversions and
 * integer division that truncates toward zero.
 */
module Uint {

  type u8 = x: int | 0 <= x < 0x100
  type u16 = x: int | 0 <= x < 0x1_0000
  type u32 = x: int | 0 <= x < 0x1_0000_0000

  const U32_MODULUS: int := 0x1_0000_0000

  /** `a - b` on uint32_t: the unique value that, added to `b`, gives `a` modulo 2^32. */
  function Diff32(a: u32, b: u32): (d: u32)
    ensures b + d == a || b + d == a + U32_MODULUS
    ensures b <= a ==> d == a - b
  {
    if b <= a then a - b else a - b + U32_MODULUS
  }

  /** Conversion of an int to uint8_t (keeps the low 8 bits). */
  function Wrap8(x: int): (r: u8)
    ensures 0 <= x < 0x100 ==> r == x
    ensures -0x100 <= x < 0 ==> r == x + 0x100
    ensures 0x100 <= x < 0x200 ==> r == x - 0x100
  {
    x % 0x100
  }

  /** Conversion of an int to uint16_t (keeps the low 16 bits). */
  function Wrap16(x: int): (r: u16)
    ensures 0 <= x < 0x1_0000 ==> r == x
    ensures -0x1_0000 <= x < 0 ==> r == x + 0x1_0000
    ensures 0x1_0000 <= x < 0x2_0000 ==> r == x - 0x1_0000
  {
    x % 0x1_0000
  }

  /** C's `/` on signed integers: the quotient is truncated toward zero. */
  function TruncDiv(a: int, b: int): (q: int)
    requires b != 0
    ensures a >= 0 && b > 0 ==> q == a / b
    ensures a < 0 && b > 0 ==> q == -((-a) / b)
    ensures a == 0 ==> q == 0
  {
    if (a >= 0) == (b > 0) then
      (if a >= 0 then a else -a) / (if b > 0 then b else -b)
    else
      -((if a >= 0 then a else -a) / (if b > 0 then b else -b))
  }

  /** The 32-bit two's-complement `long` of the target (an ARM Cortex-M). */
  type i32 = x: int | -0x8000_0000 <= x < 0x8000_0000

  /** A value a 32-bit `long` holds without wrapping. */
  predicate InLong(x: int)
  {
    -0x8000_0000 <= x < 0x8000_0000
  }

  /** Conversion of an int to a 32-bit `long`: the low 32 bits, read as two's complement. */
  function Long32(x: int): (r: i32)
    ensures InLong(x) ==> r == x
    ensures 0x8000_0000 <= x < 0x1_0000_0000 ==> r == x - 0x1_0000_0000
    ensures -0x1_0000_0000 <= x < -0x8000_0000 ==> r == x + 0x1_0000_0000
  {
    (x + 0x8000_0000) % 0x1_0000_0000 - 0x8000_0000
  }

  /**
   * Arduino's `map(x, inMin, inMax, outMin, outMax)`:
   * `(x - inMin) * (outMax - outMin) / (inMax - inMin) + outMin` on `long`,
   * every operation wrapping to 32 bits and the division truncating toward
   * zero (the result is not clamped).
   */
  function ArduinoMap(x: i32, inMin: i32, inMax: i32, outMin: i32, outMax: i32): (r: i32)
    requires inMax != inMin
    ensures x == inMin ==> r == outMin
    ensures var p := (x - inMin) * (outMax - outMin);
      InLong(x - inMin) && InLong(outMax - outMin) && InLong(inMax - inMin) && InLong(p) &&
      InLong(TruncDiv(p, inMax - inMin) + outMin) ==>
        r == TruncDiv(p, inMax - inMin) + outMin
  {
    var a, b, d := Long32(x - inMin), Long32(outMax - outMin), Long32(inMax - inMin);
    assert d != 0;
    var p := Long32(a * b);
    assert x == inMin ==> a == 0 && p == 0;
    Long32(TruncDiv(p, d) + outMin)
  }

  /** Scaling an index below `n` by `b` and dividing by `n` stays below `b`. */
  lemma DivBelow(i: nat, b: nat, n: nat)
    requires i < n && 0 < b
    ensures i * b / n < b
  {
    var a := i * b;
    var q := a / n;
    assert a == n * q + a % n;
    assert a < n * b by {
      MulMonotone(i + 1, n, b);
      assert (i + 1) * b == a + b;
    }
  }

  lemma MulMonotone(x: nat, y: nat, k: nat)
    requires x <= y
    ensures x * k <= y * k
  {
  }

  /** Integer division is monotone in the dividend. */
  lemma DivMonotone(a: nat, b: nat, d: nat)
    requires 0 < d && a <= b
    ensures a / d <= b / d
  {
    assert a == d * (a / d) + a % d;
    assert b == d * (b / d) + b % d;
    if a / d > b / d {
      MulMonotone(b / d + 1, a / d, d);
    }
  }

  /** Dividing by a positive number does not increase a natural number. */
  lemma DivAtMost(a: nat, d: nat)
    requires 0 < d
    ensures a / d <= a
  {
    assert a == d * (a / d) + a % d;
    MulMonotone(1, d, a / d);
  }

  /** Multiplying by `d` and dividing by `d` gives back the factor. */
  lemma MulDivCancel(k: nat, d: nat)
    requires 0 < d
    ensures k * d / d == k
  {
    var q := k * d / d;
    assert k * d == d * q + k * d % d;
    if q < k {
      MulMonotone(q + 1, k, d);
    } else if q > k {
      MulMonotone(k + 1, q, d);
    }
  }

  /** The quotient and remainder of a division are the only ones with a remainder in `[0, m)`. */
  lemma DivModUnique(a: int, m: int, q: int, r: int)
    requires 0 < m && a == m * q + r && 0 <= r < m
    ensures a / m == q && a % m == r
  {
    var q', r' := a / m, a % m;
    assert a == m * q' + r';
    if q' < q {
      MulMonotone(1, q - q', m);
    } else if q < q' {
      MulMonotone(1, q' - q, m);
    }
  }

  /** One more, modulo `m`. */
  lemma ModSucc(x: nat, m: nat)
    requires 0 < m
    ensures (x % m + 1) % m == (x + 1) % m
  {
    var q, r := x / m, x % m;
    assert x == m * q + r;
    if r + 1 < m {
      DivModUnique(x + 1, m, q, r + 1);
      DivModUnique(r + 1, m, 0, r + 1);
    } else {
      DivModUnique(x + 1, m, q + 1, 0);
      DivModUnique(r + 1, m, 1, 0);
    }
  }

  /** Adding after reducing modulo `m` is adding before it. */
  lemma ModAdd(x: nat, k: nat, m: nat)
    requires 0 < m
    ensures (x % m + k) % m == (x + k) % m
  {
    var q, r := x / m, x % m;
    assert x == m * q + r;
    var q2, r2 := (r + k) / m, (r + k) % m;
    assert r + k == m * q2 + r2;
    assert x + k == m * (q + q2) + r2;
    DivModUnique(x + k, m, q + q2, r2);
  }

  /** A uint8_t kept modulo 4: reducing modulo 256 first does not change the residue modulo 4. */
  lemma Mod256Mod4(x: nat)
    ensures x % 0x100 % 4 == x % 4
  {
    var q, r := x / 0x100, x % 0x100;
    assert x == 0x100 * q + r;
    var q2, r2 := r / 4, r % 4;
    assert r == 4 * q2 + r2;
    DivModUnique(x, 4, 64 * q + q2, r2);
  }
}
