/**
 Unsigned machine words modelled as bounded integers, and the few bitwise operations the
 debugger applies to them. Masking with a power of two minus one is proved to be a remainder.
 */
module Bits {
  const U32_LIMIT := 0x1_0000_0000
  const U64_LIMIT := 0x1_0000_0000_0000_0000

  type u8 = x: int | 0 <= x < 0x100
  type u16 = x: int | 0 <= x < 0x1_0000
  type u32 = x: int | 0 <= x < 0x1_0000_0000
  type u64 = x: int | 0 <= x < 0x1_0000_0000_0000_0000

  /** Unsigned 32-bit subtraction: wraps below zero. */
  function Sub32(a: u32, b: u32): u32 {
    if a >= b then a - b else a - b + U32_LIMIT
  }

  /** Unsigned 64-bit addition: wraps at 2^64. */
  function Add64(a: u64, b: u64): u64 {
    if a + b < U64_LIMIT then a + b else a + b - U64_LIMIT
  }

  lemma AddWraps(sum: nat, t: u64, d: u64)
    requires t == sum % U64_LIMIT
    ensures Add64(t, d) == (sum + d) % U64_LIMIT
  {
  }

  function Pow2(k: nat): (p: nat)
    ensures p >= 1
  {
    if k == 0 then 1 else 2 * Pow2(k - 1)
  }

  function BitAnd(a: nat, b: nat): nat {
    if a == 0 || b == 0 then 0
    else 2 * BitAnd(a / 2, b / 2) + (if a % 2 == 1 && b % 2 == 1 then 1 else 0)
  }

  function BitXor(a: nat, b: nat): nat
    decreases a + b
  {
    if a == 0 then b
    else if b == 0 then a
    else 2 * BitXor(a / 2, b / 2) + (if a % 2 != b % 2 then 1 else 0)
  }

  lemma MulAtLeast(a: int, m: int)
    requires a >= 1 && m > 0
    ensures a * m >= m
  {
  }

  lemma DivModUnique(x: int, m: int, q: int, r: int)
    requires m > 0 && x == q * m + r && 0 <= r < m
    ensures x / m == q && x % m == r
  {
    var d := x / m - q;
    assert d * m == r - x % m by {
      assert x == (x / m) * m + x % m;
      assert d * m == (x / m) * m - q * m;
    }
    if d >= 1 {
      MulAtLeast(d, m);
    } else if d <= -1 {
      MulAtLeast(-d, m);
    }
  }

  lemma QuotientBelow(x: nat, m: nat, n: nat)
    requires m > 0 && x < n * m
    ensures x / m < n
  {
    assert x / m * m <= x;
    var d := x / m - n;
    assert d * m == x / m * m - n * m;
    if d > 0 {
      MulAtLeast(d, m);
    }
  }

  lemma DoubleRemainder(x: nat, p: nat)
    requires p > 0
    ensures x % (2 * p) == 2 * (x / 2 % p) + x % 2
  {
    var q, r := x / 2 / p, x / 2 % p;
    assert x / 2 == q * p + r;
    assert q * (2 * p) == 2 * (q * p);
    DivModUnique(x, 2 * p, q, 2 * r + x % 2);
  }

  /** `x & (2^k - 1)` is `x % 2^k`, for every x: what makes a power-of-two table index in range. */
  lemma {:induction false} MaskIsRemainder(x: nat, k: nat)
    ensures BitAnd(x, Pow2(k) - 1) == x % Pow2(k)
    ensures BitAnd(x, Pow2(k) - 1) < Pow2(k)
  {
    if k == 0 {
      assert BitAnd(x, 0) == 0;
    } else {
      var p := Pow2(k - 1);
      MaskIsRemainder(x / 2, k - 1);
      DoubleRemainder(x, p);
      assert (2 * p - 1) / 2 == p - 1 && (2 * p - 1) % 2 == 1;
    }
  }
}
