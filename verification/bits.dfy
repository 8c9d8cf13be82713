/** Unsigned 32-bit integers, powers of two and the bit mask that the hash
    table uses to turn a hash into a slot index. */
module Bits {

  /** Go's uint32, as a range of unbounded integers. */
  type u32 = x: int | 0 <= x < 0x1_0000_0000

  /** n is 1, 2, 4, 8, ... */
  predicate IsPow2(n: nat)
  {
    n == 1 || (n >= 2 && n % 2 == 0 && IsPow2(n / 2))
  }

  /** Bitwise AND of two non-negative integers (Go's `&` on unsigned values),
      defined bit by bit from the least significant end. */
  function BitAnd(a: nat, b: nat): nat
    decreases a
  {
    if a == 0 || b == 0 then 0
    else 2 * BitAnd(a / 2, b / 2) + (if a % 2 == 1 && b % 2 == 1 then 1 else 0)
  }

  /** An AND never exceeds either operand. */
  lemma {:induction false} BitAndAtMost(a: nat, b: nat)
    ensures BitAnd(a, b) <= b
    decreases a
  {
    if a != 0 && b != 0 {
      BitAndAtMost(a / 2, b / 2);
    }
  }

  lemma MulAtLeast(c: nat, d: int)
    requires d >= 1
    ensures c * d >= c
  {
  }

  /** Euclidean division is unique: a decomposition x == c * t + r with
      0 <= r < c gives the remainder. */
  lemma ModUnique(x: int, c: int, t: int, r: int)
    requires 0 <= r < c
    requires x == c * t + r
    ensures x % c == r
  {
    var q', r' := x / c, x % c;
    assert c * (t - q') == r' - r;
    if t - q' >= 1 {
      MulAtLeast(c, t - q');
    } else if q' - t >= 1 {
      MulAtLeast(c, q' - t);
    }
  }

  /** Division and remainder recompose the dividend. */
  lemma DivMod(a: int, d: int)
    requires d > 0
    ensures a == d * (a / d) + a % d && 0 <= a % d < d
  {
  }

  lemma RegroupHalves(x: int, c: int, half: int, q: int, r: int, t: int, u: int)
    requires c == 2 * half && x == 2 * q + r && q == half * t + u
    ensures x == c * t + (2 * u + r)
  {
    assert c * t == 2 * (half * t);
  }

  /** One bit of the mask c - 1, for even c: the lowest bit of x is kept
      and the rest is masked with c / 2 - 1. */
  lemma BitAndLowBit(x: nat, c: nat)
    requires c >= 2 && c % 2 == 0 && x > 0
    ensures BitAnd(x, c - 1) == 2 * BitAnd(x / 2, c / 2 - 1) + x % 2
  {
    assert (c - 1) / 2 == c / 2 - 1 && (c - 1) % 2 == 1;
  }

  /** The remainder modulo an even c, taken one low bit at a time. */
  lemma HalfMod(x: nat, c: nat)
    requires c >= 2 && c % 2 == 0
    ensures x % c == 2 * ((x / 2) % (c / 2)) + x % 2
  {
    var half := c / 2;
    var q, r := x / 2, x % 2;
    var t, u := q / half, q % half;
    DivMod(x, 2);
    DivMod(q, half);
    RegroupHalves(x, c, half, q, r, t, u);
    ModUnique(x, c, t, 2 * u + r);
  }

  /** Masking with c - 1 keeps the low bits: for a power of two c it is
      the remainder modulo c. */
  lemma {:induction false} BitAndMask(x: nat, c: nat)
    requires IsPow2(c)
    ensures BitAnd(x, c - 1) == x % c
    decreases c
  {
    if c == 1 {
      ModUnique(x, 1, x, 0);
      assert BitAnd(x, c - 1) == 0;
    } else if x == 0 {
      ModUnique(0, c, 0, 0);
    } else {
      BitAndLowBit(x, c);
      BitAndMask(x / 2, c / 2);
      HalfMod(x, c);
      assert BitAnd(x, c - 1) == x % c;
    }
  }

  /** The slot index `(capacity - 1) & x` of hash.go. */
  function Mask(x: nat, capacity: nat): (r: nat)
    requires capacity >= 1
    ensures r < capacity
  {
    BitAndAtMost(x, capacity - 1);
    BitAnd(x, capacity - 1)
  }

  /** The least power of two that is at least n: what `Truncate` computes
      with 2^ceil(log2 n). */
  function NextPow2(n: nat): (p: nat)
    requires n >= 1
    ensures IsPow2(p) && n <= p
    ensures p == 1 || p / 2 < n
    decreases n
  {
    if n <= 1 then 1 else 2 * NextPow2((n + 1) / 2)
  }

  /** NextPow2 is below every other power of two that covers n. */
  lemma {:induction false} NextPow2Least(n: nat, q: nat)
    requires n >= 1 && IsPow2(q) && n <= q
    ensures NextPow2(n) <= q
    decreases q
  {
    if n > 1 {
      assert q >= 2;
      NextPow2Least((n + 1) / 2, q / 2);
    }
  }
}
