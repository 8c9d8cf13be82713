/** random.go: a linear congruential generator over a signed 64-bit seed,
    seed := (a * seed + c) % m with a = 1103515245, c = 12345, m = 2^31.
    Go's int64 arithmetic wraps around and its `%` truncates toward zero;
    both are written out here. */
module Lcg {
  import opened Bits

  const Two63: int := 0x8000_0000_0000_0000
  const Two64: int := 0x1_0000_0000_0000_0000

  /** Go's int64, and Go's int on a 64-bit platform. */
  type i64 = x: int | -0x8000_0000_0000_0000 <= x < 0x8000_0000_0000_0000

  /** Go's uint64. */
  type u64 = x: int | 0 <= x < 0x1_0000_0000_0000_0000

  /** The multiplier, increment and modulus set by `NewLCGState`. */
  const A: u32 := 1103515245
  const C: u32 := 12345
  const M: u32 := 0x8000_0000

  /** Two's-complement wrap-around: the int64 congruent to x modulo 2^64. */
  function Wrap64(x: int): (r: i64)
    ensures (x - r) % Two64 == 0
    ensures -Two63 <= x < Two63 ==> r == x
  {
    var y := x % Two64;
    DivMod(x, Two64);
    if y >= Two63 then
      ModUnique(x - (y - Two64), Two64, x / Two64 + 1, 0);
      y - Two64
    else
      ModUnique(x - y, Two64, x / Two64, 0);
      y
  }

  function Abs(x: int): nat
  {
    if x < 0 then -x else x
  }

  /** Go's `%` on signed integers: the remainder of division truncated
      toward zero, so it takes the sign of the dividend. */
  function TRem(x: int, d: int): (r: int)
    requires d != 0
    ensures (x - r) % Abs(d) == 0
    ensures Abs(r) < Abs(d)
    ensures x >= 0 ==> r >= 0
    ensures x < 0 ==> r <= 0
  {
    var n := Abs(d);
    DivMod(Abs(x), n);
    if x >= 0 then
      ModUnique(x - x % n, n, x / n, 0);
      x % n
    else
      ModUnique(x + (-x) % n, n, -((-x) / n), 0);
      -((-x) % n)
  }

  /** Go's conversion uint64(x) of an int64. */
  function ToU64(x: i64): (r: u64)
    ensures (x - r) % Two64 == 0
    ensures x >= 0 ==> r == x
  {
    if x < 0 then
      ModUnique(x - (x + Two64), Two64, -1, 0);
      x + Two64
    else
      ModUnique(0, Two64, 0, 0);
      x
  }

  /** A multiple of 2^64 is a multiple of 2^31. */
  lemma Wide(x: int)
    requires x % Two64 == 0
    ensures x % M as int == 0
  {
    DivMod(x, Two64);
    var k := x / Two64;
    assert x == M as int * (0x2_0000_0000 * k);
    ModUnique(x, M as int, 0x2_0000_0000 * k, 0);
  }

  /** The update `((int64(a) * seed) + int64(c)) % int64(m)` of `Random`
      and `URandom`. Whatever the wrap-arounds, the new seed lies strictly
      between -m and m and is congruent to a * seed + c modulo m. */
  function Step(seed: i64): (r: i64)
    ensures -(M as int) < r < M as int
    ensures (A as int * seed + C as int - r) % M as int == 0
  {
    var product := Wrap64(A as int * seed);
    var sum := Wrap64(product + C as int);
    var r := TRem(sum, M as int);
    Wide(A as int * seed - product);
    Wide(product + C as int - sum);
    SumOfMultiples(A as int * seed - product, product + C as int - sum, sum - r);
    r
  }

  lemma SumOfMultiples(x: int, y: int, z: int)
    requires x % M as int == 0 && y % M as int == 0 && z % M as int == 0
    ensures (x + y + z) % M as int == 0
  {
    var m := M as int;
    DivMod(x, m);
    DivMod(y, m);
    DivMod(z, m);
    assert x + y + z == m * (x / m + y / m + z / m);
    ModUnique(x + y + z, m, x / m + y / m + z / m, 0);
  }

  /** From a seed in [0, m) nothing overflows: the step is the plain
      a * seed + c reduced modulo m, and the new seed is again in [0, m). */
  lemma StepInRange(seed: i64)
    requires 0 <= seed < M as int
    ensures A as int * seed + C as int < Two63
    ensures Step(seed) == (A as int * seed + C as int) % M as int
    ensures 0 <= Step(seed) < M as int
  {
    var x := A as int * seed + C as int;
    assert A as int * seed <= A as int * (M as int);
    DivMod(x, M as int);
    assert 0 <= Step(seed) by {
      assert Wrap64(A as int * seed) == A as int * seed;
    }
    var r := Step(seed);
    var t := (x - r) / M as int;
    DivMod(x - r, M as int);
    ModUnique(x, M as int, t, r);
  }

  /** The seed after n steps. */
  function Iterate(seed: i64, n: nat): i64
  {
    if n == 0 then seed else Step(Iterate(seed, n - 1))
  }

  /** Once in [0, m), the seed stays there for ever. */
  lemma {:induction false} IterateInRange(seed: i64, n: nat)
    requires 0 <= seed < M as int
    ensures 0 <= Iterate(seed, n) < M as int
  {
    if n > 0 {
      IterateInRange(seed, n - 1);
      StepInRange(Iterate(seed, n - 1));
    }
  }

  /** A seed set outside [0, m) can make the product wrap and the seed turn
      negative: 2^61 steps to -2147471303, and `Random(10)` then returns -3. */
  lemma LargeSeedGoesNegative()
    ensures Step(0x2000_0000_0000_0000) == -2147471303
    ensures TRem(Step(0x2000_0000_0000_0000), 10) == -3
  {
    var product := Wrap64(A as int * 0x2000_0000_0000_0000);
    assert product == -0x6000_0000_0000_0000;
    assert Wrap64(product + C as int) == -0x6000_0000_0000_0000 + 12345;
  }

  /** The generator's state. `a`, `c` and `m` never change after
      `NewLCGState`. */
  class LCGState {
    var a: u32
    var c: u32
    var m: u32
    var seed: i64

    ghost predicate Valid()
      reads this
    {
      a == A && c == C && m == M
    }

    /** NewLCGState */
    constructor (s: i64)
      ensures Valid() && seed == s
    {
      m := M;
      a := A;
      c := C;
      seed := s;
    }

    /** SetSeed: only the seed changes. */
    method SetSeed(s: i64)
      modifies this`seed
      ensures seed == s
    {
      seed := s;
    }

    /** Random: advance the seed, then reduce it modulo max with Go's
        truncated `%` (max == 0 is a division by zero in Go). */
    method Random(max: i64) returns (r: i64)
      requires Valid() && max != 0
      modifies this`seed
      ensures seed == Step(old(seed)) && r == TRem(seed, max)
      ensures 0 <= old(seed) < M as int ==> 0 <= seed < M as int && 0 <= r < Abs(max)
    {
      seed := TRem(Wrap64(Wrap64(a as int * seed) + c as int), m as int);
      r := TRem(seed, max);
      if 0 <= old(seed) < M as int {
        StepInRange(old(seed));
      }
    }

    /** URandom: advance the seed, then reduce uint64(seed) modulo
        uint64(max). */
    method URandom(max: i64) returns (r: u64)
      requires Valid() && max != 0
      modifies this`seed
      ensures seed == Step(old(seed)) && r == ToU64(seed) % ToU64(max)
      ensures r < ToU64(max) && (max > 0 ==> r < max)
      ensures 0 <= old(seed) < M as int && max > 0 ==> 0 <= seed < M as int && r == seed % max
    {
      seed := TRem(Wrap64(Wrap64(a as int * seed) + c as int), m as int);
      var divisor := ToU64(max);
      r := ToU64(seed) % divisor;
      if 0 <= old(seed) < M as int {
        StepInRange(old(seed));
      }
    }
  }
}
