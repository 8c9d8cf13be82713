/** The probe sequence shared by `_put`, `Get` and `Delete` in hash.go:
    start at `hash & (capacity - 1)`, then add 1, 2, 3, ... (masking each
    time), so that after i steps the offset from the start is the i-th
    triangular number. For a power-of-two capacity the first `capacity`
    probes visit every slot exactly once. */
module Probing {
  import opened Bits

  /** 0, 1, 3, 6, 10, ... */
  function Tri(i: nat): nat
  {
    if i == 0 then 0 else Tri(i - 1) + i
  }

  /** The slot visited after i steps, computed the way the probe loops do:
      the step added on the way from probe i - 1 to probe i is i. */
  function Probe(h: nat, capacity: nat, i: nat): (p: nat)
    requires capacity >= 1
    ensures p < capacity
  {
    if i == 0 then Mask(h, capacity) else Mask(Probe(h, capacity, i - 1) + i, capacity)
  }

  /** The probe loops' update `probe = (probe + step) & (capacity - 1)`,
      with step = i + 1, moves from probe i to probe i + 1. */
  lemma ProbeNext(h: nat, capacity: nat, i: nat, probe: nat, step: nat)
    requires capacity >= 1 && probe == Probe(h, capacity, i) && step == i + 1
    ensures Mask(probe + step, capacity) == Probe(h, capacity, i + 1)
  {
  }

  lemma ModShift(c: int, t: int, y: int)
    requires c > 0
    ensures (c * t + y) % c == y % c
  {
    assert c * t + y == c * (t + y / c) + y % c by {
      assert c * t + c * (y / c) == c * (t + y / c);
    }
    ModUnique(c * t + y, c, t + y / c, y % c);
  }

  /** Reducing the left summand first does not change a remainder. */
  lemma ModAddLeft(a: int, b: int, c: int)
    requires c > 0
    ensures (a % c + b) % c == (a + b) % c
  {
    ModShift(c, a / c, a % c + b);
    assert a + b == c * (a / c) + (a % c + b);
  }

  /** One step of the probe loop, for a power-of-two capacity. */
  lemma ProbeStep(h: nat, capacity: nat, i: nat)
    requires IsPow2(capacity) && i > 0
    ensures Probe(h, capacity, i) == (Probe(h, capacity, i - 1) + i) % capacity
  {
    BitAndMask(Probe(h, capacity, i - 1) + i, capacity);
  }

  /** Advancing by i takes the triangular offset from Tri(i - 1) to Tri(i). */
  lemma TriangularStep(h: nat, capacity: nat, i: nat)
    requires IsPow2(capacity) && i > 0
    requires Probe(h, capacity, i - 1) == (h + Tri(i - 1)) % capacity
    ensures Probe(h, capacity, i) == (h + Tri(i)) % capacity
  {
    var a := h + Tri(i - 1);
    ProbeStep(h, capacity, i);
    ModAddLeft(a, i, capacity);
    assert a + i == h + Tri(i);
  }

  /** Probe i is the start hash shifted by the i-th triangular number. */
  lemma {:induction false} ProbeTriangular(h: nat, capacity: nat, i: nat)
    requires IsPow2(capacity)
    ensures Probe(h, capacity, i) == (h + Tri(i)) % capacity
  {
    if i == 0 {
      BitAndMask(h, capacity);
    } else {
      ProbeTriangular(h, capacity, i - 1);
      TriangularStep(h, capacity, i);
    }
  }

  lemma {:induction false} TriDouble(i: nat)
    ensures 2 * Tri(i) == i * (i + 1)
  {
    if i > 0 {
      TriDouble(i - 1);
      assert (i - 1) * i + 2 * i == i * (i + 1);
    }
  }

  lemma Pow2Double(p: nat)
    requires IsPow2(p)
    ensures IsPow2(2 * p)
  {
    assert (2 * p) / 2 == p;
  }

  lemma OddProduct(a: int, b: int)
    ensures (2 * a + 1) * (2 * b + 1) == 2 * (2 * a * b + a + b) + 1
  {
  }

  /** An even product with an odd factor has an even other factor. */
  lemma EvenFactor(e: int, o: int, m: int)
    requires o % 2 == 1 && e * o == 2 * m
    ensures e % 2 == 0
  {
    if e % 2 == 1 {
      OddProduct(e / 2, o / 2);
      assert false;
    }
  }

  lemma HalveProduct(a: int, o: int, m: int)
    requires (2 * a) * o == 2 * m
    ensures a * o == m
  {
    assert (2 * a) * o == 2 * (a * o);
  }

  /** A power of two that divides e * o with o odd divides e. */
  lemma {:induction false} OddFactor(p: nat, e: int, o: int, t: int)
    requires IsPow2(p) && o % 2 == 1 && e * o == p * t
    ensures e % p == 0
    decreases p
  {
    if p > 1 {
      var q := p / 2;
      assert p * t == 2 * (q * t) by {
        assert p == 2 * q;
      }
      EvenFactor(e, o, q * t);
      var a := e / 2;
      HalveProduct(a, o, q * t);
      OddFactor(q, a, o, t);
      var w := a / q;
      assert e == p * w by {
        assert a == q * w;
        assert p == 2 * q;
      }
      ModUnique(e, p, w, 0);
    }
  }

  /** Equal remainders differ by a multiple of the modulus. */
  lemma SameRemainder(a: int, b: int, c: int) returns (t: int)
    requires c > 0 && a % c == b % c
    ensures b - a == c * t
  {
    t := b / c - a / c;
    assert b - a == c * (b / c) - c * (a / c);
  }

  lemma TriGap(i: nat, j: nat)
    requires i < j
    ensures (j - i) * (j + i + 1) == 2 * (Tri(j) - Tri(i))
  {
    TriDouble(i);
    TriDouble(j);
    assert (j - i) * (j + i + 1) == j * (j + 1) - i * (i + 1);
  }

  /** Twice the gap between two of the first `capacity` triangular numbers
      is never a multiple of 2 * capacity. */
  lemma GapNotMultiple(capacity: nat, i: nat, j: nat, t: int)
    requires IsPow2(capacity) && i < j < capacity
    ensures (j - i) * (j + i + 1) != (2 * capacity) * t
  {
    if (j - i) * (j + i + 1) == (2 * capacity) * t {
      Pow2Double(capacity);
      if (j - i) % 2 == 1 {
        assert (j + i + 1) * (j - i) == (2 * capacity) * t;
        OddFactor(2 * capacity, j + i + 1, j - i, t);
        ModUnique(j + i + 1, 2 * capacity, 0, j + i + 1);
      } else {
        assert (j + i + 1) % 2 == 1;
        OddFactor(2 * capacity, j - i, j + i + 1, t);
        ModUnique(j - i, 2 * capacity, 0, j - i);
      }
    }
  }

  lemma DoubleMultiple(d: int, c: int, t: int)
    requires d == c * t
    ensures 2 * d == (2 * c) * t
  {
  }

  /** The first `capacity` triangular numbers are distinct modulo a
      power-of-two capacity. */
  lemma TriDistinct(h: nat, capacity: nat, i: nat, j: nat)
    requires IsPow2(capacity) && i < j < capacity
    ensures (h + Tri(i)) % capacity != (h + Tri(j)) % capacity
  {
    if (h + Tri(i)) % capacity == (h + Tri(j)) % capacity {
      var t := SameRemainder(h + Tri(i), h + Tri(j), capacity);
      var d := Tri(j) - Tri(i);
      assert d == capacity * t;
      TriGap(i, j);
      DoubleMultiple(d, capacity, t);
      GapNotMultiple(capacity, i, j, t);
    }
  }

  /** No slot is visited twice during the first `capacity` probes. */
  lemma ProbeDistinct(h: nat, capacity: nat, i: nat, j: nat)
    requires IsPow2(capacity) && i < j < capacity
    ensures Probe(h, capacity, i) != Probe(h, capacity, j)
  {
    ProbeTriangular(h, capacity, i);
    ProbeTriangular(h, capacity, j);
    TriDistinct(h, capacity, i, j);
  }

  /** {0, 1, ..., n - 1} */
  function Below(n: nat): set<nat>
  {
    if n == 0 then {} else Below(n - 1) + {n - 1}
  }

  /** Below(n) holds exactly the numbers under n, so it has n of them. */
  lemma {:induction false} BelowSize(n: nat)
    ensures forall x: nat :: x in Below(n) <==> x < n
    ensures |Below(n)| == n
  {
    if n > 0 {
      BelowSize(n - 1);
      assert n - 1 !in Below(n - 1);
    }
  }

  /** A repetition-free sequence drawn from r is no longer than r is large. */
  lemma {:induction false} DistinctFits(s: seq<nat>, r: set<nat>)
    requires forall i, j :: 0 <= i < j < |s| ==> s[i] != s[j]
    requires forall i :: 0 <= i < |s| ==> s[i] in r
    ensures |s| <= |r|
  {
    if |s| > 0 {
      var rest := r - {s[0]};
      forall i | 0 <= i < |s[1..]|
        ensures s[1..][i] in rest
      {
        assert s[1..][i] == s[i + 1];
      }
      DistinctFits(s[1..], rest);
    }
  }

  /** Distinct numbers below n that all avoid one of them number fewer
      than n. */
  lemma Pigeonhole(ps: seq<nat>, n: nat, slot: nat)
    requires slot < n
    requires forall i, j :: 0 <= i < j < |ps| ==> ps[i] != ps[j]
    requires forall i :: 0 <= i < |ps| ==> ps[i] < n && ps[i] != slot
    ensures |ps| < n
  {
    BelowSize(n);
    var others := Below(n) - {slot};
    assert |others| == n - 1;
    DistinctFits(ps, others);
  }

  /** Every slot is reached within the first `capacity` probes. */
  lemma ProbeCovers(h: nat, capacity: nat, slot: nat)
    requires IsPow2(capacity) && slot < capacity
    ensures exists i :: 0 <= i < capacity && Probe(h, capacity, i) == slot
  {
    if forall i :: 0 <= i < capacity ==> Probe(h, capacity, i) != slot {
      var ps: seq<nat> := seq(capacity, i requires 0 <= i < capacity => Probe(h, capacity, i));
      forall i, j | 0 <= i < j < |ps|
        ensures ps[i] != ps[j]
      {
        ProbeDistinct(h, capacity, i, j);
      }
      Pigeonhole(ps, capacity, slot);
    }
  }
}
