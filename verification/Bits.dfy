/** Mask arithmetic on 64-bit words: `x & ~(a - 1)` for a power of two a. */
module Bits {
  import opened Bytes

  ghost function Pow2(k: nat): (p: nat)
    ensures p >= 1
  {
    if k == 0 then 1 else 2 * Pow2(k - 1)
  }

  ghost predicate IsPow2(a: nat) {
    exists k: nat :: a == Pow2(k)
  }

  lemma Pow2Positive(a: nat)
    requires IsPow2(a)
    ensures a >= 1
  {
  }

  /** Bitwise conjunction of two words. */
  function And(x: nat, y: nat): nat
    decreases x
  {
    if x == 0 then 0 else (if x % 2 == 1 && y % 2 == 1 then 1 else 0) + 2 * And(x / 2, y / 2)
  }

  /** Bitwise complement of a 64-bit word. */
  function Not64(x: nat): nat
    requires x < U64
  {
    U64 - 1 - x
  }

  lemma OnesHalve(w: nat)
    ensures w == 0 ==> Pow2(w) == 1
    ensures w > 0 ==> (Pow2(w) - 1) / 2 == Pow2(w - 1) - 1 && (Pow2(w) - 1) % 2 == 1 && Pow2(w) == 2 * Pow2(w - 1)
  {
    if w > 0 {
      var p := Pow2(w - 1);
      assert Pow2(w) - 1 == 2 * (p - 1) + 1;
    }
  }

  /** The lowest bit of a conjunction, and the rest. */
  lemma AndStep(x: nat, y: nat)
    ensures And(x, y) == (if x % 2 == 1 && y % 2 == 1 then 1 else 0) + 2 * And(x / 2, y / 2)
  {
    if x == 0 {
      assert And(x / 2, y / 2) == 0;
    }
  }

  lemma {:induction false} AllOnes(x: nat, w: nat)
    requires x < Pow2(w)
    ensures And(x, Pow2(w) - 1) == x
  {
    hide Pow2, And;
    OnesHalve(w);
    AndStep(x, Pow2(w) - 1);
    if w > 0 {
      AllOnes(x / 2, w - 1);
    }
  }

  /** Masking with w - k high ones and k low zeroes rounds down to a multiple of 2^k. */
  lemma {:induction false} MaskRoundsDown(x: nat, k: nat, w: nat)
    requires k <= w && x < Pow2(w)
    ensures Pow2(k) <= Pow2(w)
    ensures And(x, Pow2(w) - Pow2(k)) == x - x % Pow2(k)
  {
    if k == 0 {
      AllOnes(x, w);
    } else {
      var p := Pow2(k - 1);
      MaskRoundsDown(x / 2, k - 1, w - 1);
      HalvedRemainder(x, p);
      if x > 0 {
        assert (Pow2(w) - Pow2(k)) / 2 == Pow2(w - 1) - p;
        assert And(x, Pow2(w) - Pow2(k)) == 2 * And(x / 2, Pow2(w - 1) - p);
      }
    }
  }

  lemma HalvedRemainder(x: nat, p: nat)
    requires p >= 1
    ensures x % (2 * p) == x % 2 + 2 * ((x / 2) % p)
  {
    var q, r := (x / 2) / p, (x / 2) % p;
    assert x / 2 == q * p + r;
    assert x == q * (2 * p) + (x % 2 + 2 * r);
    UniqueRemainder(x, 2 * p, q, x % 2 + 2 * r);
  }

  lemma MulStep(p: nat, q: nat, d: nat)
    ensures p < q ==> p * d + d <= q * d
  {
    if p < q {
      var k := q - p - 1;
      assert k * d >= 0;
      assert q * d == (p + 1 + k) * d == p * d + d + k * d;
    }
  }

  lemma UniqueRemainder(x: nat, d: nat, q: nat, r: nat)
    requires x == q * d + r && r < d
    ensures x % d == r && x / d == q
  {
    MulStep(q, x / d, d);
    MulStep(x / d, q, d);
  }

  lemma {:induction false} Pow2Monotone(j: nat, k: nat)
    requires j <= k
    ensures Pow2(j) <= Pow2(k)
  {
    if j < k {
      Pow2Monotone(j, k - 1);
    }
  }

  lemma Pow2Of64()
    ensures Pow2(64) == U64
  {
    assert Pow2(8) == 256;
    assert Pow2(16) == 0x1_0000;
    assert Pow2(24) == 0x100_0000;
    assert Pow2(32) == U32;
    assert Pow2(40) == 256 * U32;
    assert Pow2(48) == 0x1_0000 * U32;
    assert Pow2(56) == 0x100_0000 * U32;
  }

  /** memory.c's rounding idiom, in wrapping 64-bit arithmetic. */
  function RoundUp(x: nat, a: nat): nat
    requires 1 <= a <= U64
  {
    And((x + a - 1) % U64, Not64(a - 1))
  }

  lemma MaskIsRemainder(y: nat, a: nat)
    requires IsPow2(a) && y < U64 && a <= U64
    ensures And(y, Not64(a - 1)) == y - y % a
  {
    var k: nat :| a == Pow2(k);
    Pow2Of64();
    if k > 64 {
      Pow2Monotone(65, k);
      assert false;
    }
    MaskRoundsDown(y, k, 64);
  }

  lemma RoundDown(y: nat, a: nat)
    requires a >= 1
    ensures y % a <= y && y % a < a && (y - y % a) % a == 0
  {
    var q, r := y / a, y % a;
    assert y == q * a + r;
    assert q * a >= 0;
    UniqueRemainder(q * a, a, q, 0);
  }

  /** The least multiple of a that is at least x. */
  function Ceil(x: nat, a: nat): (r: nat)
    requires a >= 1
    ensures x <= r < x + a && r % a == 0
  {
    RoundDown(x + a - 1, a);
    x + a - 1 - (x + a - 1) % a
  }

  /** For a power of two, the mask idiom is arithmetic round-up; on a sum that wraps it gives 0. */
  lemma RoundUpIsCeil(x: nat, a: nat)
    requires IsPow2(a) && x < U64 && a <= U64
    ensures 1 <= a
    ensures RoundUp(x, a) == if x + a - 1 < U64 then Ceil(x, a) else 0
  {
    hide And, Not64, Ceil;
    Pow2Positive(a);
    var y := (x + a - 1) % U64;
    MaskIsRemainder(y, a);
    WrappedSum(x, a);
    CeilIs(x, a);
    if x + a - 1 >= U64 {
      UniqueRemainder(y, a, 0, y);
    }
  }

  lemma WrappedSum(x: nat, a: nat)
    requires x < U64 && 1 <= a <= U64
    ensures (x + a - 1) % U64 == if x + a - 1 < U64 then x + a - 1 else x + a - 1 - U64
  {
  }

  lemma CeilIs(x: nat, a: nat)
    requires a >= 1
    ensures Ceil(x, a) == x + a - 1 - (x + a - 1) % a
  {
  }

  /** A multiple of 2^j is a multiple of every smaller power of two. */
  lemma {:induction false} SmallerPow2Divides(x: nat, i: nat, j: nat)
    requires i <= j && x % Pow2(j) == 0
    ensures x % Pow2(i) == 0
    decreases j
  {
    if i < j {
      var q, p := x / Pow2(j), Pow2(j - 1);
      assert x == (2 * q) * p + 0 by { assert x == q * (2 * p); }
      UniqueRemainder(x, p, 2 * q, 0);
      SmallerPow2Divides(x, i, j - 1);
    }
  }
}
