/** Unbounded-integer bit operations, as JavaScript's BigInt performs them on
    non-negative values. A shift `x << k` is `x * 2^k` and `x >> k` is
    `x / 2^k`; `x | y` and `x & y` are defined bit by bit, so that the
    arithmetic forms the codec relies on (OR of disjoint fields is addition,
    AND with a mask of ones is a remainder) are proved rather than assumed. */
module Bits {

  /** 2^k */
  function Pow2(k: nat): (r: nat)
    ensures r >= 1
  {
    if k == 0 then 1 else 2 * Pow2(k - 1)
  }

  /** `(1 << w) - 1`, the mask of the w lowest bits */
  function Ones(w: nat): nat
  {
    Pow2(w) - 1
  }

  /** `x | y`, lowest bit first */
  function Or(x: nat, y: nat): nat
    decreases x + y
  {
    if x == 0 then y
    else if y == 0 then x
    else 2 * Or(x / 2, y / 2) + (if x % 2 == 1 || y % 2 == 1 then 1 else 0)
  }

  /** `x & y`, lowest bit first */
  function And(x: nat, y: nat): nat
    decreases x + y
  {
    if x == 0 || y == 0 then 0
    else 2 * And(x / 2, y / 2) + (if x % 2 == 1 && y % 2 == 1 then 1 else 0)
  }

  lemma {:induction false} Pow2Add(a: nat, b: nat)
    ensures Pow2(a + b) == Pow2(a) * Pow2(b)
  {
    if a > 0 {
      Pow2Add(a - 1, b);
      assert Pow2(a + b) == 2 * Pow2(a - 1 + b);
    }
  }

  /** Euclidean division is unique: a quotient and remainder that rebuild x are x / d and x % d. */
  lemma DivModUnique(x: nat, d: nat, q: nat, r: nat)
    requires 0 <= r < d
    requires x == q * d + r
    ensures x / d == q && x % d == r
  {
    var k := q - x / d;
    assert k * d == x % d - r;
    MulOutsideUnit(k, d);
  }

  /** A non-zero multiple of d is at least d away from zero. */
  lemma MulOutsideUnit(k: int, d: int)
    requires d >= 0
    ensures k >= 1 ==> k * d >= d
    ensures k <= -1 ==> k * d <= -d
  {
  }

  /** Adding a multiple of d moves the quotient and leaves the remainder. */
  lemma DivModMulAdd(a: nat, b: nat, d: nat)
    requires d > 0
    ensures (a * d + b) / d == a + b / d
    ensures (a * d + b) % d == b % d
  {
    assert b == (b / d) * d + b % d;
    assert a * d + b == (a + b / d) * d + b % d;
    DivModUnique(a * d + b, d, a + b / d, b % d);
  }

  /** `x / a < b` when `x < a * b`. */
  lemma DivBound(x: nat, a: nat, b: nat)
    requires a > 0 && x < a * b
    ensures x / a < b
  {
    var q := x / a;
    assert x == q * a + x % a;
    MulOutsideUnit(q - b + 1, a);
    MulDistributes(q - b, b, a);
    MulDistributes(q - b, 1, a);
  }

  /** Dividing by a product is dividing twice. */
  lemma DivDiv(x: nat, a: nat, b: nat)
    requires a > 0 && b > 0
    ensures x / (a * b) == x / a / b
  {
    var q1, r1 := x / a, x % a;
    var q2, r2 := q1 / b, q1 % b;
    DivDivParts(x, q1, r1, q2, r2, a, b);
    DivModUnique(x, a * b, q2, r2 * a + r1);
  }

  lemma DivDivParts(x: int, q1: int, r1: int, q2: int, r2: int, a: int, b: int)
    requires 0 <= r1 < a && 0 <= r2 < b
    requires x == q1 * a + r1 && q1 == q2 * b + r2
    ensures x == q2 * (a * b) + (r2 * a + r1)
    ensures 0 <= r2 * a + r1 < a * b
  {
    MulDistributes(q2 * b, r2, a);
    assert (q2 * b) * a == q2 * (a * b);
    MulDistributes(b - 1, 1, a);
    MulMonotone(r2, b - 1, a);
    MulNonneg(r2, a);
  }

  lemma MulDistributes(u: int, v: int, a: int)
    ensures (u + v) * a == u * a + v * a
  {
  }

  lemma MulNonneg(x: int, y: int)
    requires x >= 0 && y >= 0
    ensures x * y >= 0
  {
  }

  lemma MulMonotone(u: int, v: int, a: int)
    requires u <= v && a >= 0
    ensures u * a <= v * a
  {
    MulDistributes(v - u, u, a);
    assert (v - u) * a >= 0;
  }

  /** Halving x, reducing modulo 2^w and putting the low bit back reduces x modulo 2^(w+1). */
  lemma ModPow2Step(x: nat, w: nat)
    ensures x % Pow2(w + 1) == 2 * ((x / 2) % Pow2(w)) + x % 2
  {
    var p := Pow2(w);
    var q, s := (x / 2) / p, (x / 2) % p;
    assert x / 2 == q * p + s;
    assert x == 2 * (x / 2) + x % 2;
    assert x == q * (2 * p) + (2 * s + x % 2);
    DivModUnique(x, 2 * p, q, 2 * s + x % 2);
  }

  /** OR-ing a value into the zero bits below a shifted word is addition:
      `(hi << k) | lo == hi * 2^k + lo` when `lo < 2^k`. */
  lemma {:induction false} OrShiftedIsAdd(hi: nat, lo: nat, k: nat)
    requires lo < Pow2(k)
    ensures Or(hi * Pow2(k), lo) == hi * Pow2(k) + lo
  {
    var x := hi * Pow2(k);
    if k == 0 {
      assert lo == 0;
    } else if x == 0 || lo == 0 {
    } else {
      var p := Pow2(k - 1);
      assert x == 2 * (hi * p);
      assert x / 2 == hi * p && x % 2 == 0;
      OrShiftedIsAdd(hi, lo / 2, k - 1);
      assert Or(x, lo) == 2 * Or(hi * p, lo / 2) + lo % 2;
    }
  }

  /** AND with the mask of the w lowest bits is the remainder modulo 2^w:
      `x & ((1 << w) - 1) == x % 2^w`. */
  lemma {:induction false} AndOnesIsMod(x: nat, w: nat)
    ensures And(x, Ones(w)) == x % Pow2(w)
  {
    if w == 0 {
    } else if x == 0 {
    } else {
      var m := Ones(w);
      assert m == 2 * Ones(w - 1) + 1;
      assert m / 2 == Ones(w - 1) && m % 2 == 1;
      AndOnesIsMod(x / 2, w - 1);
      assert And(x, m) == 2 * And(x / 2, Ones(w - 1)) + x % 2;
      ModPow2Step(x, w - 1);
    }
  }

  /** `x & y` keeps only bits of y, so it is at most y. */
  lemma {:induction false} AndAtMost(x: nat, y: nat)
    ensures And(x, y) <= y
    decreases x + y
  {
    if x != 0 && y != 0 {
      AndAtMost(x / 2, y / 2);
    }
  }
}
