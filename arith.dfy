/** Powers of two and the facts about Euclidean division the codecs rely on. */
module Arith {

  /** 2^n */
  function Pow2(n: nat): (r: nat)
    ensures r >= 1
  {
    if n == 0 then 1 else 2 * Pow2(n - 1)
  }

  lemma {:induction false} Pow2Add(a: nat, b: nat)
    ensures Pow2(a + b) == Pow2(a) * Pow2(b)
  {
    if a > 0 {
      Pow2Add(a - 1, b);
      assert Pow2(a + b) == 2 * Pow2(a - 1 + b);
    }
  }

  lemma {:induction false} Pow2Mono(a: nat, b: nat)
    requires a <= b
    ensures Pow2(a) <= Pow2(b)
  {
    if a < b {
      Pow2Mono(a, b - 1);
    }
  }

  /** Euclidean division is determined by quotient and remainder. */
  lemma DivModUnique(x: int, m: int, q: int, r: int)
    requires m > 0 && 0 <= r < m && x == q * m + r
    ensures x / m == q && x % m == r
  {
    var q0, r0 := x / m, x % m;
    assert x == q0 * m + r0;
    assert (q - q0) * m == r0 - r;
    MulAtLeast(q - q0, m);
    MulAtLeast(q0 - q, m);
  }

  lemma MulAtLeast(d: int, m: int)
    requires m > 0
    ensures d >= 1 ==> d * m >= m
  {
    if d >= 1 {
      assert d * m == (d - 1) * m + m;
    }
  }

  lemma DivAddMultiple(a: int, b: int, m: int)
    requires m > 0
    ensures (a + b * m) / m == a / m + b
    ensures (a + b * m) % m == a % m
  {
    DivModUnique(a + b * m, m, a / m + b, a % m);
  }

  lemma DivBelow(x: int, a: int, b: int)
    requires 0 <= x < a * b && a > 0
    ensures 0 <= x / a < b
  {
    assert x == (x / a) * a + x % a;
  }

  /** Splitting x at a power of two: x = low + high * 2^k. */
  lemma ModPow2Split(x: int, k: nat)
    requires x >= 0
    ensures x == x % Pow2(k) + (x / Pow2(k)) * Pow2(k)
  {
  }

  /** (x / a) / b == x / (a * b) for non-negative x and positive a, b. */
  lemma DivDiv(x: int, a: int, b: int)
    requires x >= 0 && a > 0 && b > 0
    ensures (x / a) / b == x / (a * b)
  {
    var q, r := x / (a * b), x % (a * b);
    assert x == q * (a * b) + r;
    DivBelow(r, a, b);
    assert r == (r / a) * a + r % a;
    assert x == (q * b + r / a) * a + r % a;
    DivModUnique(x, a, q * b + r / a, r % a);
    DivModUnique(x / a, b, q, r / a);
  }

  /** Bitwise OR of two non-negative integers (C `|` on unsigned values). */
  function BitOr(a: nat, b: nat): nat
    decreases a + b
  {
    if a == 0 || b == 0 then a + b
    else (if a % 2 == 1 || b % 2 == 1 then 1 else 0) + 2 * BitOr(a / 2, b / 2)
  }

  /** OR of values occupying disjoint bit ranges is their sum. */
  lemma {:induction false} BitOrDisjoint(a: nat, b: nat, k: nat)
    requires a < Pow2(k)
    ensures BitOr(a, b * Pow2(k)) == a + b * Pow2(k)
  {
    if a != 0 && b != 0 {
      assert k > 0;
      var hi := b * Pow2(k - 1);
      assert b * Pow2(k) == 2 * hi;
      DivAddMultiple(0, hi, 2);
      assert (2 * hi) / 2 == hi && (2 * hi) % 2 == 0;
      DivBelow(a, 2, Pow2(k - 1));
      BitOrDisjoint(a / 2, b, k - 1);
      assert a == 2 * (a / 2) + a % 2;
    }
  }

  /** OR never sets a bit above the width both operands fit in. */
  lemma {:induction false} BitOrBound(a: nat, b: nat, k: nat)
    requires a < Pow2(k) && b < Pow2(k)
    ensures BitOr(a, b) < Pow2(k)
  {
    if a != 0 && b != 0 {
      assert k > 0;
      DivBelow(a, 2, Pow2(k - 1));
      DivBelow(b, 2, Pow2(k - 1));
      BitOrBound(a / 2, b / 2, k - 1);
    }
  }

  lemma MulAssoc(x: int, y: int, z: int)
    ensures x * (y * z) == (x * y) * z
  {
  }

  lemma MulDistrib(x: int, y: int, z: int)
    ensures (x + y) * z == x * z + y * z
  {
  }

  lemma MulMono(x: int, y: int, z: int)
    requires x <= y && z >= 0
    ensures x * z <= y * z
  {
    if z > 0 {
      MulAtLeast(y - x, z);
      assert y * z - x * z == (y - x) * z;
    }
  }

  /** Regrouping a product of three factors, one of them given as a product. */
  lemma MulRegroup(d: int, p: int, a: int, b: int)
    requires p == a * b
    ensures d * p == (d * b) * a
  {
    MulAssoc(d, b, a);
  }

  /** C's `x << k` on a value wide enough to hold the result. */
  function Shl(x: nat, k: nat): nat
  {
    x * Pow2(k)
  }

  lemma Pow2Split(n: nat, a: nat, b: nat)
    requires n == a + b
    ensures Pow2(n) == Pow2(a) * Pow2(b)
  {
    Pow2Add(a, b);
  }

  /** Appending a digit d < base below a number rest < p gives a number below base * p. */
  lemma DigitStep(d: int, rest: int, p: int, base: int)
    requires 0 <= d < base && 0 <= rest < p
    ensures d + base * rest < base * p
  {
    MulMono(rest, p - 1, base);
    assert base * rest <= base * (p - 1);
    MulDistrib(p, -1, base);
  }

  /** Adding d * (a * b) to x + s * a puts d * b on top of s, in units of a. */
  lemma AddScaled(x: int, s: int, d: int, a: int, b: int, p: int)
    requires p == a * b
    ensures x + s * a + d * p == x + (s + d * b) * a
  {
    MulRegroup(d, p, a, b);
    MulDistrib(s, d * b, a);
  }

  /** Dividing by a positive d never increases a non-negative value. */
  lemma DivAtMost(x: int, d: int)
    requires x >= 0 && d > 0
    ensures 0 <= x / d <= x
  {
    MulMono(1, d, x);
    DivBetween(x, d, 0, x);
  }

  /** A quotient by d of a value between d * lo and d * hi lies between lo and hi. */
  lemma DivBetween(t: int, d: int, lo: int, hi: int)
    requires d > 0 && d * lo <= t <= d * hi
    ensures lo <= t / d <= hi
  {
    var q := t / d;
    assert t == q * d + t % d;
    if q < lo {
      MulMono(q + 1, lo, d);
    }
    if q > hi {
      MulMono(hi + 1, q, d);
    }
  }
}
