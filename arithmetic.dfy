/**
 * Natural-number arithmetic the primality code relies on: exponentiation by
 * repeated multiplication, and the facts about Euclidean division and
 * remainder that modular multiplication needs.
 */
module Arithmetic {

  /** b raised to the power e, by repeated multiplication. */
  function Pow(b: nat, e: nat): nat
    decreases e
  {
    if e == 0 then 1 else b * Pow(b, e - 1)
  }

  lemma {:induction false} PowAdd(b: nat, e1: nat, e2: nat)
    ensures Pow(b, e1 + e2) == Pow(b, e1) * Pow(b, e2)
    decreases e1
  {
    if e1 > 0 {
      PowAdd(b, e1 - 1, e2);
      MulAssociates(b, Pow(b, e1 - 1), Pow(b, e2));
    }
  }

  lemma MulAssociates(a: int, b: int, c: int)
    ensures a * (b * c) == (a * b) * c
  {
  }

  /** One more factor 2: 2^(k+1) * q == 2 * (2^k * q). */
  lemma PowTwoSucc(k: nat, q: int)
    ensures Pow(2, k + 1) * q == 2 * (Pow(2, k) * q)
  {
    MulAssociates(2, Pow(2, k), q);
  }

  /** Powers of two are positive and a power of two above 1 is even. */
  lemma {:induction false} PowTwo(k: nat)
    ensures Pow(2, k) >= 1
    ensures k > 0 ==> Pow(2, k) % 2 == 0
    decreases k
  {
    if k > 0 {
      PowTwo(k - 1);
      var p := Pow(2, k - 1);
      assert Pow(2, k) == 2 * p;
      DivModUnique(2 * p, 2, p, 0);
    }
  }

  /** A positive multiple of a positive m is at least m. */
  lemma MulAtLeast(m: int, d: int)
    requires m > 0 && d >= 1
    ensures m * d >= m
  {
    assert m * d == m * (d - 1) + m;
  }

  /** A multiple of m that lies strictly between -m and m is zero. */
  lemma SmallMultipleIsZero(m: int, d: int)
    requires m > 0 && -m < m * d < m
    ensures d == 0
  {
    if d > 0 {
      MulAtLeast(m, d);
    } else if d < 0 {
      MulAtLeast(m, -d);
    }
  }

  /** Euclidean division is unique: q and r are the quotient and remainder of a by m. */
  lemma DivModUnique(a: int, m: int, q: int, r: int)
    requires m > 0 && 0 <= r < m && a == m * q + r
    ensures a / m == q && a % m == r
  {
    var q0, r0 := a / m, a % m;
    assert m * (q - q0) == r0 - r by {
      assert m * q0 + r0 == m * q + r;
      assert m * (q - q0) == m * q - m * q0;
    }
    SmallMultipleIsZero(m, q - q0);
  }

  /** Adding a multiple of m does not change the remainder modulo m. */
  lemma ModAddMultiple(k: int, c: int, m: int)
    requires m > 0
    ensures (m * k + c) % m == c % m
  {
    var q, r := c / m, c % m;
    assert m * k + c == m * (k + q) + r;
    DivModUnique(m * k + c, m, k + q, r);
  }

  /** Reducing the left factor first does not change a product modulo m. */
  lemma MulModLeft(a: int, b: int, m: int)
    requires m > 0
    ensures ((a % m) * b) % m == (a * b) % m
  {
    var q := a / m;
    assert a * b == m * (q * b) + (a % m) * b by {
      assert a == m * q + a % m;
    }
    ModAddMultiple(q * b, (a % m) * b, m);
  }

  /** Reducing the right factor first does not change a product modulo m. */
  lemma MulModRight(a: int, b: int, m: int)
    requires m > 0
    ensures (a * (b % m)) % m == (a * b) % m
  {
    MulModLeft(b, a, m);
    assert a * (b % m) == (b % m) * a;
    assert a * b == b * a;
  }

  /** (n - 1)^2 leaves remainder 1 modulo n, for n > 1. */
  lemma MinusOneSquared(n: int)
    requires n > 1
    ensures ((n - 1) * (n - 1)) % n == 1
  {
    assert (n - 1) * (n - 1) == n * (n - 2) + 1;
    DivModUnique((n - 1) * (n - 1), n, n - 2, 1);
  }

  /** A quotient is at least 1 when the dividend is at least the divisor. */
  lemma DivAtLeastOne(a: int, d: int)
    requires d > 0 && a >= d
    ensures a / d >= 1
  {
    var q, r := a / d, a % d;
    assert a - d == d * (q - 1) + r by {
      assert d * (q - 1) == d * q - d;
    }
    DivModUnique(a - d, d, q - 1, r);
  }
}
