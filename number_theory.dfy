/**
 * Integer facts the RSA arithmetic relies on: the greatest common divisor
 * computed by Euclid's recurrence, exponentiation, and exponentiation modulo
 * n computed by squaring (the algorithm behind `BigUint::modpow`).
 */
module NumberTheory {

  /** Greatest common divisor by Euclid's recurrence; Gcd(a, 0) == a. */
  function Gcd(a: nat, b: nat): nat
    decreases b
  {
    if b == 0 then a else Gcd(b, a % b)
  }

  /** b raised to the power e, the reference definition. */
  function Pow(b: int, e: nat): int
  {
    if e == 0 then 1 else b * Pow(b, e - 1)
  }

  /**
   * Exponentiation modulo n by repeated squaring: b^e is the square of
   * b^(e/2), times b when e is odd, every product reduced modulo n.
   */
  function ModPow(b: nat, e: nat, n: nat): (r: nat)
    requires n > 0
    ensures r < n
    decreases e
  {
    if e == 0 then 1 % n
    else
      var half := ModPow(b, e / 2, n);
      var square := (half * half) % n;
      if e % 2 == 0 then square else (square * b) % n
  }

  lemma {:induction false} PowAdd(b: int, e1: nat, e2: nat)
    ensures Pow(b, e1 + e2) == Pow(b, e1) * Pow(b, e2)
  {
    if e1 > 0 {
      PowAdd(b, e1 - 1, e2);
      assert Pow(b, e1 + e2) == b * Pow(b, e1 - 1 + e2);
    }
  }

  /** Multiplication respects congruence modulo n. */
  lemma MulMod(x: int, y: int, x': int, y': int, n: nat)
    requires n > 0 && x % n == x' % n && y % n == y' % n
    ensures (x * y) % n == (x' * y') % n
  {
    var qx, qy := x / n - x' / n, y / n - y' / n;
    assert x == x' + qx * n;
    assert y == y' + qy * n;
    calc {
      x * y;
      (x' + qx * n) * (y' + qy * n);
      x' * y' + (x' * qy + qx * y' + qx * qy * n) * n;
    }
    ModMultiple(x' * y', x' * qy + qx * y' + qx * qy * n, n);
  }

  /** Adding a multiple of n does not change the remainder. */
  lemma ModMultiple(x: int, k: int, n: nat)
    requires n > 0
    ensures (x + k * n) % n == x % n
  {
    var q := x / n;
    assert x == q * n + x % n;
    assert x + k * n == (q + k) * n + x % n;
    ModUnique(x + k * n, q + k, x % n, n);
  }

  /** The Euclidean quotient and remainder are the only such pair. */
  lemma ModUnique(x: int, q: int, r: int, n: nat)
    requires n > 0 && 0 <= r < n && x == q * n + r
    ensures x % n == r && x / n == q
  {
    var q', r' := x / n, x % n;
    assert q' * n + r' == q * n + r;
    if q' > q {
      MulDistrib(q', q, n);
      AtLeastOnce(q' - q, n);
    } else if q' < q {
      MulDistrib(q, q', n);
      AtLeastOnce(q - q', n);
    }
  }

  lemma MulDistrib(a: int, b: int, n: int)
    ensures (a - b) * n == a * n - b * n
  {
  }

  lemma AtLeastOnce(d: int, n: nat)
    requires d >= 1
    ensures d * n >= n
  {
  }

  /** ModPow computes b^e modulo n. */
  lemma {:induction false} ModPowIsPow(b: nat, e: nat, n: nat)
    requires n > 0
    ensures ModPow(b, e, n) == Pow(b, e) % n
    decreases e
  {
    if e > 0 {
      var h := e / 2;
      var p := Pow(b, h);
      var half := ModPow(b, h, n);
      ModPowIsPow(b, h, n);
      ModOfMod(p, n);
      MulMod(half, half, p, p, n);
      PowAdd(b, h, h);
      var square := (half * half) % n;
      assert square == Pow(b, h + h) % n;
      if e % 2 == 1 {
        ModOfMod(b, n);
        ModOfMod(Pow(b, h + h), n);
        MulMod(square, b, Pow(b, h + h), b, n);
        PowAdd(b, h + h, 1);
        assert Pow(b, 1) == b;
        assert h + h + 1 == e;
      } else {
        assert h + h == e;
      }
    }
  }

  lemma ModOfMod(x: int, n: nat)
    requires n > 0
    ensures (x % n) % n == x % n
  {
    ModUnique(x % n, 0, x % n, n);
  }
}
