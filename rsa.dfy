/**
 * Textbook RSA from src/subcommands/rsa.rs: the modular inverse by the
 * extended Euclidean algorithm, key generation from two primes and a public
 * exponent, and encryption and decryption as modular exponentiation.
 *
 * The Rust code works on arbitrary-precision `BigUint`/`BigInt`, so `nat`
 * and `int` model it without wrap-around. A panic of the Rust code (a division by
 * zero in the Euclidean loop, a `BigUint` subtraction below zero) is the
 * `None` outcome.
 */
module Rsa {
  import opened Wrappers
  import opened NumberTheory

  /** A key as `generate_key_pair` returns it: (exponent, modulus). */
  datatype Key = Key(exponent: nat, modulus: nat)

  function Abs(x: int): nat { if x < 0 then -x else x }

  /**
   * mod_inverse: the x with a * x == 1 (mod n). None is the division by
   * zero the loop runs into exactly when a and n share a factor (and a is
   * not 0 and n is not 1, which return 1 before dividing).
   */
  method ModInverse(a: nat, n: nat) returns (r: Option<nat>)
    ensures r.None? <==> n != 1 && a != 0 && Gcd(a, n) != 1
    ensures n == 1 ==> r == Some(1)
    ensures a == 0 && n != 1 ==> r == Some(1)
    ensures n == 0 && r.Some? ==> r.value == 1
    ensures n > 1 && Gcd(a, n) == 1 ==> r.Some? && r.value < n && (a * r.value) % n == 1
  {
    if n == 1 {
      return Some(1);
    }
    var b: int, m: int, x: int, inv: int := a, n, 0, 1;
    // b == inv * a + k * n and m == x * a + l * n: both stay congruent to
    // their coefficient times a, modulo n
    ghost var k: int, l: int := 0, 1;
    while b > 1
      invariant b >= 0 && m >= 0
      invariant Gcd(b, m) == Gcd(a, n)
      invariant b == inv * a + k * n && m == x * a + l * n
      invariant inv * x <= 0
      invariant Abs(inv) * m + Abs(x) * b == n
      invariant inv == 1 || 2 * Abs(inv) <= n
      invariant a == 0 ==> b == 0 && inv == 1
      invariant a != 0 ==> b >= 1
      invariant n == 0 ==> m == 0 && inv == 1
      decreases m
    {
      if m == 0 {
        // `&a / &m` with m == 0: `mod_inverse` panics here
        GcdZero(b);
        return None;
      }
      var quotient := b / m;
      var rem := b % m;
      DivisionFacts(b, m);
      EuclidStep(a, n, b, m, x, inv, k, l, quotient, rem);
      var temp := inv - quotient * x;
      inv := x;
      x := temp;
      b := m;
      m := rem;
      k, l := l, k - quotient * l;
    }
    if b == 1 {
      GcdOne(m);
    }
    ghost var inv0 := inv;
    if inv < 0 {
      inv := inv + n;
    }
    if n > 1 && Gcd(a, n) == 1 {
      GcdZeroLeft(n);
      InverseMod(a, n, inv0, k, inv);
    }
    return Some(inv);
  }

  lemma DivisionFacts(b: int, m: int)
    requires b >= 0 && m > 0
    ensures b / m >= 0 && 0 <= b % m < m && b == (b / m) * m + b % m
  {
  }

  lemma GcdZero(b: nat)
    ensures Gcd(b, 0) == b
  {
  }

  lemma GcdZeroLeft(n: nat)
    requires n > 1
    ensures Gcd(0, n) == n
  {
    assert Gcd(0, n) == Gcd(n, 0);
  }

  lemma GcdOne(m: nat)
    ensures Gcd(1, m) == 1
  {
    if m > 1 {
      ModUnique(1, 0, 1, m);
      ModUnique(m, m, 0, 1);
      assert Gcd(1, m) == Gcd(m, 1);
      assert Gcd(m, 1) == Gcd(1, 0);
    }
  }

  /** One round of the extended Euclidean loop keeps every invariant. */
  lemma EuclidStep(a: nat, n: nat, b: int, m: int, x: int, inv: int, k: int, l: int,
                   quotient: int, rem: int)
    requires b > 1 && m > 0 && quotient >= 0 && b == quotient * m + rem
    requires b == inv * a + k * n && m == x * a + l * n
    requires inv * x <= 0
    requires Abs(inv) * m + Abs(x) * b == n
    ensures rem == (inv - quotient * x) * a + (k - quotient * l) * n
    ensures x * (inv - quotient * x) <= 0
    ensures Abs(x) * rem + Abs(inv - quotient * x) * m == n
    ensures 2 * Abs(x) <= n
  {
    CoefficientStep(a, n, b, m, x, inv, k, l, quotient, rem);
    SignStep(x, inv, quotient);
    AbsStep(x, inv, quotient);
    WeightStep(Abs(x), Abs(inv), b, m, quotient, rem, n);
    TwiceBound(Abs(inv) * m, Abs(x), b, n);
  }

  lemma CoefficientStep(a: int, n: int, b: int, m: int, x: int, inv: int, k: int, l: int,
                        quotient: int, rem: int)
    requires b == quotient * m + rem
    requires b == inv * a + k * n && m == x * a + l * n
    ensures rem == (inv - quotient * x) * a + (k - quotient * l) * n
  {
    calc {
      rem;
      b - quotient * m;
      inv * a + k * n - quotient * (x * a + l * n);
      { Distrib3(quotient, x * a, l * n); }
      inv * a + k * n - quotient * (x * a) - quotient * (l * n);
      { Assoc(quotient, x, a); Assoc(quotient, l, n); }
      inv * a + k * n - (quotient * x) * a - (quotient * l) * n;
      { Distrib3(a, inv, quotient * x); Distrib3(n, k, quotient * l); }
      (inv - quotient * x) * a + (k - quotient * l) * n;
    }
  }

  lemma WeightStep(ax: nat, ainv: nat, b: int, m: int, quotient: int, rem: int, n: int)
    requires b == quotient * m + rem
    requires ainv * m + ax * b == n
    ensures ax * rem + (ainv + quotient * ax) * m == n
  {
    calc {
      ax * rem + (ainv + quotient * ax) * m;
      { Distrib3(m, ainv, quotient * ax); }
      ax * rem + ainv * m + (quotient * ax) * m;
      { Assoc(quotient, ax, m); Assoc(ax, quotient, m); }
      ax * rem + ainv * m + ax * (quotient * m);
      { Distrib3(ax, rem, quotient * m); }
      ax * (rem + quotient * m) + ainv * m;
      n;
    }
  }

  lemma Assoc(u: int, v: int, w: int)
    ensures (u * v) * w == u * (v * w) == (v * u) * w
  {
  }

  lemma Distrib3(c: int, u: int, v: int)
    ensures c * (u + v) == c * u + c * v
    ensures c * (u - v) == c * u - c * v
  {
  }

  lemma SignStep(x: int, inv: int, quotient: int)
    requires inv * x <= 0 && quotient >= 0
    ensures x * (inv - quotient * x) <= 0
  {
    assert x * (inv - quotient * x) == inv * x - quotient * (x * x);
    assert x * x >= 0;
  }

  lemma AbsStep(x: int, inv: int, quotient: int)
    requires inv * x <= 0 && quotient >= 0
    ensures Abs(inv - quotient * x) == Abs(inv) + quotient * Abs(x)
  {
    if x > 0 {
      assert inv <= 0;
    } else if x < 0 {
      assert inv >= 0;
    }
  }

  lemma TwiceBound(s: nat, y: nat, b: int, n: nat)
    requires b >= 2 && s + y * b == n
    ensures 2 * y <= n
  {
    assert y * b >= y * 2;
  }

  /** From 1 == inv * a + k * n and the bound on inv, the corrected inverse. */
  lemma InverseMod(a: nat, n: nat, inv0: int, k: int, inv: int)
    requires n > 1 && 1 == inv0 * a + k * n
    requires inv == inv0 || inv == inv0 + n
    ensures (a * inv) % n == 1
  {
    var c := if inv == inv0 then -k else a - k;
    assert a * inv == 1 + c * n;
    ModMultiple(1, c, n);
  }

  /** Euler's totient of p * q for distinct primes p and q: (p - 1) * (q - 1). */
  function Phi(p: nat, q: nat): (r: nat)
    requires p >= 1 && q >= 1
    ensures r + p + q == p * q + 1
    ensures p > 1 && q > 1 ==> 0 < r < p * q
  {
    ProductOfSuccessors(p - 1, q - 1);
    (p - 1) * (q - 1)
  }

  /** (a + 1) * (b + 1) expanded, and positive factors give a positive product. */
  lemma ProductOfSuccessors(a: nat, b: nat)
    ensures (a + 1) * (b + 1) == a * b + a + b + 1
    ensures a > 0 && b > 0 ==> a * b > 0
  {
  }

  /**
   * generate_key_pair: the public key is (e, p * q) and the private key is
   * (d, p * q) with d the inverse of e modulo Phi(p, q) when Phi(p, q) > 1
   * and e is coprime to it. In the other cases that do not panic (e is 0,
   * or Phi(p, q) is 0 or 1) the loop never runs and d is 1. None is a
   * panic: p or q zero (the `BigUint` subtraction), or the inverse's
   * division by zero.
   */
  method GenerateKeyPair(p: nat, q: nat, e: nat) returns (r: Option<(Key, Key)>)
    ensures r.None? <==> p == 0 || q == 0 || (Phi(p, q) != 1 && e != 0 && Gcd(e, Phi(p, q)) != 1)
    ensures r.Some? ==> r.value.0 == Key(e, p * q) && r.value.1.modulus == p * q
    ensures r.Some? && Phi(p, q) > 1 && Gcd(e, Phi(p, q)) == 1 ==>
              r.value.1.exponent < Phi(p, q) && (e * r.value.1.exponent) % Phi(p, q) == 1
    ensures r.Some? && !(Phi(p, q) > 1 && Gcd(e, Phi(p, q)) == 1) ==> r.value.1.exponent == 1
  {
    if p == 0 || q == 0 {
      return None;
    }
    var n := p * q;
    var phi := Phi(p, q);
    var d := ModInverse(e, phi);
    if d.None? {
      return None;
    }
    return Some((Key(e, n), Key(d.value, n)));
  }

  /** encrypt: message^e mod n, computed by square-and-multiply. */
  function Encrypt(publicKey: Key, message: nat): (cipher: nat)
    requires publicKey.modulus > 0
    ensures cipher < publicKey.modulus
    ensures cipher == Pow(message, publicKey.exponent) % publicKey.modulus
  {
    ModPowIsPow(message, publicKey.exponent, publicKey.modulus);
    ModPow(message, publicKey.exponent, publicKey.modulus)
  }

  /** decrypt: cipher^d mod n, computed by square-and-multiply. */
  function Decrypt(privateKey: Key, cipher: nat): (message: nat)
    requires privateKey.modulus > 0
    ensures message < privateKey.modulus
    ensures message == Pow(cipher, privateKey.exponent) % privateKey.modulus
  {
    ModPowIsPow(cipher, privateKey.exponent, privateKey.modulus);
    ModPow(cipher, privateKey.exponent, privateKey.modulus)
  }

  /**
   * The instance RsaArgs::run works through: p = 61, q = 53, e = 17 and the
   * message 123. The key pair is (17, 3233) and (2753, 3233), and decrypting
   * the cipher gives the message back.
   */
  method Example() returns (publicKey: Key, privateKey: Key, cipher: nat, decrypted: nat)
    ensures publicKey == Key(17, 3233) && privateKey == Key(2753, 3233)
    ensures cipher == 855 && decrypted == 123
  {
    assert 61 * 53 == 3233 && (61 - 1) * (53 - 1) == 3120;
    ExampleCoprime();
    var keys := GenerateKeyPair(61, 53, 17);
    publicKey, privateKey := keys.value.0, keys.value.1;
    InverseOf17(privateKey.exponent);
    cipher := Encrypt(publicKey, 123);
    ExampleEncrypt();
    decrypted := Decrypt(privateKey, cipher);
    ExampleDecrypt();
  }

  lemma ExampleCoprime()
    ensures Gcd(17, 3120) == 1
  {
    assert Gcd(17, 3120) == Gcd(3120, 17) == Gcd(17, 9) == Gcd(9, 8) == Gcd(8, 1) == Gcd(1, 0);
  }

  /** The inverse of 17 modulo 3120 below 3120 is 2753 and nothing else. */
  lemma InverseOf17(d: nat)
    requires d < 3120 && (17 * d) % 3120 == 1
    ensures d == 2753
  {
    var k := (17 * d) / 3120;
    assert 17 * d == 3120 * k + 1;
  }

  // The evaluations below go bottom-up: each step squares the previous
  // power of the base (and multiplies by the base for an odd exponent).
  lemma ExampleEncrypt()
    ensures ModPow(123, 17, 3233) == 855
  {
    assert ModPow(123, 1, 3233) == 123 by { assert (1 * 1) % 3233 == 1; assert (1 * 123) % 3233 == 123; }
    assert ModPow(123, 2, 3233) == 2197 by { assert (123 * 123) % 3233 == 2197; }
    assert ModPow(123, 4, 3233) == 3173 by { assert (2197 * 2197) % 3233 == 3173; }
    assert ModPow(123, 8, 3233) == 367 by { assert (3173 * 3173) % 3233 == 367; }
    assert (367 * 367) % 3233 == 2136;
    assert (2136 * 123) % 3233 == 855;
  }

  lemma ExampleDecrypt()
    ensures ModPow(855, 2753, 3233) == 123
  {
    assert ModPow(855, 1, 3233) == 855 by { assert (1 * 1) % 3233 == 1; assert (1 * 855) % 3233 == 855; }
    assert ModPow(855, 2, 3233) == 367 by { assert (855 * 855) % 3233 == 367; }
    assert ModPow(855, 5, 3233) == 2868 by { assert (367 * 367) % 3233 == 2136; assert (2136 * 855) % 3233 == 2868; }
    assert ModPow(855, 10, 3233) == 672 by { assert (2868 * 2868) % 3233 == 672; }
    assert ModPow(855, 21, 3233) == 62 by { assert (672 * 672) % 3233 == 2197; assert (2197 * 855) % 3233 == 62; }
    assert ModPow(855, 43, 3233) == 1892 by { assert (62 * 62) % 3233 == 611; assert (611 * 855) % 3233 == 1892; }
    assert ModPow(855, 86, 3233) == 733 by { assert (1892 * 1892) % 3233 == 733; }
    assert ModPow(855, 172, 3233) == 611 by { assert (733 * 733) % 3233 == 611; }
    assert ModPow(855, 344, 3233) == 1526 by { assert (611 * 611) % 3233 == 1526; }
    assert ModPow(855, 688, 3233) == 916 by { assert (1526 * 1526) % 3233 == 916; }
    assert ModPow(855, 1376, 3233) == 1709 by { assert (916 * 916) % 3233 == 1709; }
  }
}
