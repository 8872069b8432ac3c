/**
 Exact arithmetic on non-negative integers used by key generation: the
 mathematical power function and modular exponentiation (the value
 `big.Int.Exp(x, y, m)` returns when `m` is positive), computed by
 square-and-multiply and proved equal to `x^y mod m`.
 */
module Arith {

  /** b raised to the e-th power: the reference definition. */
  function Pow(b: nat, e: nat): nat
    decreases e
  {
    if e == 0 then 1 else b * Pow(b, e - 1)
  }

  /** Every power of one is one. */
  lemma {:induction false} PowOfOne(e: nat)
    ensures Pow(1, e) == 1
  {
    if e > 0 {
      PowOfOne(e - 1);
    }
  }

  /** Squaring the base halves the exponent. */
  lemma {:induction false} PowOfSquare(b: nat, k: nat)
    ensures Pow(b * b, k) == Pow(b, 2 * k)
  {
    if k > 0 {
      PowOfSquare(b, k - 1);
      calc {
        Pow(b * b, k);
        (b * b) * Pow(b * b, k - 1);
        (b * b) * Pow(b, 2 * k - 2);
        b * (b * Pow(b, 2 * k - 2));
        { assert Pow(b, 2 * k - 1) == b * Pow(b, 2 * k - 2); }
        b * Pow(b, 2 * k - 1);
      }
    }
  }

  /** A positive multiple of m is at least m. */
  lemma MultipleAtLeast(k: nat, m: nat)
    requires k >= 1
    ensures k * m >= m
  {
    assert k * m == m + (k - 1) * m;
  }

  /** Euclidean division is unique: a quotient and an in-range remainder determine `x % m`. */
  lemma ModOfDecomposition(x: nat, m: nat, q: nat, r: nat)
    requires m > 0
    requires x == q * m + r
    requires r < m
    ensures x % m == r
  {
    var q', r' := x / m, x % m;
    assert x == q' * m + r';
    if q < q' {
      var d := q' - q;
      assert q' * m == q * m + d * m;
      MultipleAtLeast(d, m);
    } else if q' < q {
      var d := q - q';
      assert q * m == q' * m + d * m;
      MultipleAtLeast(d, m);
    }
  }

  /** Adding a multiple of m does not change a value modulo m. */
  lemma ModAddMultiple(k: nat, m: nat, y: nat)
    requires m > 0
    ensures (k * m + y) % m == y % m
  {
    var qy := y / m;
    assert y == qy * m + y % m;
    assert k * m + y == (k + qy) * m + y % m;
    ModOfDecomposition(k * m + y, m, k + qy, y % m);
  }

  /** Reducing a value already below m leaves it unchanged. */
  lemma ModOfReduced(y: nat, m: nat)
    requires m > 0
    ensures (y % m) % m == y % m
  {
    ModOfDecomposition(y % m, m, 0, y % m);
  }

  /** Multiplication distributes over a quotient-remainder decomposition. */
  lemma Distribute(a: nat, k: nat, m: nat, r: nat)
    ensures a * (k * m + r) == (a * k) * m + a * r
  {
  }

  /** Reducing the right factor of a product modulo m does not change the product modulo m. */
  lemma MulModRight(a: nat, b: nat, m: nat)
    requires m > 0
    ensures (a * b) % m == (a * (b % m)) % m
  {
    assert b == (b / m) * m + b % m;
    Distribute(a, b / m, m, b % m);
    ModAddMultiple(a * (b / m), m, a * (b % m));
  }

  /** Reducing the factors of a product modulo m does not change the product modulo m. */
  lemma MulMod(a: nat, b: nat, m: nat)
    requires m > 0
    ensures (a * b) % m == ((a % m) * (b % m)) % m
  {
    MulModRight(a, b, m);
    MulModRight(b % m, a, m);
    assert a * (b % m) == (b % m) * a;
    assert (b % m) * (a % m) == (a % m) * (b % m);
  }

  /** Reducing the base modulo m does not change a power modulo m. */
  lemma {:induction false} PowModBase(b: nat, e: nat, m: nat)
    requires m > 0
    ensures Pow(b % m, e) % m == Pow(b, e) % m
  {
    if e > 0 {
      PowModBase(b, e - 1, m);
      calc {
        Pow(b % m, e) % m;
        ((b % m) * Pow(b % m, e - 1)) % m;
        { MulMod(b % m, Pow(b % m, e - 1), m); }
        (((b % m) % m) * (Pow(b % m, e - 1) % m)) % m;
        { ModOfReduced(b, m); }
        ((b % m) * (Pow(b, e - 1) % m)) % m;
        { MulMod(b, Pow(b, e - 1), m); }
        (b * Pow(b, e - 1)) % m;
      }
    }
  }

  /** One square-and-multiply step: from `(b^2 mod m)^(e/2) mod m`, the value ExpMod builds is `b^e mod m`. */
  lemma ExpModStep(b: nat, e: nat, m: nat, half: nat)
    requires m > 0
    requires e > 0
    requires half == Pow(b * b % m, e / 2) % m
    ensures e % 2 == 0 ==> half == Pow(b, e) % m
    ensures e % 2 == 1 ==> (b % m) * half % m == Pow(b, e) % m
  {
    PowModBase(b * b, e / 2, m);
    PowOfSquare(b, e / 2);
    assert half == Pow(b, 2 * (e / 2)) % m;
    if e % 2 == 1 {
      assert Pow(b, e) == b * Pow(b, 2 * (e / 2));
      MulMod(b, Pow(b, 2 * (e / 2)), m);
    }
  }

  /**
   Modular exponentiation `b^e mod m` for a positive modulus, computed by
   square-and-multiply. It yields the value `big.Int.Exp(b, e, m)` returns
   for m > 0 (not its windowed or Montgomery algorithm): a modulus of one
   gives 0, and a zero exponent gives 1 otherwise.
   */
  function ExpMod(b: nat, e: nat, m: nat): (r: nat)
    requires m > 0
    ensures r < m
    ensures r == Pow(b, e) % m
    decreases e
  {
    if m == 1 then
      0
    else if e == 0 then
      1
    else
      var half := ExpMod(b * b % m, e / 2, m);
      ExpModStep(b, e, m, half);
      if e % 2 == 0 then half else (b % m) * half % m
  }

  /** A second reduction by the same modulus changes nothing: reduction is idempotent. */
  lemma ReduceExpModIsNoOp(b: nat, e: nat, m: nat)
    requires m > 0
    ensures ExpMod(b, e, m) % m == ExpMod(b, e, m)
  {
    ModOfReduced(Pow(b, e), m);
  }
}
