/**
 The arithmetic that textbook RSA rests on: divisibility, Bezout coefficients,
 Euclid's lemma, the binomial proof of Fermat's little theorem, and
 recombination modulo a product of two primes.
 */
module NumberTheory {

  // ---------------------------------------------------------------- Definitions

  function Pow(b: int, e: nat): int {
    if e == 0 then 1 else b * Pow(b, e - 1)
  }

  predicate Divides(k: int, a: int) {
    k > 0 && a % k == 0
  }

  ghost predicate IsPrime(n: int) {
    n >= 2 && forall k :: 2 <= k < n ==> !Divides(k, n)
  }

  ghost predicate Coprime(a: int, b: int) {
    forall k :: k >= 2 && Divides(k, a) ==> !Divides(k, b)
  }

  // ---------------------------------------------------------------- Remainders

  lemma DivModUnique(a: int, n: int, q: int, r: int)
    requires a == q * n + r && 0 <= r < n
    ensures a / n == q && a % n == r
  {
    var q', r' := a / n, a % n;
    assert q * n + r == q' * n + r';
    QuotientUnique(n, q, r, q', r');
  }

  lemma QuotientUnique(n: int, q: int, r: int, q': int, r': int)
    requires 0 <= r < n && 0 <= r' < n && q * n + r == q' * n + r'
    ensures q == q' && r == r'
  {
    MulDifference(n, q, q');
    if q > q' {
      MulAtLeast(n, q - q');
    } else if q < q' {
      MulAtLeast(n, q' - q);
    }
  }

  lemma MulDifference(n: int, q: int, q': int)
    ensures (q - q') * n == q * n - q' * n
    ensures (q' - q) * n == q' * n - q * n
  {
  }

  lemma MulAtLeast(n: int, k: int)
    requires n >= 0 && k >= 1
    ensures k * n >= n
  {
  }

  lemma DividesWitness(k: int, a: int, q: int)
    requires k > 0 && a == k * q
    ensures Divides(k, a)
  {
    DivModUnique(a, k, q, 0);
  }

  /** Two numbers leave the same remainder exactly when `n` divides their difference. */
  lemma SameRemainder(a: int, b: int, n: int)
    requires n > 0
    ensures a % n == b % n <==> Divides(n, a - b)
  {
    if a % n == b % n {
      DividesWitness(n, a - b, a / n - b / n);
    } else if Divides(n, a - b) {
      var k := (a - b) / n;
      DivModUnique(a, n, b / n + k, b % n);
    }
  }

  lemma ModMul(a: int, b: int, n: int)
    requires n > 0
    ensures ((a % n) * b) % n == (a * b) % n
  {
    assert a * b - (a % n) * b == n * ((a / n) * b);
    DividesWitness(n, a * b - (a % n) * b, (a / n) * b);
    SameRemainder(a * b, (a % n) * b, n);
  }

  lemma ModMulCongruent(a: int, b: int, c: int, n: int)
    requires n > 0 && a % n == b % n
    ensures (a * c) % n == (b * c) % n
  {
    ModMul(a, c, n);
    ModMul(b, c, n);
  }

  lemma ModAddCongruent(a: int, b: int, c: int, n: int)
    requires n > 0 && a % n == b % n
    ensures (a + c) % n == (b + c) % n
  {
    SameRemainder(a, b, n);
    SameRemainder(a + c, b + c, n);
  }

  lemma ModAddMultiple(a: int, b: int, n: int)
    requires Divides(n, b)
    ensures (a + b) % n == a % n
  {
    assert a + b - a == b;
    SameRemainder(a + b, a, n);
  }

  lemma DividesSum(k: int, a: int, b: int)
    requires Divides(k, a) && Divides(k, b)
    ensures Divides(k, a + b)
  {
    DividesWitness(k, a + b, a / k + b / k);
  }

  lemma DividesMultiple(k: int, a: int, m: int)
    requires Divides(k, a)
    ensures Divides(k, a * m) && Divides(k, m * a)
  {
    assert a * m == k * ((a / k) * m);
    DividesWitness(k, a * m, (a / k) * m);
  }

  lemma DivisorBound(k: int, a: int)
    requires Divides(k, a) && a > 0
    ensures k <= a
  {
    if k > a {
      DivModUnique(a, k, 0, a);
    }
  }

  // ---------------------------------------------------------------- Powers

  lemma {:induction false} PowAdd(b: int, x: nat, y: nat)
    ensures Pow(b, x + y) == Pow(b, x) * Pow(b, y)
  {
    if x > 0 {
      PowAdd(b, x - 1, y);
    }
  }

  lemma {:induction false} PowPow(b: int, x: nat, y: nat)
    ensures x * y >= 0 && Pow(Pow(b, x), y) == Pow(b, x * y)
  {
    if y > 0 {
      PowPow(b, x, y - 1);
      assert x * y == x + x * (y - 1);
      PowAdd(b, x, x * (y - 1));
    }
  }

  /** Powers may be taken of remainders. */
  lemma {:induction false} PowMod(b: int, e: nat, n: int)
    requires n > 0
    ensures Pow(b % n, e) % n == Pow(b, e) % n
  {
    if e > 0 {
      var x, y := Pow(b % n, e - 1), Pow(b, e - 1);
      PowMod(b, e - 1, n);
      ModMulCongruent(x, y, b % n, n);
      ModMul(b, y, n);
      assert Pow(b % n, e) == x * (b % n);
      assert (b % n) * y == y * (b % n);
    }
  }

  // ---------------------------------------------------------------- Bezout and Euclid

  lemma Bezout(a: nat, b: nat) returns (g: int, x: int, y: int)
    requires a > 0 || b > 0
    ensures g > 0 && a * x + b * y == g
    ensures Divides(g, a) && Divides(g, b)
    decreases b
  {
    if b == 0 {
      g, x, y := a, 1, 0;
      DividesWitness(g, a, 1);
      DividesWitness(g, b, 0);
    } else {
      var q, r := a / b, a % b;
      var x', y';
      g, x', y' := Bezout(b, r);
      x, y := y', x' - q * y';
      assert a == q * b + r;
      calc {
        a * x + b * y;
        (q * b + r) * y' + b * (x' - q * y');
        { assert b * (q * y') == (q * b) * y'; }
        r * y' + b * x';
      }
      DividesMultiple(g, b, q);
      DividesSum(g, q * b, r);
    }
  }

  lemma CoprimeBezout(a: nat, b: nat) returns (x: int, y: int)
    requires a > 0 || b > 0
    requires Coprime(a, b)
    ensures a * x + b * y == 1
  {
    var g;
    g, x, y := Bezout(a, b);
  }

  /** A prime is coprime to every number it does not divide, and to no other. */
  lemma PrimeCoprime(p: int, a: int)
    requires IsPrime(p) && a >= 0
    ensures Coprime(p, a) <==> !Divides(p, a)
  {
    DividesWitness(p, p, 1);
    if !Divides(p, a) {
      forall k | k >= 2 && Divides(k, p)
        ensures !Divides(k, a)
      {
        DivisorBound(k, p);
        assert k == p;
      }
    }
  }

  /** Euclid's lemma for a divisor coprime to the first factor. */
  lemma EuclidCoprime(n: int, a: nat, b: int)
    requires n > 0 && Coprime(n, a) && Divides(n, a * b)
    ensures Divides(n, b)
  {
    var x, y := CoprimeBezout(n, a);
    calc {
      b;
      (n * x + a * y) * b;
      n * (x * b) + (a * b) * y;
    }
    DividesWitness(n, n * (x * b), x * b);
    DividesMultiple(n, a * b, y);
    DividesSum(n, n * (x * b), (a * b) * y);
  }

  /** Distinct primes are coprime. */
  lemma DistinctPrimesCoprime(p: int, q: int)
    requires IsPrime(p) && IsPrime(q) && p != q
    ensures Coprime(p, q)
  {
    if Divides(p, q) {
      DivisorBound(p, q);
    }
    PrimeCoprime(p, q);
  }

  /** Equality modulo two coprime moduli is equality modulo their product. */
  lemma Recombine(p: int, q: int, a: int, b: int)
    requires p > 0 && q > 0 && Coprime(q, p)
    requires a % p == b % p && a % q == b % q
    ensures p * q > 0 && a % (p * q) == b % (p * q)
  {
    SameRemainder(a, b, p);
    SameRemainder(a, b, q);
    var y := (a - b) / p;
    assert a - b == p * y;
    EuclidCoprime(q, p, y);
    var z := y / q;
    assert p * (q * z) == (p * q) * z;
    DividesWitness(p * q, a - b, z);
    SameRemainder(a, b, p * q);
  }

  // ---------------------------------------------------------------- Modular inverses

  /** `e` has an inverse modulo `phi` exactly when the two are coprime. */
  lemma InverseExistsIffCoprime(e: int, phi: int)
    requires e >= 1 && phi >= 2
    ensures (exists d :: 1 <= d < phi && (d * e) % phi == 1) <==> Coprime(e, phi)
    ensures (exists d :: (d * e) % phi == 1) <==> Coprime(e, phi)
  {
    if Coprime(e, phi) {
      var d := Inverse(e, phi);
      assert 1 <= d < phi && (d * e) % phi == 1;
    }
    forall d | (d * e) % phi == 1
      ensures Coprime(e, phi)
    {
      InverseImpliesCoprime(d, e, phi);
    }
  }

  lemma Inverse(e: int, phi: int) returns (d: int)
    requires e >= 1 && phi >= 2 && Coprime(e, phi)
    ensures 1 <= d < phi && (d * e) % phi == 1
  {
    var x, y := CoprimeBezout(e, phi);
    d := x % phi;
    ModMul(x, e, phi);
    assert x * e == (-y) * phi + 1;
    DivModUnique(x * e, phi, -y, 1);
    assert (d * e) % phi == 1;
    assert d != 0;
  }

  lemma InverseImpliesCoprime(d: int, e: int, phi: int)
    requires phi >= 2 && (d * e) % phi == 1
    ensures Coprime(e, phi)
  {
    forall k | k >= 2 && Divides(k, e)
      ensures !Divides(k, phi)
    {
      if Divides(k, phi) {
        var m := (d * e) / phi;
        assert d * e + (-m) * phi == 1;
        DividesMultiple(k, e, d);
        DividesMultiple(k, phi, -m);
        DividesSum(k, d * e, (-m) * phi);
        DivisorBound(k, 1);
      }
    }
  }

  // ---------------------------------------------------------------- Fermat's little theorem

  /** Binomial coefficients by Pascal's rule. */
  function Binomial(n: nat, k: nat): nat {
    if k == 0 then 1
    else if n == 0 then 0
    else Binomial(n - 1, k - 1) + Binomial(n - 1, k)
  }

  lemma {:induction false} BinomialBeyond(n: nat, k: nat)
    requires k > n
    ensures Binomial(n, k) == 0
  {
    if n > 0 {
      BinomialBeyond(n - 1, k - 1);
      BinomialBeyond(n - 1, k);
    }
  }

  lemma {:induction false} BinomialDiagonal(n: nat)
    ensures Binomial(n, n) == 1
  {
    if n > 0 {
      BinomialDiagonal(n - 1);
      BinomialBeyond(n - 1, n);
    }
  }

  lemma {:induction false} BinomialAbsorb(n: nat, k: nat)
    requires n >= 1 && k >= 1
    ensures k * Binomial(n, k) == n * Binomial(n - 1, k - 1)
  {
    if n == 1 {
      if k > 1 {
        BinomialBeyond(1, k);
        BinomialBeyond(0, k - 1);
      }
    } else {
      var x, y := Binomial(n - 1, k - 1), Binomial(n - 1, k);
      BinomialAbsorb(n - 1, k);
      if k > 1 {
        BinomialAbsorb(n - 1, k - 1);
      }
      var u, w := Binomial(n - 2, k - 1), if k == 1 then 0 else Binomial(n - 2, k - 2);
      assert x == w + u;
      assert (k - 1) * x == (n - 1) * w;
      AbsorbArithmetic(n, k, x, y, u, w);
    }
  }

  lemma AbsorbArithmetic(n: int, k: int, x: int, y: int, u: int, w: int)
    requires x == w + u && (k - 1) * x == (n - 1) * w && k * y == (n - 1) * u
    ensures k * (x + y) == n * x
  {
    assert k * (x + y) == (k - 1) * x + x + k * y;
    assert (n - 1) * (w + u) == (n - 1) * w + (n - 1) * u;
  }

  /** The first `m` terms of the expansion of (a + 1)^n. */
  function BinomialSum(n: nat, a: int, m: nat): int {
    if m == 0 then 0 else BinomialSum(n, a, m - 1) + Binomial(n, m - 1) * Pow(a, m - 1)
  }

  lemma {:induction false} BinomialSumStep(n: nat, a: int, m: nat)
    requires m >= 1
    ensures BinomialSum(n + 1, a, m) == BinomialSum(n, a, m) + a * BinomialSum(n, a, m - 1)
  {
    if m > 1 {
      BinomialSumStep(n, a, m - 1);
      var t := Pow(a, m - 2);
      var x, y := Binomial(n, m - 2), Binomial(n, m - 1);
      assert Binomial(n + 1, m - 1) == x + y;
      assert Pow(a, m - 1) == a * t;
      var s := BinomialSum(n, a, m - 2);
      StepArithmetic(x, y, a, t, s);
    } else {
      assert BinomialSum(n, a, 0) == 0;
    }
  }

  lemma StepArithmetic(x: int, y: int, a: int, t: int, s: int)
    ensures (x + y) * (a * t) == y * (a * t) + a * (x * t)
    ensures a * (s + x * t) == a * s + a * (x * t)
  {
    assert (x + y) * (a * t) == x * (a * t) + y * (a * t);
  }

  lemma {:induction false} BinomialTheorem(n: nat, a: int)
    ensures Pow(a + 1, n) == BinomialSum(n, a, n + 1)
  {
    if n == 0 {
      assert BinomialSum(0, a, 1) == BinomialSum(0, a, 0) + 1;
    } else {
      hide Pow, BinomialSum;
      BinomialTheorem(n - 1, a);
      BinomialSumStep(n - 1, a, n + 1);
      LastTermVanishes(n, a);
      PowSuccessor(a, n);
    }
  }

  lemma PowSuccessor(a: int, n: nat)
    requires n >= 1
    ensures Pow(a + 1, n) == Pow(a + 1, n - 1) + a * Pow(a + 1, n - 1)
  {
    var s := Pow(a + 1, n - 1);
    assert (a + 1) * s == s + a * s;
  }

  lemma LastTermVanishes(n: nat, a: int)
    requires n >= 1
    ensures BinomialSum(n - 1, a, n + 1) == BinomialSum(n - 1, a, n)
  {
    BinomialBeyond(n - 1, n);
    assert 0 * Pow(a, n) == 0;
  }

  lemma {:induction false} BinomialSumModPrime(p: int, a: int, m: nat)
    requires IsPrime(p) && 1 <= m <= p
    ensures BinomialSum(p, a, m) % p == 1
  {
    if m == 1 {
      assert BinomialSum(p, a, 1) == BinomialSum(p, a, 0) + 1;
      DivModUnique(1, p, 0, 1);
    } else {
      hide Pow, Binomial, BinomialSum, Divides, IsPrime;
      BinomialSumModPrime(p, a, m - 1);
      var k := m - 1;
      PrimeDividesBinomial(p, k);
      DividesMultiple(p, Binomial(p, k), Pow(a, k));
      BinomialSumUnfold(p, a, k);
      ModAddMultiple(BinomialSum(p, a, k), Binomial(p, k) * Pow(a, k), p);
    }
  }

  lemma BinomialSumUnfold(n: nat, a: int, k: nat)
    ensures BinomialSum(n, a, k + 1) == BinomialSum(n, a, k) + Binomial(n, k) * Pow(a, k)
  {
  }

  lemma PrimeDividesBinomial(p: int, k: nat)
    requires IsPrime(p) && 1 <= k < p
    ensures Divides(p, Binomial(p, k))
  {
    var c := Binomial(p, k);
    BinomialAbsorb(p, k);
    DividesWitness(p, k * c, Binomial(p - 1, k - 1));
    if Divides(p, k) {
      DivisorBound(p, k);
    }
    PrimeCoprime(p, k);
    EuclidCoprime(p, k, c);
  }

  /** Fermat's little theorem, for every base including the multiples of `p`. */
  lemma {:induction false} Fermat(p: int, a: nat)
    requires IsPrime(p)
    ensures Pow(a, p) % p == a % p
  {
    if a == 0 {
      assert Pow(0, p) == 0 * Pow(0, p - 1);
    } else {
      Fermat(p, a - 1);
      FermatStep(p, a - 1);
      ModAddCongruent(Pow(a - 1, p), a - 1, 1, p);
    }
  }

  lemma FermatStep(p: int, a: int)
    requires IsPrime(p)
    ensures Pow(a + 1, p) % p == (Pow(a, p) + 1) % p
  {
    BinomialTheorem(p, a);
    BinomialSumModPrime(p, a, p);
    BinomialDiagonal(p);
    var s, t := BinomialSum(p, a, p), Pow(a, p);
    assert Pow(a + 1, p) == s + t;
    DivModUnique(1, p, 0, 1);
    ModAddCongruent(s, 1, t, p);
  }

  /** Exponents congruent to 1 modulo p - 1 act as the identity modulo `p`. */
  lemma {:induction false} FermatIterated(p: int, a: nat, k: nat)
    requires IsPrime(p)
    ensures 1 + k * (p - 1) >= 0 && Pow(a, 1 + k * (p - 1)) % p == a % p
  {
    if k == 0 {
      assert Pow(a, 1) == a * Pow(a, 0);
    } else {
      FermatIterated(p, a, k - 1);
      var x := 1 + (k - 1) * (p - 1);
      assert 1 + k * (p - 1) == x + (p - 1);
      PowAdd(a, x, p - 1);
      ModMulCongruent(Pow(a, x), a, Pow(a, p - 1), p);
      Fermat(p, a);
    }
  }
}
