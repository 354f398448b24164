/**
 The software half of the RSA system: the primality and exponent checks, the
 private-key search, encryption and decryption, in signed 32-bit arithmetic.
 Every intermediate product is held in an `int32`, so a method that verifies
 performs no overflowing multiplication on any iteration.
 */
module Rsa {
  import opened NumberTheory

  const INT_MAX := 0x7FFF_FFFF

  type int32 = x: int | -INT_MAX - 1 <= x <= INT_MAX

  function Abs(a: int): nat {
    if a < 0 then -a else a
  }

  /** The `%` of C, which truncates toward zero. */
  function CRem(a: int, b: int): int
    requires b != 0
  {
    if a >= 0 then a % Abs(b) else -(-a % Abs(b))
  }

  /** The remainder truncates toward zero: it is smaller than the divisor and has the sign of the dividend. */
  lemma CRemTruncates(a: int, b: int, r: int)
    requires b != 0
    ensures CRem(a, b) == r <==>
            Divides(Abs(b), a - r) && Abs(r) < Abs(b) && (a >= 0 ==> r >= 0) && (a <= 0 ==> r <= 0)
  {
    hide Divides;
    var n := Abs(b);
    if a >= 0 {
      RemainderIs(a, r, n);
    } else {
      RemainderIs(-a, -r, n);
      NegatedDivides(n, a - r);
    }
    if a == 0 {
      ZeroRemainder(n);
    }
  }

  lemma RemainderIs(x: int, r: int, n: int)
    requires n > 0
    ensures x % n == r <==> Divides(n, x - r) && 0 <= r < n
  {
    SameRemainder(x, r, n);
    if 0 <= r < n {
      DivModUnique(r, n, 0, r);
    }
  }

  lemma ZeroRemainder(n: int)
    requires n > 0
    ensures 0 % n == 0
  {
    DivModUnique(0, n, 0, 0);
  }

  lemma NegatedDivides(n: nat, x: int)
    requires n > 0
    ensures Divides(n, x) <==> Divides(n, -x)
  {
    if Divides(n, x) {
      DividesWitness(n, -x, -(x / n));
    }
    if Divides(n, -x) {
      DividesWitness(n, x, -(-x / n));
    }
  }

  // ---------------------------------------------------------------- Input checks

  /** What the primality check lets through: the primes, and everything below 2. */
  ghost predicate PassesPrimeCheck(number: int) {
    number <= 1 || IsPrime(number)
  }

  method PrimeChecker(number: int32) returns (r: int32)
    ensures r == 0 || r == 1
    ensures r == 1 <==> PassesPrimeCheck(number)
  {
    var i: int32 := 2;
    while i < number
      invariant i >= 2 && (number >= 2 ==> i <= number)
      invariant forall k :: 2 <= k < i ==> !Divides(k, number)
    {
      if CRem(number, i) == 0 && i != number {
        assert Divides(i, number);
        return 0;
      }
      i := i + 1;
    }
    return 1;
  }

  method EChecker(e: int32, phi: int32) returns (r: int32)
    ensures r == 0 || r == 1
    ensures r == 1 <==> PassesPrimeCheck(e) && e < phi
  {
    var lessThan: int32;
    var prime := PrimeChecker(e);
    if e < phi {
      lessThan := 1;
    } else {
      lessThan := 0;
    }
    if lessThan == 1 && prime == 1 {
      return 1;
    } else {
      return 0;
    }
  }

  // ---------------------------------------------------------------- Private-key search

  /** The two variables of the search loop. */
  datatype Search = Search(d: int, s: int)

  /** The variables after `k` executions of the loop body, the guard left aside. */
  function SearchAfter(e: int, phi: int, k: nat): Search
    requires phi != 0
  {
    if k == 0 then Search(1, CRem(e, phi))
    else
      var previous := SearchAfter(e, phi, k - 1);
      Search(previous.d + 1, CRem(previous.d * e, phi))
  }

  /** The loop exits having executed its body exactly `k` times. */
  ghost predicate StopsAfter(e: int, phi: int, k: nat)
    requires phi != 0
  {
    SearchAfter(e, phi, k).s == 1 && forall j: nat :: j < k ==> SearchAfter(e, phi, j).s != 1
  }

  ghost predicate IsLeastInverse(d: int, e: int, phi: int)
    requires phi > 0
  {
    && 1 <= d < phi
    && (d * e) % phi == 1
    && forall x :: 1 <= x < d ==> (x * e) % phi != 1
  }

  lemma {:induction false} SearchAfterValue(e: int, phi: int, k: nat)
    requires phi != 0
    ensures SearchAfter(e, phi, k).d == k + 1
    ensures SearchAfter(e, phi, k).s == CRem((if k == 0 then 1 else k) * e, phi)
  {
    if k > 0 {
      SearchAfterValue(e, phi, k - 1);
    }
  }

  /** The truncating remainder of d*e is 1 for some d >= 1 only if e is positive. */
  lemma CRemIsOne(d: int, e: int, phi: int)
    requires d >= 1 && phi >= 1
    ensures CRem(d * e, phi) == 1 <==> e >= 1 && phi >= 2 && (d * e) % phi == 1
  {
    if e >= 1 {
      assert d * e >= 1;
    } else {
      assert d * e <= 0;
    }
  }

  /**
   The search is total exactly on the coprime pairs: for any modulus the loop
   stops if and only if an inverse exists.
   */
  lemma SearchStopsIff(e: int, phi: int)
    requires phi >= 1
    ensures (exists k: nat :: StopsAfter(e, phi, k)) <==> phi >= 2 && e >= 1 && Coprime(e, phi)
  {
    forall k: nat | StopsAfter(e, phi, k)
      ensures phi >= 2 && e >= 1 && Coprime(e, phi)
    {
      var d := if k == 0 then 1 else k;
      SearchAfterValue(e, phi, k);
      CRemIsOne(d, e, phi);
      InverseImpliesCoprime(d, e, phi);
    }
    if phi >= 2 && e >= 1 && Coprime(e, phi) {
      var d := Inverse(e, phi);
      SearchAfterValue(e, phi, d);
      CRemIsOne(d, e, phi);
      var k := FirstStop(e, phi, d);
    }
  }

  lemma FirstStop(e: int, phi: int, bound: nat) returns (k: nat)
    requires phi != 0 && SearchAfter(e, phi, bound).s == 1
    ensures k <= bound && StopsAfter(e, phi, k)
  {
    if j: nat :| j < bound && SearchAfter(e, phi, j).s == 1 {
      k := FirstStop(e, phi, j);
    } else {
      k := bound;
    }
  }

  /**
   For an exponent the checks accept (a prime 2 <= e < phi) the search stops
   exactly when e does not divide phi, and then leaves the least inverse.
   */
  lemma AcceptedSearch(e: int, phi: int)
    requires IsPrime(e) && e < phi
    ensures (exists k: nat :: StopsAfter(e, phi, k)) <==> !Divides(e, phi)
    ensures forall k: nat :: StopsAfter(e, phi, k) ==> IsLeastInverse(k, e, phi) && SearchAfter(e, phi, k).d - 1 == k
  {
    SearchStopsIff(e, phi);
    PrimeCoprime(e, phi);
    forall k: nat | StopsAfter(e, phi, k)
      ensures IsLeastInverse(k, e, phi) && SearchAfter(e, phi, k).d - 1 == k
    {
      StopIsLeastInverse(e, phi, k);
    }
  }

  /** Where e leaves remainder 1 the loop is never entered and `d--` leaves 0. */
  lemma StopIsLeastInverse(e: int, phi: int, k: nat)
    requires e >= 1 && phi >= 2 && StopsAfter(e, phi, k)
    ensures SearchAfter(e, phi, k).d - 1 == k
    ensures e % phi == 1 <==> k == 0
    ensures k > 0 ==> IsLeastInverse(k, e, phi)
  {
    SearchAfterValue(e, phi, k);
    SearchAfterValue(e, phi, 0);
    CRemIsOne(1, e, phi);
    if k > 0 {
      CRemIsOne(k, e, phi);
      forall x | 1 <= x < k
        ensures (x * e) % phi != 1
      {
        SearchAfterValue(e, phi, x);
        CRemIsOne(x, e, phi);
      }
      InverseImpliesCoprime(k, e, phi);
      var d := Inverse(e, phi);
      SearchAfterValue(e, phi, d);
      CRemIsOne(d, e, phi);
    }
  }

  /** An exponent both checks accept for which the search runs forever: e = 3, phi = 12. */
  lemma AcceptedExponentWithoutKey()
    ensures PassesPrimeCheck(3) && 3 < 12 && !exists k: nat :: StopsAfter(3, 12, k)
  {
    SearchStopsIff(3, 12);
    assert Divides(3, 3) && Divides(3, 12);
  }

  method KeySearch(e: int32, phi: int32) returns (d: int32)
    requires phi >= 2 && e >= 1 && Coprime(e, phi)
    requires (phi - 1) * e <= INT_MAX
    ensures d >= 0 && StopsAfter(e, phi, d)
    ensures e % phi == 1 ==> d == 0
    ensures e % phi != 1 ==> IsLeastInverse(d, e, phi)
  {
    SearchStopsIff(e, phi);
    ghost var stop: nat :| StopsAfter(e, phi, stop);
    StopIsLeastInverse(e, phi, stop);
    d := 1;
    var product: int32 := d * e;
    var s := CRem(product, phi);
    ghost var k: nat := 0;
    while s != 1
      invariant SearchAfter(e, phi, k) == Search(d, s)
      invariant d == k + 1 && k <= stop
      decreases stop - k
    {
      KeyProductFits(d, e, phi);
      product := d * e;
      s := CRem(product, phi);
      d := d + 1;
      k := k + 1;
    }
    d := d - 1;
  }

  lemma KeyProductFits(d: int, e: int, phi: int)
    requires 1 <= d < phi && e >= 1 && (phi - 1) * e <= INT_MAX
    ensures 0 <= d * e <= INT_MAX
  {
    assert (phi - 1) * e - d * e == (phi - 1 - d) * e;
  }

  // ---------------------------------------------------------------- Encryption and decryption

  /** The truncated remainder is multiplicative: its size by the sizes, its sign by the signs. */
  lemma CRemMul(a: int, b: int, n: int)
    requires n != 0
    ensures CRem(CRem(a, n) * b, n) == CRem(a * b, n)
  {
    hide CRem, Abs;
    var r := CRem(a, n);
    CRemParts(a, n);
    ModMul(Abs(a), Abs(b), Abs(n));
    AbsMul(a, b);
    AbsMul(r, b);
    if r != 0 && b != 0 {
      SignMul(a, b);
      SignMul(r, b);
    } else {
      assert r * b == 0;
    }
    SameSize(r * b, a * b, n);
  }

  lemma CRemParts(a: int, n: int)
    requires n != 0
    ensures Abs(n) > 0 && Abs(CRem(a, n)) == Abs(a) % Abs(n)
    ensures CRem(a, n) != 0 ==> a != 0 && (CRem(a, n) > 0 <==> a > 0)
  {
  }

  lemma SameSize(x: int, y: int, n: int)
    requires n != 0 && Abs(x) % Abs(n) == Abs(y) % Abs(n)
    requires x == 0 || (x > 0 <==> y > 0)
    ensures CRem(x, n) == CRem(y, n)
  {
  }

  lemma AbsMul(a: int, b: int)
    ensures Abs(a * b) == Abs(a) * Abs(b)
  {
    if a < 0 && b < 0 {
      assert a * b == (-a) * (-b);
    } else if a < 0 {
      assert a * b == -((-a) * b);
    } else if b < 0 {
      assert a * b == -(a * (-b));
    }
  }

  lemma SignMul(a: int, b: int)
    requires a != 0 && b != 0
    ensures a * b > 0 <==> (a > 0 <==> b > 0)
  {
  }

  lemma MulLe(a: int, b: int, c: int, d: int)
    requires 0 <= a <= c && 0 <= b <= d
    ensures a * b <= c * d
  {
    assert c * d - a * b == c * (d - b) + (c - a) * b;
  }

  /** One more factor: the product fits, and its remainder is that of the next power. */
  lemma PowerStep(c: int32, m: int32, i: nat, n: int)
    requires n != 0 && (Abs(n) - 1) * Abs(m) <= INT_MAX
    requires if i == 0 then c == 1 else c == CRem(Pow(m, i), n)
    ensures -INT_MAX - 1 <= c * m <= INT_MAX
    ensures CRem(c * m, n) == CRem(Pow(m, i + 1), n)
  {
    assert Pow(m, i + 1) == Pow(m, i) * m;
    if i > 0 {
      CRemMul(Pow(m, i), m, n);
      AbsMul(c, m);
      MulLe(Abs(c), Abs(m), Abs(n) - 1, Abs(m));
    }
  }

  /** The iterations a loop `for (i = 0; i < e; i++)` performs. */
  function Times(e: int): nat {
    if e > 0 then e else 0
  }

  method Encrypt(M: int32, e: int32, n: int32) returns (C: int32)
    requires n != 0 && (Abs(n) - 1) * Abs(M) <= INT_MAX
    ensures C == CRem(Pow(M, Times(e)), n)
  {
    C := 1;
    var i: int32 := 0;
    while i < e
      invariant 0 <= i <= Times(e)
      invariant if i == 0 then C == 1 else C == CRem(Pow(M, i), n)
    {
      PowerStep(C, M, i, n);
      var product: int32 := C * M;
      C := CRem(product, n);
      i := i + 1;
    }
    CRemIdempotent(Pow(M, i), n);
    C := CRem(C, n);
  }

  method Decrypt(C: int32, d: int32, n: int32) returns (M: int32)
    requires n != 0 && (Abs(n) - 1) * Abs(C) <= INT_MAX
    ensures M == CRem(Pow(C, Times(d)), n)
  {
    M := 1;
    var i: int32 := 0;
    while i < d
      invariant 0 <= i <= Times(d)
      invariant if i == 0 then M == 1 else M == CRem(Pow(C, i), n)
    {
      PowerStep(M, C, i, n);
      var product: int32 := M * C;
      M := CRem(product, n);
      i := i + 1;
    }
    CRemIdempotent(Pow(C, i), n);
    M := CRem(M, n);
  }

  lemma CRemIdempotent(a: int, n: int)
    requires n != 0
    ensures CRem(CRem(a, n), n) == CRem(a, n)
  {
    CRemMul(a, 1, n);
  }

  // ---------------------------------------------------------------- The round trip

  /** Raising to `x` and then to `y` modulo `n` gives `m` back. */
  ghost predicate RoundTrips(m: int, x: nat, y: nat, n: int)
    requires n > 0
  {
    Pow(Pow(m, x) % n, y) % n == m
  }

  /** Modulo one prime, an exponent congruent to 1 modulo a multiple of p - 1 is the identity. */
  lemma IdentityModPrime(p: int, m: nat, x: nat, t: int, w: int)
    requires IsPrime(p) && w > 0 && t == w * (p - 1)
    requires t > 0 && x % t == 1 % t && x >= 1
    ensures Pow(m, x) % p == m % p
  {
    SameRemainder(x, 1, t);
    var k := (x - 1) / t;
    assert x == 1 + k * t;
    assert k * t == (k * w) * (p - 1);
    FermatIterated(p, m, k * w);
  }

  /** Decrypting an encryption gives the message back, including messages sharing a factor with n. */
  lemma RoundTrip(p: int, q: int, x: nat, y: nat, m: nat)
    requires IsPrime(p) && IsPrime(q) && p != q
    requires x >= 1 && y >= 1 && (x * y) % ((p - 1) * (q - 1)) == 1
    requires m < p * q
    ensures RoundTrips(m, x, y, p * q)
  {
    var n, phi := p * q, (p - 1) * (q - 1);
    PowMod(Pow(m, x), y, n);
    PowPow(m, x, y);
    ProductIdentity(p, q, x * y, m);
    DivModUnique(m, n, 0, m);
  }

  lemma ProductIdentity(p: int, q: int, z: nat, m: nat)
    requires IsPrime(p) && IsPrime(q) && p != q
    requires z % ((p - 1) * (q - 1)) == 1
    ensures p * q > 0 && Pow(m, z) % (p * q) == m % (p * q)
  {
    var phi := (p - 1) * (q - 1);
    assert phi == (q - 1) * (p - 1);
    assert phi != 1;
    DivModUnique(1, phi, 0, 1);
    assert z != 0;
    IdentityModPrime(p, m, z, phi, q - 1);
    IdentityModPrime(q, m, z, phi, p - 1);
    DistinctPrimesCoprime(q, p);
    Recombine(p, q, Pow(m, z), m);
  }

  /** With p == q the message m == p is lost, unless both exponents are 1: a power is divisible by n. */
  lemma EqualPrimesLoseMessage(p: int, x: nat, y: nat)
    requires IsPrime(p) && x >= 1 && y >= 1 && (x > 1 || y > 1)
    ensures p < p * p && !RoundTrips(p, x, y, p * p)
  {
    var n := p * p;
    if x > 1 {
      PowVanishes(p, x);
      assert Pow(0, y) == 0 * Pow(0, y - 1);
      DivModUnique(0, n, 0, 0);
    } else {
      assert Pow(p, 1) == p * Pow(p, 0);
      DivModUnique(p, n, 0, p);
      PowVanishes(p, y);
    }
  }

  lemma PowVanishes(p: int, x: nat)
    requires p > 0 && x >= 2
    ensures Pow(p, x) % (p * p) == 0
  {
    assert Pow(p, x) == p * (p * Pow(p, x - 2)) == p * p * Pow(p, x - 2);
    DivModUnique(Pow(p, x), p * p, Pow(p, x - 2), 0);
  }

  /**
   The two primality checks do not compare p with q.  Given exponents inverse to
   each other, every message survives exactly when the primes differ, or both
   exponents are 1.
   */
  lemma RoundTripIff(p: int, q: int, e: nat, d: nat)
    requires IsPrime(p) && IsPrime(q) && e >= 1
    requires d >= 1 && (d * e) % ((p - 1) * (q - 1)) == 1
    ensures (forall m: nat :: m < p * q ==> RoundTrips(m, e, d, p * q)) <==> p != q || (e == 1 && d == 1)
  {
    assert d * e == e * d;
    if p != q {
      forall m: nat | m < p * q
        ensures RoundTrips(m, e, d, p * q)
      {
        RoundTrip(p, q, e, d, m);
      }
    } else if e == 1 && d == 1 {
      forall m: nat | m < p * q
        ensures RoundTrips(m, 1, 1, p * q)
      {
        PowOne(m);
        DivModUnique(m, p * q, 0, m);
      }
    } else {
      EqualPrimesLoseMessage(p, e, d);
    }
  }

  lemma PowOne(b: int)
    ensures Pow(b, 1) == b
  {
    assert Pow(b, 1) == b * Pow(b, 0);
  }

  /**
   With the key that the search leaves, every message survives exactly when the
   primes differ and the exponent is not 1.  The exponent 1 passes the check,
   and its key is 0: whatever is decrypted becomes 1.
   */
  lemma ProgramRoundTripIff(p: int, q: int, e: nat, k: nat)
    requires IsPrime(p) && IsPrime(q) && 1 <= e < (p - 1) * (q - 1)
    requires StopsAfter(e, (p - 1) * (q - 1), k)
    ensures (forall m: nat :: m < p * q ==> RoundTrips(m, e, k, p * q)) <==> p != q && e != 1
  {
    var phi := (p - 1) * (q - 1);
    StopIsLeastInverse(e, phi, k);
    DivModUnique(e, phi, 0, e);
    if e == 1 {
      KeyZeroLosesMessage(p, q, e);
    } else {
      RoundTripIff(p, q, e, k);
    }
  }

  lemma KeyZeroLosesMessage(p: int, q: int, e: nat)
    requires p >= 2 && q >= 2
    ensures 0 < p * q && !RoundTrips(0, e, 0, p * q)
  {
    MulLe(2, 2, p, q);
    assert Pow(Pow(0, e) % (p * q), 0) == 1;
    DivModUnique(1, p * q, 0, 1);
  }

  /** Encryption permutes the messages, and decryption is its inverse on both sides. */
  lemma EncryptionIsPermutation(p: int, q: int, e: nat, d: nat, m: nat, m': nat)
    requires IsPrime(p) && IsPrime(q) && p != q && e >= 1
    requires d >= 1 && (d * e) % ((p - 1) * (q - 1)) == 1
    requires m < p * q && m' < p * q
    ensures Pow(m, e) % (p * q) == Pow(m', e) % (p * q) ==> m == m'
    ensures RoundTrips(m, d, e, p * q)
  {
    assert d * e == e * d;
    RoundTrip(p, q, e, d, m);
    RoundTrip(p, q, e, d, m');
    RoundTrip(p, q, d, e, m);
  }

  // ---------------------------------------------------------------- The whole program

  datatype Outcome =
    | Rejected
    | Session(n: int32, phi: int32, d: int32, ciphertext: int32, plaintext: int32)

  /** Every product of the session fits, given that (n - 1)^2 does. */
  lemma PipelineFits(p: int, q: int, n: int, phi: int, x: int)
    requires p >= 2 && q >= 2 && n == p * q && phi == (p - 1) * (q - 1)
    requires (n - 1) * (n - 1) <= INT_MAX && 0 <= x < n
    ensures 1 <= phi < n <= INT_MAX
    ensures (n - 1) * x <= INT_MAX && (phi - 1) * x <= INT_MAX
  {
    assert phi == n - p - q + 1;
    MulLe(2, 2, p, q);
    MulLe(1, 1, p - 1, q - 1);
    MulLe(1, n - 1, n - 1, n - 1);
    MulLe(n - 1, x, n - 1, n - 1);
    MulLe(phi - 1, x, n - 1, n - 1);
  }

  /**
   One session on given inputs.  A rejected number is asked for again by the
   program, so a session runs to its end only on accepted inputs.
   */
  method SoftwareEncrypt(p: int32, q: int32, e: int32, M: int32, C: int32) returns (r: Outcome)
    requires p >= 2 && q >= 2 && e >= 1
    requires (p * q - 1) * (p * q - 1) <= INT_MAX
    requires e != 1 ==> !Divides(e, (p - 1) * (q - 1))
    requires 0 <= M < p * q && 0 <= C < p * q
    ensures r.Session? <==> IsPrime(p) && IsPrime(q) && (e == 1 || IsPrime(e)) && e < (p - 1) * (q - 1)
    ensures r.Session? ==> r.n == p * q && r.phi == (p - 1) * (q - 1)
    ensures r.Session? ==> if e == 1 then r.d == 0 else IsLeastInverse(r.d, e, r.phi)
    ensures r.Session? ==> r.ciphertext == Pow(M, e) % r.n && r.plaintext == Pow(C, r.d) % r.n
    ensures r.Session? && p != q && e != 1 && C == r.ciphertext ==> r.plaintext == M
    ensures r.Session? && e == 1 ==> r.plaintext == 1
  {
    PipelineFits(p, q, p * q, (p - 1) * (q - 1), M);
    PipelineFits(p, q, p * q, (p - 1) * (q - 1), C);
    var primeConfirm1 := PrimeChecker(p);
    var primeConfirm2 := PrimeChecker(q);
    if primeConfirm1 == 0 || primeConfirm2 == 0 {
      return Rejected;
    }
    var n: int32 := p * q;
    var phi: int32 := (p - 1) * (q - 1);
    var valid := EChecker(e, phi);
    if valid == 0 {
      return Rejected;
    }
    PipelineFits(p, q, n, phi, e);
    if e != 1 {
      PrimeCoprime(e, phi);
    }
    var d, ciphertext, plaintext := UseKeys(n, phi, e, M, C);
    if e == 1 {
      DivModUnique(1, n, 0, 1);
    } else if p != q {
      RoundTripIff(p, q, e, d);
      assert RoundTrips(M, e, d, n);
    }
    r := Session(n, phi, d, ciphertext, plaintext);
  }

  /** The part of a session after its inputs are accepted. */
  method UseKeys(n: int32, phi: int32, e: int32, M: int32, C: int32)
    returns (d: int32, ciphertext: int32, plaintext: int32)
    requires 1 <= e < phi < n && Coprime(e, phi)
    requires (phi - 1) * e <= INT_MAX && (n - 1) * M <= INT_MAX && (n - 1) * C <= INT_MAX
    requires 0 <= M < n && 0 <= C < n
    ensures if e == 1 then d == 0 else IsLeastInverse(d, e, phi)
    ensures ciphertext == Pow(M, e) % n && plaintext == Pow(C, d) % n
  {
    DivModUnique(e, phi, 0, e);
    d := KeySearch(e, phi);
    ciphertext := Encrypt(M, e, n);
    plaintext := Decrypt(C, d, n);
    PowNonNegative(M, e);
    PowNonNegative(C, d);
  }

  lemma {:induction false} PowNonNegative(b: nat, e: nat)
    ensures Pow(b, e) >= 0
  {
    if e > 0 {
      PowNonNegative(b, e - 1);
    }
  }
}
