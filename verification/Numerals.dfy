/**
 Positional numerals, most significant digit first, as an independent
 reference for what the two printf routines emit.
 */
module Numerals {
  import opened NumberTheory

  /** The shortest numeral of a value. */
  function Digits(v: nat, base: nat): (ds: seq<nat>)
    requires base >= 2
    ensures |ds| >= 1 && forall i :: 0 <= i < |ds| ==> ds[i] < base
  {
    if v < base then [v]
    else
      QuotientSmaller(v, base);
      Digits(v / base, base) + [v % base]
  }

  lemma QuotientSmaller(v: nat, base: nat)
    requires 2 <= base <= v
    ensures 1 <= v / base < v
  {
    DivisionParts(v, base);
    var q := v / base;
    assert q != 0;
    MulAtLeast(q, base - 1);
    assert q * base == (base - 1) * q + q;
  }

  lemma DivisionParts(v: nat, base: nat)
    requires base > 0
    ensures v == (v / base) * base + v % base && 0 <= v % base < base && v / base >= 0
  {
  }

  function Value(ds: seq<nat>, base: nat): nat {
    if ds == [] then 0 else Value(ds[..|ds| - 1], base) * base + ds[|ds| - 1]
  }

  /** No leading zero, except in the numeral of zero itself. */
  predicate Canonical(ds: seq<nat>, base: nat) {
    && |ds| >= 1
    && (forall i :: 0 <= i < |ds| ==> ds[i] < base)
    && (ds[0] == 0 ==> |ds| == 1)
  }

  lemma {:induction false} ValueOfDigits(v: nat, base: nat)
    requires base >= 2
    ensures Value(Digits(v, base), base) == v
  {
    var ds := Digits(v, base);
    if v < base {
      assert ds[..0] == [];
    } else {
      QuotientSmaller(v, base);
      ValueOfDigits(v / base, base);
      assert ds[..|ds| - 1] == Digits(v / base, base);
      DivisionParts(v, base);
    }
  }

  lemma {:induction false} DigitsCanonical(v: nat, base: nat)
    requires base >= 2
    ensures Canonical(Digits(v, base), base)
    ensures Digits(v, base)[0] == 0 ==> v == 0
  {
    if v >= base {
      QuotientSmaller(v, base);
      DigitsCanonical(v / base, base);
    }
  }

  /** A canonical numeral is determined by its value. */
  lemma {:induction false} CanonicalUnique(ds: seq<nat>, base: nat)
    requires base >= 2 && Canonical(ds, base)
    ensures ds == Digits(Value(ds, base), base)
  {
    var n := |ds| - 1;
    var init, last := ds[..n], ds[n];
    var v := Value(ds, base);
    DivModUnique(v, base, Value(init, base), last);
    if n == 0 {
      assert init == [];
    } else {
      CanonicalUnique(init, base);
      LeadingDigit(init, base);
      MulAtLeast(base, Value(init, base));
    }
  }

  lemma {:induction false} LeadingDigit(ds: seq<nat>, base: nat)
    requires base >= 2 && |ds| >= 1 && ds[0] > 0
    ensures Value(ds, base) >= 1
  {
    if |ds| > 1 {
      LeadingDigit(ds[..|ds| - 1], base);
    }
  }

  /** Leading zeros do not change a value. */
  lemma {:induction false} ValueOfPadded(zeros: nat, ds: seq<nat>, base: nat)
    ensures Value(seq(zeros, _ => 0) + ds, base) == Value(ds, base)
  {
    var all := seq(zeros, _ => 0) + ds;
    if ds != [] {
      ValueOfPadded(zeros, ds[..|ds| - 1], base);
      assert all[..|all| - 1] == seq(zeros, _ => 0) + ds[..|ds| - 1];
    } else if zeros > 0 {
      ValueOfPadded(zeros - 1, [], base);
      assert all[..|all| - 1] == seq(zeros - 1, _ => 0) + [];
    }
  }

  // ---------------------------------------------------------------- Digit places

  lemma {:induction false} PowPositive(base: nat, k: nat)
    requires base >= 1
    ensures Pow(base, k) >= 1
  {
    if k > 0 {
      PowPositive(base, k - 1);
    }
  }

  /** Division by a product is repeated division. */
  lemma DivDiv(v: nat, a: nat, b: nat)
    requires a > 0 && b > 0
    ensures a * b > 0 && v / (a * b) == (v / a) / b
    ensures (v % (a * b)) / a == (v / a) % b
    ensures (v % (a * b)) % a == v % a
  {
    var q, r := v / a, v % a;
    var Q, R := q / b, q % b;
    DivisionParts(v, a);
    DivisionParts(q, b);
    PlaceBelow(R, b, r, a);
    RegroupPlaces(Q, R, a, b, r);
    DivModUnique(v, a * b, Q, R * a + r);
    DivModUnique(R * a + r, a, R, r);
  }

  lemma RegroupPlaces(Q: int, R: int, a: int, b: int, r: int)
    ensures (Q * b + R) * a + r == Q * (a * b) + (R * a + r)
  {
    assert (Q * b + R) * a == Q * b * a + R * a;
    assert Q * b * a == Q * (a * b);
  }

  lemma PlaceBelow(R: nat, b: nat, r: nat, a: nat)
    requires R < b && r < a
    ensures 0 <= R * a + r < a * b
  {
    assert a * b == (b - 1 - R) * a + R * a + a;
    assert (b - 1 - R) * a >= 0;
  }

  /** The digit at the place worth `p` extends the numeral of the more significant ones. */
  lemma DigitsPlace(v: nat, base: nat, p: nat)
    requires base >= 2 && p >= 1
    ensures p * base >= 1
    ensures v >= p * base ==> Digits(v / p, base) == Digits(v / (p * base), base) + [v / p % base]
    ensures v < p * base ==> Digits(v / p, base) == [v / p] && v / p % base == v / p
  {
    DivDiv(v, p, base);
    var q := v / p;
    QuotientBelow(v, p, base, q);
    if q < base {
      DivModUnique(q, base, 0, q);
    }
  }

  lemma QuotientBelow(v: nat, p: nat, base: nat, q: nat)
    requires p > 0 && base > 0 && q == v / p
    ensures v < p * base <==> q < base
  {
    DivisionParts(v, p);
    if q >= base {
      assert q * p == (q - base) * p + p * base;
      assert (q - base) * p >= 0;
    } else {
      PlaceBelow(q, base, v % p, p);
    }
  }

  /** The part of a value above its lowest `k` digits. */
  function Head(v: nat, base: nat, k: nat): nat
    requires base >= 1
  {
    PowPositive(base, k);
    v / Pow(base, k)
  }

  /** The part of a value in its lowest `k` digits. */
  function Low(v: nat, base: nat, k: nat): nat
    requires base >= 1
  {
    PowPositive(base, k);
    v % Pow(base, k)
  }

  lemma HeadOfZero(v: nat, base: nat)
    requires base >= 1
    ensures Pow(base, 0) == 1 && Head(v, base, 0) == v
  {
  }

  lemma LowOfAll(v: nat, base: nat, k: nat)
    requires base >= 1 && v < Pow(base, k)
    ensures Low(v, base, k) == v
  {
    DivModUnique(v, Pow(base, k), 0, v);
  }

  lemma PowStep(base: nat, k: nat)
    ensures Pow(base, k + 1) == Pow(base, k) * base
  {
  }

  /** Dividing a place value goes one place down, and from the lowest to zero. */
  lemma PlaceDown(base: nat, k: nat)
    requires base >= 2
    ensures Pow(base, k) >= 1
    ensures Pow(base, k) / base == if k == 0 then 0 else Pow(base, k - 1)
    ensures k > 0 ==> Pow(base, k) >= Pow(base, k - 1) >= 1
  {
    PowPositive(base, k);
    if k == 0 {
      DivModUnique(1, base, 0, 1);
    } else {
      PowPositive(base, k - 1);
      PowStep(base, k - 1);
      DivModUnique(Pow(base, k), base, Pow(base, k - 1), 0);
      MulAtLeast(Pow(base, k - 1), base);
    }
  }

  lemma HeadStep(v: nat, base: nat, k: nat)
    requires base >= 2
    ensures Pow(base, k) >= 1
    ensures Head(v, base, k) / base == Head(v, base, k + 1)
    ensures Low(v, base, k + 1) / Pow(base, k) == Head(v, base, k) % base
    ensures Low(v, base, k + 1) % Pow(base, k) == Low(v, base, k)
    ensures Head(v, base, k) == 0 <==> v < Pow(base, k)
  {
    hide Pow;
    PowPositive(base, k);
    PowStep(base, k);
    DivDiv(v, Pow(base, k), base);
    QuotientBelow(v, Pow(base, k), 1, Head(v, base, k));
  }

  /** Digit `k` extends the numeral of the part above it. */
  lemma DigitsStep(v: nat, base: nat, k: nat)
    requires base >= 2
    ensures 0 <= Head(v, base, k) % base < base
    ensures Digits(Head(v, base, k), base) ==
            (if v >= Pow(base, k + 1) then Digits(Head(v, base, k + 1), base) else []) + [Head(v, base, k) % base]
  {
    hide Pow, Digits;
    PowPositive(base, k);
    PowStep(base, k);
    DigitsPlace(v, base, Pow(base, k));
    DivisionParts(Head(v, base, k), base);
  }

  // ---------------------------------------------------------------- Digit characters

  function DigitChar(d: nat, upper: bool): char
    requires d < 16
  {
    if d <= 9 then '0' + d as char else if upper then 'A' + (d - 10) as char else 'a' + (d - 10) as char
  }

  /** The value of a digit character, or 16 for any other. */
  function CharDigit(c: char): nat {
    if '0' <= c <= '9' then (c - '0') as nat
    else if 'a' <= c <= 'f' then (c - 'a') as nat + 10
    else if 'A' <= c <= 'F' then (c - 'A') as nat + 10
    else 16
  }

  lemma CharOfDigit(d: nat, upper: bool)
    requires d < 16
    ensures CharDigit(DigitChar(d, upper)) == d
  {
  }

  function Text(ds: seq<nat>, upper: bool): (s: string)
    requires forall i :: 0 <= i < |ds| ==> ds[i] < 16
    ensures |s| == |ds| && forall i :: 0 <= i < |s| ==> s[i] == DigitChar(ds[i], upper)
  {
    seq(|ds|, i requires 0 <= i < |ds| => DigitChar(ds[i], upper))
  }

  function Read(s: string): (ds: seq<nat>)
    ensures |ds| == |s| && forall i :: 0 <= i < |s| ==> ds[i] == CharDigit(s[i])
  {
    seq(|s|, i requires 0 <= i < |s| => CharDigit(s[i]))
  }

  lemma ReadText(ds: seq<nat>, upper: bool)
    requires forall i :: 0 <= i < |ds| ==> ds[i] < 16
    ensures Read(Text(ds, upper)) == ds
  {
    forall i | 0 <= i < |ds|
      ensures Read(Text(ds, upper))[i] == ds[i]
    {
      CharOfDigit(ds[i], upper);
    }
  }
}
