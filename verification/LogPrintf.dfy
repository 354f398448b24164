/**
 Integer conversion of the logging printf: sign, padding to a width with spaces
 or zeros, and digits in base 8, 10 or 16.
 */
module LogPrintf {
  import opened NumberTheory
  import opened Numerals

  const WORD := 0x1_0000_0000
  const SIGN_BIT := 0x8000_0000

  type word = x: int | 0 <= x < WORD

  /** What the scanner has gathered when it reaches the letter of an integer conversion. */
  datatype Conversion = Conversion(base: nat, signed: bool, upper: bool, leadingZero: bool, width: int)

  predicate Supported(c: Conversion) {
    c.base == 8 || c.base == 10 || c.base == 16
  }

  // ---------------------------------------------------------------- What should be printed

  /** The number that the argument's 32 bits stand for. */
  function Meaning(v: word, signed: bool): int {
    if signed && v >= SIGN_BIT then v - WORD else v
  }

  /** It is the one number in the range of the type that has these low 32 bits. */
  lemma MeaningIs(v: word, signed: bool, x: int)
    ensures Meaning(v, signed) == x <==>
            x % WORD == v && if signed then -SIGN_BIT <= x < SIGN_BIT else 0 <= x < WORD
  {
  }

  function Magnitude(v: word, signed: bool): nat {
    var m := Meaning(v, signed);
    if m < 0 then -m else m
  }

  function Blanks(v: word, c: Conversion): nat
    requires Supported(c)
  {
    var used := |Digits(Magnitude(v, c.signed), c.base)| + if Meaning(v, c.signed) < 0 then 1 else 0;
    if c.width > used then c.width - used else 0
  }

  function Layout(v: word, c: Conversion): string
    requires Supported(c)
  {
    var sign := if Meaning(v, c.signed) < 0 then "-" else "";
    var digits := Text(Digits(Magnitude(v, c.signed), c.base), c.upper);
    if c.leadingZero then sign + Repeated('0', Blanks(v, c)) + digits
    else Repeated(' ', Blanks(v, c)) + sign + digits
  }

  function Repeated(ch: char, n: nat): (s: string)
    ensures |s| == n && forall i :: 0 <= i < n ==> s[i] == ch
  {
    seq(n, _ => ch)
  }

  /** Reads a printed number: spaces, an optional minus sign, digits. */
  function ReadBack(s: string, base: nat): int {
    if s == [] then 0
    else if s[0] == ' ' then ReadBack(s[1..], base)
    else if s[0] == '-' then 0 - Value(Read(s[1..]), base) as int
    else Value(Read(s), base)
  }

  // ---------------------------------------------------------------- The layout is right

  lemma {:induction false} SkipSpaces(n: nat, s: string, base: nat)
    ensures ReadBack(Repeated(' ', n) + s, base) == ReadBack(s, base)
  {
    var all := Repeated(' ', n) + s;
    if n == 0 {
      assert all == s;
    } else {
      assert all[1..] == Repeated(' ', n - 1) + s;
      SkipSpaces(n - 1, s, base);
    }
  }

  /** Zeros before the digits are read as digits and change nothing. */
  lemma ReadZeros(n: nat, v: nat, base: nat, upper: bool)
    requires 2 <= base <= 16
    ensures Value(Read(Repeated('0', n) + Text(Digits(v, base), upper)), base) == v
  {
    var ds := Digits(v, base);
    var s := Repeated('0', n) + Text(ds, upper);
    ReadText(ds, upper);
    assert Read(s) == seq(n, _ => 0) + ds by {
      forall i | 0 <= i < |s|
        ensures Read(s)[i] == (seq(n, _ => 0) + ds)[i]
      {
        if i >= n {
          assert s[i] == Text(ds, upper)[i - n];
          assert Read(Text(ds, upper))[i - n] == ds[i - n];
        }
      }
    }
    ValueOfPadded(n, ds, base);
    ValueOfDigits(v, base);
  }

  lemma UnsignedReadBack(n: nat, v: nat, base: nat, upper: bool)
    requires 2 <= base <= 16
    ensures ReadBack(Repeated('0', n) + Text(Digits(v, base), upper), base) == v
  {
    var ds := Digits(v, base);
    var s := Repeated('0', n) + Text(ds, upper);
    ReadZeros(n, v, base, upper);
    assert s[0] == if n > 0 then '0' else DigitChar(ds[0], upper);
    assert s[0] != ' ' && s[0] != '-';
  }

  /**
   For every 32-bit argument, signedness and base, reading the printed text
   gives back the number it stands for, -2^31 included: the one congruent to the
   argument in the range of its type.
   */
  lemma PrintedReadsBack(v: word, c: Conversion)
    requires Supported(c)
    ensures var x := ReadBack(Layout(v, c), c.base);
            && x == Meaning(v, c.signed) && x % WORD == v
            && if c.signed then -SIGN_BIT <= x < SIGN_BIT else 0 <= x < WORD
  {
    MeaningIs(v, c.signed, Meaning(v, c.signed));
    hide Digits, Blanks, Layout;
    var m := Magnitude(v, c.signed);
    var zeros := if c.leadingZero then Blanks(v, c) else 0;
    var spaces := if c.leadingZero then 0 else Blanks(v, c);
    var body := Repeated('0', zeros) + Text(Digits(m, c.base), c.upper);
    var signed_ := (if Meaning(v, c.signed) < 0 then "-" else "") + body;
    LayoutParts(v, c, zeros, spaces, body, signed_);
    SkipSpaces(spaces, signed_, c.base);
    if Meaning(v, c.signed) < 0 {
      assert signed_[1..] == body;
      ReadZeros(zeros, m, c.base, c.upper);
    } else {
      assert signed_ == body;
      UnsignedReadBack(zeros, m, c.base, c.upper);
    }
  }

  lemma LayoutParts(v: word, c: Conversion, zeros: nat, spaces: nat, body: string, signed_: string)
    requires Supported(c)
    requires zeros == (if c.leadingZero then Blanks(v, c) else 0) && spaces == (if c.leadingZero then 0 else Blanks(v, c))
    requires body == Repeated('0', zeros) + Text(Digits(Magnitude(v, c.signed), c.base), c.upper)
    requires signed_ == (if Meaning(v, c.signed) < 0 then "-" else "") + body
    ensures Layout(v, c) == Repeated(' ', spaces) + signed_
  {
    hide Digits, Blanks, Magnitude, Meaning;
    var digits := Text(Digits(Magnitude(v, c.signed), c.base), c.upper);
    NoneRepeated('0');
    NoneRepeated(' ');
    if c.leadingZero {
      assert "" + signed_ == signed_;
    } else {
      assert "" + digits == digits;
    }
  }

  lemma NoneRepeated(ch: char)
    ensures Repeated(ch, 0) == ""
  {
  }

  /** The text fills the width and is no longer than sign and shortest numeral need. */
  lemma PrintedLength(v: word, c: Conversion)
    requires Supported(c)
    ensures var shortest := |Digits(Magnitude(v, c.signed), c.base)| + if Meaning(v, c.signed) < 0 then 1 else 0;
            |Layout(v, c)| == if c.width > shortest then c.width else shortest
    ensures Canonical(Digits(Magnitude(v, c.signed), c.base), c.base)
  {
    DigitsCanonical(Magnitude(v, c.signed), c.base);
  }

  /** The characters a conversion may print, spaces apart. */
  predicate Printable(ch: char, upper: bool) {
    ch == '-' || '0' <= ch <= '9' || (if upper then 'A' <= ch <= 'F' else 'a' <= ch <= 'f')
  }

  /** `spaces` spaces, then a minus sign exactly for a negative number, then digits. */
  predicate Shaped(s: string, spaces: nat, negative: bool, upper: bool) {
    && spaces < |s|
    && (forall i :: 0 <= i < spaces ==> s[i] == ' ')
    && (forall i :: spaces <= i < |s| ==> Printable(s[i], upper))
    && (s[spaces] == '-' <==> negative)
    && (forall i :: spaces < i < |s| ==> s[i] != '-')
  }

  /**
   Padding is zeros between sign and digits, or spaces before both; the letters
   are of the case asked for.
   */
  lemma PrintedShape(v: word, c: Conversion)
    requires Supported(c)
    ensures Shaped(Layout(v, c), if c.leadingZero then 0 else Blanks(v, c), Meaning(v, c.signed) < 0, c.upper)
  {
    var ds := Digits(Magnitude(v, c.signed), c.base);
    var zeros := if c.leadingZero then Blanks(v, c) else 0;
    var spaces := if c.leadingZero then 0 else Blanks(v, c);
    hide Digits, Magnitude, Meaning, Layout, Text, Repeated, Blanks, Printable, Shaped;
    var negative := Meaning(v, c.signed) < 0;
    LayoutParts(v, c, zeros, spaces, Repeated('0', zeros) + Text(ds, c.upper),
                (if negative then "-" else "") + (Repeated('0', zeros) + Text(ds, c.upper)));
    ConversionShape(spaces, negative, zeros, ds, c.upper);
  }

  lemma ConversionShape(spaces: nat, negative: bool, zeros: nat, ds: seq<nat>, upper: bool)
    requires |ds| > 0 && forall i :: 0 <= i < |ds| ==> ds[i] < 16
    ensures Shaped(Repeated(' ', spaces) + ((if negative then "-" else "") + (Repeated('0', zeros) + Text(ds, upper))),
                   spaces, negative, upper)
  {
    hide Text, Repeated, Printable, Shaped;
    BodyPrintable(zeros, ds, upper);
    PaddedShape(spaces, if negative then "-" else "", Repeated('0', zeros) + Text(ds, upper), upper);
  }

  /** After spaces nothing but the sign and the shortest numeral is printed. */
  lemma PrintedAfterSpaces(v: word, c: Conversion)
    requires Supported(c) && !c.leadingZero
    ensures Layout(v, c)[Blanks(v, c)..] ==
            (if Meaning(v, c.signed) < 0 then "-" else "") + Text(Digits(Magnitude(v, c.signed), c.base), c.upper)
  {
    hide Digits, Magnitude, Meaning, Text, Blanks;
  }

  lemma BodyPrintable(zeros: nat, ds: seq<nat>, upper: bool)
    requires forall i :: 0 <= i < |ds| ==> ds[i] < 16
    ensures var body := Repeated('0', zeros) + Text(ds, upper);
            |body| == zeros + |ds| && forall i :: 0 <= i < |body| ==> Printable(body[i], upper) && body[i] != '-'
  {
    var digits := Text(ds, upper);
    forall i | 0 <= i < |digits|
      ensures Printable(digits[i], upper) && digits[i] != '-'
    {
      assert digits[i] == DigitChar(ds[i], upper);
    }
  }

  lemma PaddedShape(spaces: nat, sign: string, body: string, upper: bool)
    requires (sign == "" || sign == "-") && |body| > 0
    requires forall i :: 0 <= i < |body| ==> Printable(body[i], upper) && body[i] != '-'
    ensures var s := Repeated(' ', spaces) + (sign + body);
            Shaped(s, spaces, sign == "-", upper)
  {
    var s, rest := Repeated(' ', spaces) + (sign + body), sign + body;
    forall i | spaces <= i < |s|
      ensures Printable(s[i], upper) && (i > spaces ==> s[i] != '-')
    {
      assert s[i] == rest[i - spaces];
    }
    assert s[spaces] == rest[0];
  }

  // ---------------------------------------------------------------- The routine

  /** `alt_log_repchar`: nothing for a count of zero or less. */
  method RepeatChar(ch: char, count: int) returns (s: string)
    ensures s == Repeated(ch, if count > 0 then count else 0)
  {
    s := "";
    var r := count;
    while r > 0
      invariant r <= count || count <= 0
      invariant count > 0 ==> r >= 0 && s == Repeated(ch, count - r)
      invariant count <= 0 ==> r == count && s == ""
    {
      s := s + [ch];
      r := r - 1;
    }
  }

  /** Counts the digits of `v` and finds the place value of the first. */
  method CountDigits(v: word, base: nat) returns (p: word, digitCount: nat)
    requires base == 8 || base == 10 || base == 16
    ensures digitCount == |Digits(v, base)|
    ensures p == Pow(base, digitCount - 1) && v < Pow(base, digitCount) && (v >= p || digitCount == 1)
  {
    hide Digits, Pow, Head;
    p, digitCount := 1, 1;
    HeadOfZero(v, base);
    HeadStep(v, base, 0);
    var shrink := v / base;
    while shrink > 0
      invariant digitCount >= 1 && p == Pow(base, digitCount - 1)
      invariant v >= p || digitCount == 1
      invariant shrink == Head(v, base, digitCount)
      invariant |Digits(v, base)| == digitCount - 1 + |Digits(Head(v, base, digitCount - 1), base)|
      decreases shrink
    {
      CountStep(v, base, digitCount - 1);
      digitCount := digitCount + 1;
      p := p * base;
      shrink := shrink / base;
    }
    DigitsStep(v, base, digitCount - 1);
    HeadStep(v, base, digitCount);
  }

  lemma CountStep(v: nat, base: nat, k: nat)
    requires base >= 2 && Head(v, base, k + 1) > 0
    ensures Pow(base, k) * base == Pow(base, k + 1) && v >= Pow(base, k + 1) >= 1
    ensures Head(v, base, k + 1) / base == Head(v, base, k + 2) < Head(v, base, k + 1)
    ensures |Digits(Head(v, base, k), base)| == 1 + |Digits(Head(v, base, k + 1), base)|
  {
    hide Digits, Pow, Head;
    PowStep(base, k);
    HeadStep(v, base, k + 1);
    DigitsStep(v, base, k);
    var h := Head(v, base, k + 1);
    if h >= base {
      QuotientSmaller(h, base);
    } else {
      DivModUnique(h, base, 0, h);
    }
  }

  /** The digits of `v0` from the place value `p0` of the first one down. */
  method PrintDigits(v0: word, p0: word, base: nat, upper: bool, ghost digitCount: nat) returns (s: string)
    requires base == 8 || base == 10 || base == 16
    requires digitCount >= 1 && p0 == Pow(base, digitCount - 1)
    requires v0 < Pow(base, digitCount) && (v0 >= p0 || digitCount == 1)
    ensures s == Text(Digits(v0, base), upper)
  {
    hide Digits, Pow, Head, Low;
    var v, p := v0, p0;
    ghost var k: int := digitCount - 1;
    s := "";
    LowOfAll(v0, base, digitCount);
    PlaceDown(base, digitCount - 1);
    while p > 0
      invariant -1 <= k <= digitCount - 1
      invariant p == if k < 0 then 0 else Pow(base, k)
      invariant v == Low(v0, base, k + 1)
      invariant k == digitCount - 1 ==> v0 < Pow(base, k + 1)
      invariant 0 <= k < digitCount - 1 ==> v0 >= Pow(base, k + 1)
      invariant s == if k == digitCount - 1 then "" else Text(Digits(Head(v0, base, k + 1), base), upper)
      decreases k + 1
    {
      HeadStep(v0, base, k);
      DigitsStep(v0, base, k);
      PlaceDown(base, k);
      var d := v / p;
      s := s + [DigitChar(d, upper)];
      assert s == Text(Digits(Head(v0, base, k), base), upper);
      v := v % p;
      p := p / base;
      k := k - 1;
    }
    PowPositive(base, if k >= 0 then k else 0);
    HeadOfZero(v0, base);
  }

  method PrintInteger(argument: word, c: Conversion) returns (s: string)
    requires Supported(c)
    ensures s == Layout(argument, c)
  {
    hide Digits, Pow, Meaning, Magnitude, Layout, Lead, Text;
    var v, sign := StripSign(argument, c.signed);
    var p, digitCount := CountDigits(v, c.base);
    var lead := PrintLead(c, sign, digitCount);
    var digits := PrintDigits(v, p, c.base, c.upper, digitCount);
    s := lead + digits;
    LayoutIs(argument, c, lead, digits, digitCount, sign);
  }

  /** Two's complement of a negative argument. */
  method StripSign(argument: word, signed: bool) returns (v: word, sign: bool)
    ensures v == Magnitude(argument, signed) && sign == (Meaning(argument, signed) < 0)
  {
    v, sign := argument, false;
    if signed && v >= SIGN_BIT {
      v := (WORD - 1 - v + 1) % WORD;
      sign := true;
    }
  }

  lemma LayoutIs(v: word, c: Conversion, lead: string, digits: string, digitCount: nat, sign: bool)
    requires Supported(c) && sign == (Meaning(v, c.signed) < 0)
    requires digits == Text(Digits(Magnitude(v, c.signed), c.base), c.upper) && digitCount == |digits|
    requires lead == Lead(c, sign, digitCount)
    ensures lead + digits == Layout(v, c)
  {
    hide Digits, Magnitude, Meaning;
  }

  /** What precedes the digits. */
  function Lead(c: Conversion, sign: bool, digitCount: nat): string {
    var used := digitCount + if sign then 1 else 0;
    var blanks := if c.width > used then c.width - used else 0;
    if c.leadingZero then (if sign then "-" else "") + Repeated('0', blanks)
    else Repeated(' ', blanks) + if sign then "-" else ""
  }

  /** Leading characters and sign. */
  method PrintLead(c: Conversion, sign: bool, digitCount: nat) returns (s: string)
    ensures s == Lead(c, sign, digitCount)
  {
    var width := c.width - digitCount;
    if c.leadingZero {
      s := "";
      if sign {
        s := "-";
        width := width - 1;
      }
      var zeros := RepeatChar('0', width);
      s := s + zeros;
    } else {
      if sign {
        width := width - 1;
      }
      s := RepeatChar(' ', width);
      if sign {
        s := s + "-";
      }
    }
  }
}
