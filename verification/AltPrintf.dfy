/** The `%x` conversion of the minimal printf: hexadecimal without padding. */
module AltPrintf {
  import opened NumberTheory
  import opened Numerals

  const WORD := 0x1_0000_0000

  type word = x: int | 0 <= x < WORD

  /** The four bits of `v` selected by `0xF << 4 * place`, shifted back. */
  function Nibble(v: word, place: nat): nat {
    Head(v, 16, place) % 16
  }

  method PrintHex(v: word) returns (s: string)
    ensures s == Text(Digits(v, 16), false)
  {
    hide Digits, Pow, Head, Nibble;
    s := "";
    if v == 0 {
      ZeroIsOneDigit();
      return "0";
    }
    var place := 7;
    EightNibbles();
    while Nibble(v, place) == 0
      invariant 0 <= place <= 7 && v < Pow(16, place + 1)
      decreases place
    {
      BelowPlace(v, place);
      place := place - 1;
    }
    ghost var top := place;
    TopPlace(v, top);
    while place >= 0
      invariant -1 <= place <= top
      invariant v >= Pow(16, place + 1) <==> place < top
      invariant s == if place == top then "" else Text(Digits(Head(v, 16, place + 1), 16), false)
      decreases place + 1
    {
      NibbleIsDigit(v, place);
      DigitsStep(v, 16, place);
      PlaceDown(16, place);
      PlaceDown(16, place + 1);
      var digit := Nibble(v, place);
      s := s + [if digit <= 9 then '0' + digit as char else 'a' + (digit - 10) as char];
      assert s == Text(Digits(Head(v, 16, place), 16), false);
      if place == top {
        TopPlace(v, place);
      }
      place := place - 1;
    }
    HeadOfZero(v, 16);
  }

  lemma ZeroIsOneDigit()
    ensures Text(Digits(0, 16), false) == "0"
  {
  }

  lemma NibbleIsDigit(v: word, place: nat)
    ensures Nibble(v, place) == Head(v, 16, place) % 16 && Nibble(v, place) < 16
  {
  }

  lemma EightNibbles()
    ensures Pow(16, 8) == WORD
  {
    assert Pow(16, 4) == 16 * (16 * (16 * (16 * Pow(16, 0))));
    PowAdd(16, 4, 4);
  }

  /** A zero nibble at the top place lowers the bound; the lowest nibble of a nonzero value is not zero there. */
  lemma BelowPlace(v: word, place: nat)
    requires v > 0 && v < Pow(16, place + 1) && Nibble(v, place) == 0
    ensures place > 0 && v < Pow(16, place)
  {
    hide Pow, Head;
    HeadStep(v, 16, place);
    HeadStep(v, 16, place + 1);
    HeadOfZero(v, 16);
  }

  /** A nonzero nibble bounds the value from below. */
  lemma TopPlace(v: word, place: nat)
    requires Nibble(v, place) != 0
    ensures v >= Pow(16, place)
  {
    hide Pow, Head;
    HeadStep(v, 16, place);
  }

  /** What is printed is the shortest hexadecimal numeral, in lower case, of exactly this value. */
  lemma HexReadsBack(v: word)
    ensures Value(Read(Text(Digits(v, 16), false)), 16) == v
    ensures Canonical(Digits(v, 16), 16)
    ensures forall i :: 0 <= i < |Text(Digits(v, 16), false)| ==>
              var c := Text(Digits(v, 16), false)[i]; '0' <= c <= '9' || 'a' <= c <= 'f'
  {
    ReadText(Digits(v, 16), false);
    ValueOfDigits(v, 16);
    DigitsCanonical(v, 16);
  }
}
