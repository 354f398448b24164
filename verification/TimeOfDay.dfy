/**
 Wall-clock time on a tick counter: `settimeofday` stores the time of reset,
 `gettimeofday` adds the elapsed ticks to it.  Setting multiplies ticks in 32
 bits, getting in 64.  Seconds are not bounded.
 */
module TimeOfDay {
  import opened NumberTheory

  const WORD := 0x1_0000_0000
  const US := 1000000
  const ENOSYS := 88
  const ENOTSUP := 134

  type word = x: int | 0 <= x < WORD

  datatype TimeVal = TimeVal(sec: int, usec: int)
  datatype TimeZone = TimeZone(minutesWest: int, dstTime: int)

  /** A time as one number of microseconds. */
  function Micros(t: TimeVal): int {
    t.sec * US + t.usec
  }

  predicate Normalised(t: TimeVal) {
    t.sec >= 0 && 0 <= t.usec < US
  }

  /** The whole microseconds in a tick. */
  function PerTick(rate: word): nat
    requires rate > 0
  {
    US / rate
  }

  /** What setting the time to `t` at tick `nticks` stores. */
  function ResetTime(t: TimeVal, nticks: word, rate: word): TimeVal
    requires rate > 0
  {
    TimeVal(t.sec - nticks / rate, t.usec - nticks * PerTick(rate) % WORD % US)
  }

  /** The stored time advanced to tick `nticks`, before it is normalised. */
  function Advanced(reset: TimeVal, nticks: word, rate: word): TimeVal
    requires rate > 0
  {
    TimeVal(reset.sec + nticks / rate, reset.usec + nticks * PerTick(rate) % US)
  }

  class WallClock {
    var resetTime: TimeVal
    var timeZone: TimeZone
    var nticks: word
    var tickRate: word
    var errno: int

    method SetTimeOfDay(t: TimeVal, tz: TimeZone) returns (rc: int)
      modifies this`resetTime, this`timeZone, this`errno
      ensures tickRate == 0 ==> rc == -1 && errno == ENOSYS && resetTime == old(resetTime) && timeZone == old(timeZone)
      ensures tickRate > 0 ==> rc == 0 && resetTime == ResetTime(t, nticks, tickRate) && timeZone == tz
    {
      if tickRate > 0 {
        resetTime := TimeVal(t.sec - nticks / tickRate, t.usec - nticks * (US / tickRate) % WORD % US);
        timeZone := tz;
        return 0;
      }
      errno := ENOSYS;
      return -1;
    }

    /** The time is exact, or zero if it lies before zero and its microseconds had to be borrowed for. */
    method GetTimeOfDay() returns (rc: int, t: TimeVal, tz: TimeZone)
      ensures tickRate == 0 ==> rc == -ENOTSUP
      ensures tickRate > 0 ==>
                var raw := Advanced(resetTime, nticks, tickRate);
                && rc == 0 && tz == timeZone && 0 <= t.usec < US
                && Micros(t) == Shown(raw)
    {
      t, tz := TimeVal(0, 0), TimeZone(0, 0);
      if tickRate > 0 {
        ghost var raw := Advanced(resetTime, nticks, tickRate);
        var sec := resetTime.sec + nticks / tickRate;
        var usec := resetTime.usec + nticks * (US / tickRate) % US;
        assert TimeVal(sec, usec) == raw;
        while usec < 0
          invariant Micros(TimeVal(sec, usec)) == Micros(raw)
          invariant if raw.usec >= 0 then usec == raw.usec else usec < US && (usec >= 0 ==> sec >= 0)
          decreases -usec
        {
          if sec <= 0 {
            sec, usec := 0, 0;
            break;
          } else {
            sec, usec := sec - 1, usec + US;
          }
        }
        while usec >= US
          invariant usec >= 0
          invariant if Clamps(raw) then sec == usec == 0 else Micros(TimeVal(sec, usec)) == Micros(raw)
          decreases usec
        {
          sec, usec := sec + 1, usec - US;
        }
        return 0, TimeVal(sec, usec), timeZone;
      }
      rc := -ENOTSUP;
    }
  }

  /** Borrowing reaches zero seconds with microseconds still missing. */
  predicate Clamps(raw: TimeVal) {
    raw.usec < 0 && Micros(raw) < 0
  }

  /** The microseconds a caller gets. */
  function Shown(raw: TimeVal): int {
    if Clamps(raw) then 0 else Micros(raw)
  }

  // ---------------------------------------------------------------- Setting and getting

  /** When the rate divides a second, whole seconds and the rest together are the elapsed microseconds. */
  lemma TicksAreMicros(n: word, rate: word)
    requires rate > 0 && Divides(rate, US)
    ensures (n / rate) * US + n * PerTick(rate) % US == n * PerTick(rate)
  {
    var k := PerTick(rate);
    var q, r := n / rate, n % rate;
    assert k * rate == US;
    Regroup(q, rate, r, k);
    RestBelow(rate, r, k);
    DivModUnique(n * k, US, q, r * k);
  }

  lemma Regroup(q: int, rate: int, r: int, k: int)
    ensures (q * rate + r) * k == q * (k * rate) + r * k
  {
    assert (q * rate + r) * k == q * rate * k + r * k;
    assert q * rate * k == q * (k * rate);
  }

  lemma RestBelow(rate: int, r: int, k: int)
    requires 0 <= r < rate && k >= 1
    ensures 0 <= r * k < k * rate
  {
    assert k * rate == r * k + (rate - r) * k;
    MulAtLeast(k, rate - r);
    assert r * k >= 0;
  }

  /** What the 32-bit product loses: a multiple of 2^32 microseconds, less whole seconds. */
  function Lost(n: word, rate: word): int
    requires rate > 0
  {
    n * PerTick(rate) % US - n * PerTick(rate) % WORD % US
  }

  lemma AdvancedMicros(t: TimeVal, n0: word, n1: word, rate: word)
    requires rate > 0 && Divides(rate, US)
    ensures Micros(Advanced(ResetTime(t, n0, rate), n1, rate))
            == Micros(t) + (n1 - n0) * PerTick(rate) + Lost(n0, rate)
  {
    TicksAreMicros(n0, rate);
    TicksAreMicros(n1, rate);
    assert (n1 - n0) * PerTick(rate) == n1 * PerTick(rate) - n0 * PerTick(rate);
  }

  /** 5^6 and 2^26 are coprime, so 10^6 divides w * 2^32 exactly when 5^6 divides w. */
  lemma FiveAndTwo(w: int)
    ensures Divides(US, w * WORD) <==> Divides(15625, w)
  {
    var two26 := 0x400_0000;
    assert (12738873 * 15625) % two26 == 1;
    InverseImpliesCoprime(12738873, 15625, two26);
    assert w * WORD == 64 * (two26 * w);
    if Divides(US, w * WORD) {
      var m := (w * WORD) / US;
      assert 64 * (two26 * w) == 64 * (15625 * m);
      DividesWitness(15625, two26 * w, m);
      EuclidCoprime(15625, two26, w);
    }
    if Divides(15625, w) {
      var m := w / 15625;
      assert w * WORD == US * (two26 * m);
      DividesWitness(US, w * WORD, two26 * m);
    }
  }

  /** Nothing is lost exactly when 5^6 divides the number of times the product wrapped. */
  lemma LostNothingIff(n: word, rate: word)
    requires rate > 0
    ensures Lost(n, rate) == 0 <==> (n * PerTick(rate) / WORD) % 15625 == 0
  {
    var x := n * PerTick(rate);
    var w := x / WORD;
    assert x - x % WORD == w * WORD;
    SameRemainder(x, x % WORD, US);
    FiveAndTwo(w);
  }

  /**
   Set to a normalised `t` at tick n0 and read at a later tick n1, the clock
   shows exactly t plus the elapsed ticks if and only if 5^6 divides the wraps
   of the set-time product, or time zero is read back at once and the loss is
   hidden by the clamp.
   */
  lemma SetThenGetIff(t: TimeVal, n0: word, n1: word, rate: word)
    requires rate > 0 && Divides(rate, US) && Normalised(t) && n0 <= n1
    ensures var exact := Micros(t) + (n1 - n0) * PerTick(rate);
            var wraps := n0 * PerTick(rate) / WORD;
            Shown(Advanced(ResetTime(t, n0, rate), n1, rate)) == exact
            <==> wraps % 15625 == 0 || (t == TimeVal(0, 0) && n1 == n0 && Lost(n0, rate) < 0)
  {
    AdvancedMicros(t, n0, n1, rate);
    LostNothingIff(n0, rate);
    LostBounded(n0, rate);
    ElapsedNonNegative(n0, n1, rate);
    SecondsNotNegative(t, n0, n1, rate);
    hide PerTick, Lost, Advanced, ResetTime;
  }

  /** So a time before zero always has microseconds to borrow for, and is clamped. */
  lemma SecondsNotNegative(t: TimeVal, n0: word, n1: word, rate: word)
    requires rate > 0 && t.sec >= 0 && n0 <= n1
    ensures Advanced(ResetTime(t, n0, rate), n1, rate).sec >= 0
  {
    DivisionGrows(n0, n1, rate);
  }

  lemma DivisionGrows(a: nat, b: nat, n: nat)
    requires n > 0 && a <= b
    ensures a / n <= b / n
  {
    QuotientAtMost(a, n, a / n, a % n, b / n, b % n);
  }

  lemma QuotientAtMost(a: nat, n: nat, p: nat, s: nat, q: nat, r: nat)
    requires n > 0 && a == p * n + s && a <= q * n + r && s < n && r < n
    ensures p <= q
  {
    MulDifference(n, p, q);
    if p > q {
      MulAtLeast(n, p - q);
    }
  }

  lemma LostBounded(n: word, rate: word)
    requires rate > 0
    ensures -US < Lost(n, rate) < US
  {
  }

  lemma ElapsedNonNegative(n0: word, n1: word, rate: word)
    requires rate > 0 && Divides(rate, US) && n0 <= n1
    ensures (n1 - n0) * PerTick(rate) >= n1 - n0
  {
    assert PerTick(rate) * rate == US;
    assert PerTick(rate) >= 1;
    assert (n1 - n0) * PerTick(rate) == (n1 - n0) * (PerTick(rate) - 1) + (n1 - n0);
    assert (n1 - n0) * (PerTick(rate) - 1) >= 0;
  }

  /** In particular nothing goes wrong while the set-time product fits a word, and nothing is clamped. */
  lemma ExactWhileProductFits(t: TimeVal, n0: word, n1: word, rate: word)
    requires rate > 0 && Divides(rate, US) && Normalised(t) && n0 <= n1
    requires n0 * PerTick(rate) < WORD
    ensures var raw := Advanced(ResetTime(t, n0, rate), n1, rate);
            !Clamps(raw) && Shown(raw) == Micros(t) + (n1 - n0) * PerTick(rate)
  {
    hide PerTick, Lost, Advanced, ResetTime;
    DivModUnique(n0 * PerTick(rate), WORD, 0, n0 * PerTick(rate));
    AdvancedMicros(t, n0, n1, rate);
    LostNothingIff(n0, rate);
    ElapsedNonNegative(n0, n1, rate);
  }

  /** At 1000 ticks a second, a clock set one tick past the first wrap of the product runs wrong. */
  lemma SetAfterWrapIsWrong()
    ensures var t := TimeVal(1, 0);
            Shown(Advanced(ResetTime(t, 4294968, 1000), 4294968, 1000)) != Micros(t)
  {
    SetThenGetIff(TimeVal(1, 0), 4294968, 4294968, 1000);
  }

  /** Time zero can be read back right although the product wrapped: here the clamp hides the loss. */
  lemma ClampHidesLoss()
    ensures (4295967 * PerTick(1000) / WORD) % 15625 != 0
    ensures Shown(Advanced(ResetTime(TimeVal(0, 0), 4295967, 1000), 4295967, 1000)) == 0
  {
    LossOfOneWrap();
    hide PerTick, Lost, Advanced, ResetTime, Shown;
    SetThenGetIff(TimeVal(0, 0), 4295967, 4295967, 1000);
  }

  lemma LossOfOneWrap()
    ensures PerTick(1000) == 1000 && 4295967 * PerTick(1000) / WORD == 1
    ensures Lost(4295967, 1000) == 967000 - 999704
    ensures Divides(1000, US)
  {
  }
}
