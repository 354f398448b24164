/**
 The exponentiation circuit, cycle by cycle: it multiplies C by M modulo n until
 its counter has reached e.  The counter is cleared by the reset line only, so
 how often a run multiplies depends on where the counter starts.
 */
module ModularExponentiation {
  import opened NumberTheory
  import opened SequentialArithmetic
  import Rsa

  datatype State = Reset | Wait | InitReset0 | InitReset1 | Multiply | Modulo | CheckCounter | ModexpDone

  datatype Circuit = Circuit(
    state: State, counter: word, C: word, M: word, n: word, result: word,
    multReady: bool, modularReady: bool,
    unitReset: bool,      // active low; the source drives both units' reset lines alike
    done: bool, adder: Adder, subtractor: Subtractor)

  /** The input wires while the reset line is high. */
  datatype Wires = Wires(ready: bool, base: word, power: word, e: word, denominator: word)

  // ---------------------------------------------------------------- One clock edge

  function NextState(c: Circuit, w: Wires): State {
    match c.state
    case Reset => Wait
    case Wait => if w.ready then InitReset0 else Wait
    case InitReset0 => InitReset1
    case InitReset1 => Multiply
    case Multiply => if c.adder.done then Modulo else Multiply
    case Modulo => if c.subtractor.done then CheckCounter else Modulo
    case CheckCounter => if c.counter < w.e then InitReset0 else ModexpDone
    case ModexpDone => if w.ready then ModexpDone else Wait
  }

  /** The registers the second clocked block drives. */
  function Driven(c: Circuit, w: Wires): Circuit {
    match c.state
    case Reset =>
      c.(unitReset := false, result := 0, multReady := false, done := false, modularReady := false,
         C := 0, M := 0, n := 0)
    case Wait => c.(C := w.base, M := w.power, n := w.denominator, unitReset := true)
    case InitReset0 => c.(unitReset := false)
    case InitReset1 => c.(unitReset := true)
    case Multiply => c.(multReady := true)
    case Modulo => c.(multReady := false, modularReady := true)
    case CheckCounter => c.(modularReady := false, C := c.subtractor.result)
    case ModexpDone => c.(result := c.C, done := true)
  }

  function UnitsStep(c: Circuit): (Adder, Subtractor) {
    if c.unitReset then
      (AdderStep(c.adder, c.multReady, c.C, c.M),
       SubtractorStep(c.subtractor, c.modularReady, c.adder.out, c.n))
    else (ADDER_CLEARED, SUBTRACTOR_CLEARED)
  }

  /** The counter steps on entering the check. */
  function Step(c: Circuit, w: Wires): Circuit {
    var next := NextState(c, w);
    var units := UnitsStep(c);
    Driven(c, w).(
      state := next,
      counter := if next == CheckCounter then (c.counter + 1) % WORD else c.counter,
      adder := units.0, subtractor := units.1)
  }

  /** An edge with the reset line low. */
  function ResetStep(c: Circuit, w: Wires): Circuit {
    var units := UnitsStep(c);
    Driven(c.(state := Reset), w).(counter := 0, adder := units.0, subtractor := units.1)
  }

  // ---------------------------------------------------------------- What it computes

  /** `k` multiplications of `base` by `power`, each a 32-bit product reduced by the denominator. */
  function Iterated(base: word, power: word, denominator: word, k: nat): word
    requires denominator > 0
  {
    if k == 0 then base else ProductOf(Iterated(base, power, denominator, k - 1), power) % denominator
  }

  /** The multiplications of a run that finds the counter at `start`. */
  function Multiplications(start: word, e: word): nat {
    if start == WORD - 1 then e + 1 else if start < e then e - start else 1
  }

  /** The check asks for another multiplication until their number is reached. */
  lemma CheckCounts(start: word, e: word, k: nat)
    requires 1 <= k <= Multiplications(start, e)
    ensures (start + k) % WORD < e <==> k < Multiplications(start, e)
  {
    if start == WORD - 1 {
      DivModUnique(start + k, WORD, 1, k - 1);
    } else if start + k < WORD {
      DivModUnique(start + k, WORD, 0, start + k);
    }
  }

  /** When no product wraps, the iteration from 1 is the power. */
  lemma {:induction false} IteratedIsPower(m: word, n: word, k: nat)
    requires 0 < n && m < WORD - 1 && (n - 1) * m < WORD && k >= 1
    ensures Iterated(1, m, n, k) == Pow(m, k) % n
  {
    if k == 1 {
      DivModUnique(1 * m, WORD, 0, m);
      assert Iterated(1, m, n, 1) == ProductOf(Iterated(1, m, n, 0), m) % n;
      assert Pow(m, 1) == m * Pow(m, 0);
    } else {
      IteratedIsPower(m, n, k - 1);
      IterateOnce(Pow(m, k - 1), m, n);
    }
  }

  lemma IterateOnce(x: int, m: word, n: word)
    requires 0 < n && m < WORD - 1 && (n - 1) * m < WORD
    ensures ProductOf(x % n, m) % n == (m * x) % n
  {
    var c := x % n;
    Rsa.MulLe(c, m, n - 1, m);
    DivModUnique(c * m, WORD, 0, c * m);
    ModMul(x, m, n);
    assert m * x == x * m;
  }

  // ---------------------------------------------------------------- A run

  /** Waiting for ready, the counter at `start`. */
  predicate Idle(c: Circuit, start: word) {
    && (c.state == Wait || (c.state == Reset && !c.done)) && c.counter == start
    && !c.multReady && !c.modularReady
  }

  /** `k` multiplications are done, and another is under way. */
  predicate Running(c: Circuit, w: Wires, start: word, k: nat)
    requires w.denominator > 0
  {
    && c.M == w.power && c.n == w.denominator && k < Multiplications(start, w.e)
    && c.counter == (start + (if c.state == CheckCounter then k + 1 else k)) % WORD
    && c.C == Iterated(w.base, w.power, w.denominator, k)
    && UnitsWork(c)
  }

  /** The units' part of a multiplication, state by state. */
  predicate UnitsWork(c: Circuit)
    requires c.n > 0
  {
    match c.state
    case InitReset0 => !c.multReady && !c.modularReady
    case InitReset1 => !c.multReady && !c.modularReady && !c.unitReset
    case Multiply =>
      && c.unitReset && !c.modularReady && SubtractorIdle(c.subtractor)
      && (|| (c.adder == ADDER_CLEARED && !c.multReady)
          || Adding(c.adder, c.multReady, c.C, c.M)
          || (HasProduct(c.adder, c.C, c.M) && c.multReady))
    case Modulo =>
      && c.unitReset && KeepsProduct(c.adder, c.multReady, c.C, c.M)
      && (|| Subtracting(c.subtractor, c.modularReady, ProductOf(c.C, c.M), c.n)
          || (c.modularReady && HasRemainder(c.subtractor, ProductOf(c.C, c.M), c.n)))
    case CheckCounter => !c.multReady && c.subtractor.result == ProductOf(c.C, c.M) % c.n
    case _ => false
  }

  /** All multiplications are done and the answer is about to come out. */
  predicate Finishing(c: Circuit, w: Wires, start: word, k: nat)
    requires w.denominator > 0
  {
    && c.state == ModexpDone && !c.multReady && !c.modularReady
    && k == Multiplications(start, w.e) && c.counter == (start + k) % WORD && c.C == Iterated(w.base, w.power, w.denominator, k)
  }

  predicate InRun(c: Circuit, w: Wires, start: word, k: nat)
    requires w.denominator > 0
  {
    (Idle(c, start) && k == 0) || Running(c, w, start, k) || Finishing(c, w, start, k)
  }

  /** The answer of a run that finds the counter at `start`. */
  function Answer(w: Wires, start: word): word
    requires w.denominator > 0
  {
    Iterated(w.base, w.power, w.denominator, Multiplications(start, w.e))
  }

  /** At least one multiplication is made, so the answer is reduced. */
  lemma AnswerReduced(w: Wires, start: word)
    requires w.denominator > 0
    ensures Answer(w, start) < w.denominator
  {
  }

  predicate Answered(c: Circuit, w: Wires, start: word)
    requires w.denominator > 0
  {
    && c.state == ModexpDone && c.done && !c.multReady && !c.modularReady
    && c.C == c.result == Answer(w, start) && c.counter == (start + Multiplications(start, w.e)) % WORD
  }

  function NextK(c: Circuit, k: nat): nat {
    if c.state == CheckCounter then k + 1 else k
  }

  /** The states of one multiplication, counted down. */
  function Stage(c: Circuit): nat {
    match c.state
    case Reset => 7
    case Wait => 6
    case InitReset0 => 5
    case InitReset1 => 4
    case Multiply => 3
    case Modulo => 2
    case CheckCounter => 1
    case ModexpDone => 0
  }

  /** The work left within a state. */
  function Work(c: Circuit): nat {
    match c.state
    case Multiply =>
      if c.adder.done then 0 else if c.adder.state.AdderReset? then 2 * WORD + 13
      else 1 + AddingRank(c.adder, c.multReady, c.M)
    case Modulo => if c.subtractor.done then 0 else 1 + SubtractingRank(c.subtractor, c.modularReady)
    case _ => 0
  }

  /** Within one multiplication, an edge gets closer to the check. */
  ghost predicate Closer(next: Circuit, c: Circuit) {
    Stage(next) < Stage(c) || (Stage(next) == Stage(c) && Work(next) < Work(c))
  }

  lemma UnitsStepAdder(c: Circuit, w: Wires)
    requires c.n > 0 && c.state == Multiply && UnitsWork(c)
    ensures var next := Step(c, w); next.n == c.n && UnitsWork(next) && Closer(next, c)
  {
    AddingFacts(c.adder, c.multReady, c.C, c.M);
    SubtractorIdleStep(c.subtractor, c.adder.out, c.n);
    if c.adder == ADDER_CLEARED {
      AdderIdleStep(c.adder, c.C, c.M);
    } else if Adding(c.adder, c.multReady, c.C, c.M) {
      AddingStep(c.adder, c.multReady, c.C, c.M);
      ProductFacts(Step(c, w).adder, c.C, c.M);
    }
    hide Adding, SubtractorStep, ProductOf;
  }

  lemma UnitsStepSubtractor(c: Circuit, w: Wires)
    requires c.n > 0 && c.state == Modulo && UnitsWork(c)
    ensures var next := Step(c, w); next.n == c.n && UnitsWork(next) && Closer(next, c)
  {
    KeepsProductStep(c.adder, c.multReady, c.C, c.M);
    if Subtracting(c.subtractor, c.modularReady, ProductOf(c.C, c.M), c.n) {
      SubtractingStep(c.subtractor, c.modularReady, ProductOf(c.C, c.M), c.n);
    }
    hide AdderStep, ProductOf;
  }

  /** What an edge of a run does. */
  ghost predicate Progress(c: Circuit, w: Wires, start: word, k: nat)
    requires w.denominator > 0
  {
    var next := Step(c, w);
    if c.state == ModexpDone then Answered(next, w, start)
    else && InRun(next, w, start, NextK(c, k))
         && next.done == c.done
         && (k < NextK(c, k) <= Multiplications(start, w.e) || (k == NextK(c, k) && Closer(next, c)))
  }

  /** While ready is held, every edge of a run counts its multiplications and gets closer to the answer. */
  lemma ProgressStep(c: Circuit, w: Wires, start: word, k: nat)
    requires w.denominator > 0 && w.ready && InRun(c, w, start, k)
    ensures Progress(c, w, start, k)
  {
    hide Progress, InRun;
    if c.state == Multiply {
      MultiplyProgress(c, w, start, k);
    } else if c.state == Modulo {
      ModuloProgress(c, w, start, k);
    } else if c.state == CheckCounter {
      CheckProgress(c, w, start, k);
    } else if c.state == Reset || c.state == Wait {
      IdleProgress(c, w, start, k);
    } else {
      OtherProgress(c, w, start, k);
    }
  }

  lemma MultiplyProgress(c: Circuit, w: Wires, start: word, k: nat)
    requires w.denominator > 0 && w.ready && InRun(c, w, start, k) && c.state == Multiply
    ensures Progress(c, w, start, k)
  {
    UnitsStepAdder(c, w);
    hide UnitsWork, UnitsStep, Iterated, Multiplications, Closer;
  }

  lemma ModuloProgress(c: Circuit, w: Wires, start: word, k: nat)
    requires w.denominator > 0 && w.ready && InRun(c, w, start, k) && c.state == Modulo
    ensures Progress(c, w, start, k)
  {
    UnitsStepSubtractor(c, w);
    Count(start, k);
    hide UnitsWork, UnitsStep, Iterated, Multiplications, Closer;
  }

  lemma CheckProgress(c: Circuit, w: Wires, start: word, k: nat)
    requires w.denominator > 0 && w.ready && InRun(c, w, start, k) && c.state == CheckCounter
    ensures Progress(c, w, start, k)
  {
    CheckCounts(start, w.e, k + 1);
    assert Iterated(w.base, w.power, w.denominator, k + 1)
        == ProductOf(Iterated(w.base, w.power, w.denominator, k), w.power) % w.denominator;
    hide UnitsStep, ProductOf, Multiplications, Iterated;
  }

  lemma IdleProgress(c: Circuit, w: Wires, start: word, k: nat)
    requires w.denominator > 0 && w.ready && InRun(c, w, start, k) && (c.state == Reset || c.state == Wait)
    ensures Progress(c, w, start, k)
  {
    assert Iterated(w.base, w.power, w.denominator, 0) == w.base;
    DivModUnique(start, WORD, 0, start);
    hide UnitsStep, Iterated, Work;
  }

  lemma OtherProgress(c: Circuit, w: Wires, start: word, k: nat)
    requires w.denominator > 0 && w.ready && InRun(c, w, start, k)
    requires c.state == InitReset0 || c.state == InitReset1 || c.state == ModexpDone
    ensures Progress(c, w, start, k)
  {
    hide AdderStep, SubtractorStep, Adding, Subtracting, ProductOf, Iterated, Multiplications;
  }

  lemma Count(start: word, k: nat)
    ensures ((start + k) % WORD + 1) % WORD == (start + (k + 1)) % WORD
  {
  }

  lemma IdleInRun(c: Circuit, w: Wires, start: word, k: nat)
    requires w.denominator > 0 && Idle(c, start)
    ensures InRun(c, w, start, k) <==> k == 0
  {
  }

  lemma IdleStep(c: Circuit, w: Wires, start: word)
    requires Idle(c, start) && (!w.ready || c.state == Reset)
    ensures Idle(Step(c, w), start) && Step(c, w).state == Wait
  {
  }

  /** Done is raised by the last state only, and cleared by the reset state only. */
  lemma DoneKept(c: Circuit, w: Wires)
    ensures Step(c, w).done == (c.state == ModexpDone || (c.done && c.state != Reset))
    ensures Step(c, w).state != Reset
  {
  }

  /** Once out, an answer is kept while ready is held. */
  lemma AnswerHolds(c: Circuit, w: Wires, start: word)
    requires w.denominator > 0 && w.ready && Answered(c, w, start)
    ensures Answered(Step(c, w), w, start)
  {
  }

  lemma AnsweredFacts(c: Circuit, w: Wires, start: word)
    requires w.denominator > 0 && Answered(c, w, start)
    ensures c.done && c.state == ModexpDone && c.C == c.result == Answer(w, start)
  {
  }

  // ---------------------------------------------------------------- Whole runs

  /** The circuit `n` edges later, its wires held. */
  function After(c: Circuit, w: Wires, n: nat): Circuit
    decreases n
  {
    if n == 0 then c else After(Step(c, w), w, n - 1)
  }

  /**
   Raising ready on held operands with a nonzero denominator raises done some
   edges later and not before; the answer depends on where the counter starts.
   */
  lemma {:induction false} RaisesDoneWithAnswer(c: Circuit, w: Wires, start: word, k: nat)
    returns (n: nat)
    requires w.denominator > 0 && w.ready && InRun(c, w, start, k)
    ensures Answered(After(c, w, n), w, start)
    ensures forall i: nat :: i < n ==> After(c, w, i).done == c.done
    decreases Multiplications(start, w.e) - k, Stage(c), Work(c)
  {
    hide Step, Running, Finishing, Idle, Stage, Work, Multiplications, Answered;
    var next := Step(c, w);
    ProgressStep(c, w, start, k);
    KNotBeyond(c, w, start, k);
    if c.state == ModexpDone {
      n := 1;
      assert After(c, w, 1) == After(next, w, 0);
    } else {
      n := RaisesDoneWithAnswer(next, w, start, NextK(c, k));
      n := n + 1;
    }
    forall i: nat | i < n
      ensures After(c, w, i).done == c.done
    {
      assert i > 0 ==> After(c, w, i) == After(next, w, i - 1);
    }
  }

  lemma KNotBeyond(c: Circuit, w: Wires, start: word, k: nat)
    requires w.denominator > 0 && InRun(c, w, start, k)
    ensures k <= Multiplications(start, w.e)
  {
  }

  /** After the reset a run raises M to the power e, if e is at least 1 and no product wraps. */
  lemma FirstAnswerIsPower(w: Wires)
    requires w.denominator > 0 && w.base == 1 && w.e >= 1
    requires w.power < WORD - 1 && (w.denominator - 1) * w.power < WORD
    ensures Answer(w, 0) == Pow(w.power, w.e) % w.denominator
  {
    IteratedIsPower(w.power, w.denominator, w.e);
  }

  /** For exponent 0 the circuit multiplies once as well. */
  lemma ZeroExponentAnswer(w: Wires)
    requires w.denominator > 0 && w.base == 1 && w.e == 0 && w.power < WORD - 1
    ensures Answer(w, 0) == w.power % w.denominator
  {
    assert Iterated(w.base, w.power, w.denominator, 0) == 1;
    assert Iterated(w.base, w.power, w.denominator, 1) == ProductOf(1, w.power) % w.denominator;
  }

  /**
   The counter is left at e and done is left set, so a further run with the
   same exponent multiplies once: what comes out is the plain product.
   */
  lemma SecondRunMultipliesOnce(c: Circuit, w: Wires, w': Wires) returns (n: nat)
    requires w.denominator > 0 && w'.denominator > 0 && w'.ready
    requires 1 <= w.e == w'.e < WORD - 1 && Answered(c, w, 0)
    ensures var idle := Step(c, w.(ready := false));
            && idle.state == Wait && idle.done
            && (forall i: nat :: i < n ==> After(idle, w', i).done)
            && After(idle, w', n).state == ModexpDone
            && After(idle, w', n).result == ProductOf(w'.base, w'.power) % w'.denominator
  {
    var idle := Step(c, w.(ready := false));
    DivModUnique(w.e, WORD, 0, w.e);
    n := RaisesDoneWithAnswer(idle, w', w.e, 0);
    assert Iterated(w'.base, w'.power, w'.denominator, 0) == w'.base;
  }
}
