/**
 The two arithmetic units of the datapath, cycle by cycle: a product formed by
 repeated addition and a remainder formed by repeated subtraction.  Every
 register samples the values before the clock edge.
 */
module SequentialArithmetic {
  import opened NumberTheory

  const WORD := 0x1_0000_0000

  type word = x: int | 0 <= x < WORD

  // ---------------------------------------------------------------- The adder

  /** The adder counts to in2 + 1 in 32 bits, so for the largest in2 it never adds. */
  function ProductOf(in1: word, in2: word): word {
    if in2 == WORD - 1 then 0 else in1 * in2 % WORD
  }

  /** The product is right exactly when in2 is not the largest word, or in1 is 0. */
  lemma ProductIsExactIff(in1: word, in2: word)
    ensures ProductOf(in1, in2) == in1 * in2 % WORD <==> in2 != WORD - 1 || in1 == 0
  {
    if in2 == WORD - 1 && in1 > 0 {
      assert in1 * in2 == (in1 - 1) * WORD + (WORD - in1);
      DivModUnique(in1 * in2, WORD, in1 - 1, WORD - in1);
    }
  }

  datatype AdderState = AdderReset | AdderWait | Loop0 | Loop1 | AdderDone

  datatype Adder = Adder(state: AdderState, counter: word, out: word, tempSum: word, done: bool)

  /** What an edge with the reset line low leaves. */
  const ADDER_CLEARED := Adder(AdderReset, 0, 0, 0, false)

  function NextAdderState(a: Adder, ready: bool, in2: word): AdderState {
    match a.state
    case AdderReset => AdderWait
    case AdderWait => if ready then Loop0 else AdderWait
    case Loop0 =>
      if a.counter == (in2 + 1) % WORD then AdderDone
      else if a.counter < (in2 + 1) % WORD then Loop1
      else Loop0
    case Loop1 => Loop0
    case AdderDone => if ready then AdderDone else AdderWait
  }

  /** The counter steps on entering, or staying in, the first loop state. */
  function AdderStep(a: Adder, ready: bool, in1: word, in2: word): Adder {
    var next := NextAdderState(a, ready, in2);
    var b := a.(state := next, counter := if next == Loop0 then (a.counter + 1) % WORD else a.counter);
    match a.state
    case AdderReset => b.(out := 0, tempSum := 0, done := false)
    case AdderWait => b
    case Loop0 => b.(tempSum := (a.out + in1) % WORD)
    case Loop1 => b.(out := a.tempSum)
    case AdderDone => b.(done := true)
  }

  /** With the reset line low the state is RESET and the counter 0; an edge then clears the rest. */
  lemma AdderResetClears(a: Adder, ready: bool, in1: word, in2: word)
    ensures AdderStep(a.(state := AdderReset), ready, in1, in2).(state := AdderReset, counter := 0) == ADDER_CLEARED
  {
  }

  /** Nothing added since the reset; in the loop `out` is the product of in1 with the additions made. */
  predicate Adding(a: Adder, ready: bool, in1: word, in2: word) {
    && !a.done
    && match a.state
       case AdderReset => false
       case AdderWait => a.counter == 0 && a.out == 0
       case Loop0 => ready && Summed(a.out, in1, in2, a.counter)
       case Loop1 =>
         && ready && 1 <= a.counter <= in2 < WORD - 1
         && a.out == Times(in1, a.counter - 1) && a.tempSum == Times(in1, a.counter)
       case AdderDone => ready && a.out == ProductOf(in1, in2)
  }

  predicate Summed(out: word, in1: word, in2: word, counter: word) {
    if in2 == WORD - 1 then out == 0 else 1 <= counter <= in2 + 1 && out == Times(in1, counter - 1)
  }

  function Times(d: word, k: nat): word {
    d * k % WORD
  }

  /** Edges until the product is announced, by the additions left and the place in the loop. */
  function AddingRank(a: Adder, ready: bool, in2: word): nat {
    match a.state
    case AdderReset => 0
    case AdderWait => 2 * WORD + (if ready then 10 else 11)
    case Loop0 =>
      if in2 == WORD - 1 then (if a.counter == 0 then 2 else 3 + WORD - a.counter)
      else 2 + 2 * (in2 + 1 - (if a.counter <= in2 + 1 then a.counter else 0))
    case Loop1 => 1 + 2 * (in2 + 1 - (if a.counter <= in2 + 1 then a.counter else 0))
    case AdderDone => 1
  }

  /** The product is out and announced. */
  predicate HasProduct(a: Adder, in1: word, in2: word) {
    a.state == AdderDone && a.done && a.out == ProductOf(in1, in2)
  }

  /** While the controller holds ready, the adder gets closer to announcing the product. */
  lemma AddingStep(a: Adder, ready: bool, in1: word, in2: word)
    requires Adding(a, ready, in1, in2)
    ensures var b := AdderStep(a, ready, in1, in2);
            if a.state == AdderDone then HasProduct(b, in1, in2)
            else Adding(b, true, in1, in2) && AddingRank(b, true, in2) < AddingRank(a, ready, in2)
  {
    if a.state == Loop0 {
      Loop0Step(a, in1, in2);
    } else if a.state == Loop1 {
      Loop1Step(a, in1, in2);
    } else {
      TimesStep(in1, 0);
      hide Times, ProductOf;
    }
  }

  lemma Loop0Step(a: Adder, in1: word, in2: word)
    requires Adding(a, true, in1, in2) && a.state == Loop0
    ensures var b := AdderStep(a, true, in1, in2);
            Adding(b, true, in1, in2) && AddingRank(b, true, in2) < AddingRank(a, true, in2)
  {
    TimesStep(in1, if a.counter >= 1 then a.counter - 1 else 0);
    TimesStep(in1, in2);
    Increment(in2);
    Increment(a.counter);
    hide Times, ProductOf;
  }

  lemma Loop1Step(a: Adder, in1: word, in2: word)
    requires Adding(a, true, in1, in2) && a.state == Loop1
    ensures var b := AdderStep(a, true, in1, in2);
            Adding(b, true, in1, in2) && AddingRank(b, true, in2) < AddingRank(a, true, in2)
  {
    Increment(a.counter);
    hide Times, ProductOf;
  }

  lemma TimesStep(d: word, k: nat)
    ensures (Times(d, k) + d) % WORD == Times(d, k + 1)
    ensures Times(d, 0) == 0
    ensures k < WORD ==> ProductOf(d, k) == if k == WORD - 1 then 0 else Times(d, k)
  {
    var x, y := d * k, d * (k + 1);
    assert y == x + d;
    ModAddCongruent(x % WORD, x, d, WORD);
    DivModUnique(0, WORD, 0, 0);
  }

  lemma Increment(x: word)
    ensures (x + 1) % WORD == if x == WORD - 1 then 0 else x + 1
  {
  }

  /** The product stays out once the controller drops ready. */
  predicate KeepsProduct(a: Adder, ready: bool, in1: word, in2: word) {
    && a.out == ProductOf(in1, in2)
    && (a.state == AdderDone || (a.state == AdderWait && !ready))
  }

  lemma KeepsProductStep(a: Adder, ready: bool, in1: word, in2: word)
    requires KeepsProduct(a, ready, in1, in2)
    ensures KeepsProduct(AdderStep(a, ready, in1, in2), false, in1, in2)
  {
    hide ProductOf;
  }

  /** Dropping ready after the announcement returns the adder to waiting, the product still out. */
  lemma AdderReleased(a: Adder, in1: word, in2: word)
    requires HasProduct(a, in1, in2)
    ensures var b := AdderStep(a, false, in1, in2);
            b.state == AdderWait && b.done && b.out == ProductOf(in1, in2)
  {
  }

  lemma AddingFacts(a: Adder, ready: bool, in1: word, in2: word)
    ensures Adding(a, ready, in1, in2) ==> !a.done
    ensures Adding(a, ready, in1, in2) && a.state == AdderDone ==> ready
  {
  }

  lemma ProductFacts(a: Adder, in1: word, in2: word)
    ensures HasProduct(a, in1, in2) ==> a.done && KeepsProduct(a, true, in1, in2)
  {
  }

  /** Out of reset the adder is idle two edges later, or waits where it is. */
  lemma AdderIdleStep(a: Adder, in1: word, in2: word)
    requires a == ADDER_CLEARED || a == ADDER_CLEARED.(state := AdderWait)
    ensures AdderStep(a, false, in1, in2) == ADDER_CLEARED.(state := AdderWait)
    ensures Adding(AdderStep(a, false, in1, in2), true, in1, in2)
    ensures Adding(AdderStep(a, false, in1, in2), false, in1, in2)
  {
  }

  // ---------------------------------------------------------------- The subtractor

  datatype SubtractorState = SubReset | SubWait | ModInit | ModAssign | ModDone

  datatype Subtractor = Subtractor(
    state: SubtractorState, result: word, subHold: word, numerator: word, denominator: word, done: bool)

  /** What an edge with the reset line low leaves. */
  const SUBTRACTOR_CLEARED := Subtractor(SubReset, 0, 0, 0, 0, false)

  function NextSubtractorState(m: Subtractor, ready: bool): SubtractorState {
    match m.state
    case SubReset => SubWait
    case SubWait => if ready then ModInit else SubWait
    case ModInit => if m.numerator < m.denominator then ModDone else ModAssign
    case ModAssign => ModInit
    case ModDone => if ready then ModDone else SubWait
  }

  function SubtractorStep(m: Subtractor, ready: bool, numerator: word, denominator: word): Subtractor {
    var n := m.(state := NextSubtractorState(m, ready));
    match m.state
    case SubReset => n.(result := 0, subHold := 0, numerator := 0, denominator := 0, done := false)
    case SubWait => n.(numerator := numerator, denominator := denominator)
    case ModInit => n.(subHold := (m.numerator - m.denominator) % WORD)
    case ModAssign => n.(numerator := m.subHold)
    case ModDone => n.(result := m.numerator, done := true)
  }

  lemma SubtractorResetClears(m: Subtractor, ready: bool, numerator: word, denominator: word)
    ensures SubtractorStep(m.(state := SubReset), ready, numerator, denominator).(state := SubReset)
            == SUBTRACTOR_CLEARED
  {
  }

  /** The machine has not been started since the reset. */
  predicate SubtractorIdle(m: Subtractor) {
    (m.state == SubReset || m.state == SubWait) && !m.done
  }

  lemma SubtractorIdleStep(m: Subtractor, numerator: word, denominator: word)
    requires SubtractorIdle(m)
    ensures SubtractorIdle(SubtractorStep(m, false, numerator, denominator))
    ensures SubtractorStep(m, false, numerator, denominator).state == SubWait
  {
  }

  /** Idle, or part of the way: what is left has the remainder of the numerator on the wires. */
  predicate Subtracting(m: Subtractor, ready: bool, numerator: word, denominator: word)
    requires denominator > 0
  {
    && !m.done
    && match m.state
       case SubReset => true
       case SubWait => true
       case ModInit => ready && m.denominator == denominator && m.numerator % denominator == numerator % denominator
       case ModAssign =>
         && ready && m.denominator == denominator && m.numerator >= denominator
         && m.subHold == m.numerator - denominator && m.numerator % denominator == numerator % denominator
       case ModDone => ready && m.numerator == numerator % denominator
  }

  function SubtractingRank(m: Subtractor, ready: bool): nat {
    match m.state
    case SubReset => 2 * WORD + 12
    case SubWait => 2 * WORD + (if ready then 10 else 11)
    case ModInit => 2 + 2 * m.numerator
    case ModAssign => 1 + 2 * m.numerator
    case ModDone => 1
  }

  /** The remainder is out and announced. */
  predicate HasRemainder(m: Subtractor, numerator: word, denominator: word)
    requires denominator > 0
  {
    m.done && m.state == ModDone && m.numerator == m.result == numerator % denominator
  }

  /** While the controller holds ready, the subtractor gets closer to announcing the remainder. */
  lemma SubtractingStep(m: Subtractor, ready: bool, numerator: word, denominator: word)
    requires denominator > 0 && Subtracting(m, ready, numerator, denominator)
    ensures var n := SubtractorStep(m, ready, numerator, denominator);
            if m.state == ModDone then HasRemainder(n, numerator, denominator)
            else Subtracting(n, true, numerator, denominator) && SubtractingRank(n, true) < SubtractingRank(m, ready)
  {
    if m.state == ModInit && m.numerator < denominator {
      DivModUnique(m.numerator, denominator, 0, m.numerator);
    } else if m.state == ModInit || m.state == ModAssign {
      SubtractOnce(m.numerator, denominator);
    }
  }

  lemma SubtractOnce(x: word, y: word)
    requires 0 < y <= x
    ensures (x - y) % y == x % y && (x - y) % WORD == x - y
  {
    DividesWitness(y, x - (x - y), 1);
    SameRemainder(x, x - y, y);
  }

  // ---------------------------------------------------------------- A zero denominator

  /** What the subtractor sees at an edge. */
  datatype Operands = Operands(ready: bool, numerator: word, denominator: word)

  function SubtractorAfter(m: Subtractor, inputs: seq<Operands>): Subtractor {
    if inputs == [] then m
    else
      var last := |inputs| - 1;
      SubtractorStep(SubtractorAfter(m, inputs[..last]), inputs[last].ready, inputs[last].numerator, inputs[last].denominator)
  }

  /** Started from waiting, the subtractor is caught in its loop for good exactly when the denominator is 0. */
  lemma CaughtIff(m: Subtractor, first: Operands)
    requires m.state == SubWait && first.ready
    ensures (forall rest: seq<Operands> :: SubtractorAfter(m, [first] + rest).state != ModDone) <==> first.denominator == 0
  {
    if first.denominator == 0 {
      forall rest: seq<Operands>
        ensures SubtractorAfter(m, [first] + rest).state != ModDone
      {
        Caught(m, first, rest);
      }
    } else {
      var held := first;
      var started := SubtractorStep(m, true, first.numerator, first.denominator).(done := false);
      var rest := LeavesLoop(m, first, []);
      assert SubtractorAfter(m, [first] + rest).state == ModDone;
    }
  }

  lemma {:induction false} Caught(m: Subtractor, first: Operands, rest: seq<Operands>)
    requires m.state == SubWait && first.ready && first.denominator == 0
    ensures var after := SubtractorAfter(m, [first] + rest);
            (after.state == ModInit || after.state == ModAssign) && after.denominator == 0 && after.done == m.done
  {
    var inputs := [first] + rest;
    if rest == [] {
      assert inputs[..0] == [];
    } else {
      assert inputs[..|inputs| - 1] == [first] + rest[..|rest| - 1];
      Caught(m, first, rest[..|rest| - 1]);
    }
  }

  /** With another denominator it leaves the loop whatever the wires show meanwhile. */
  lemma {:induction false} LeavesLoop(m: Subtractor, first: Operands, sofar: seq<Operands>)
    returns (rest: seq<Operands>)
    requires m.state == SubWait && first.ready && first.denominator > 0
    requires Subtracting(SubtractorAfter(m, [first] + sofar).(done := false), true, first.numerator, first.denominator)
    requires SubtractorAfter(m, [first] + sofar).state != SubReset && SubtractorAfter(m, [first] + sofar).state != SubWait
    ensures SubtractorAfter(m, [first] + rest).state == ModDone
    decreases SubtractingRank(SubtractorAfter(m, [first] + sofar), true)
  {
    hide Subtracting;
    var now := SubtractorAfter(m, [first] + sofar);
    if now.state == ModDone {
      rest := sofar;
    } else {
      var inputs := [first] + (sofar + [first]);
      assert inputs[..|inputs| - 1] == [first] + sofar;
      SubtractingStep(now.(done := false), true, first.numerator, first.denominator);
      var next := SubtractorAfter(m, inputs);
      assert next.(done := false) == SubtractorStep(now.(done := false), true, first.numerator, first.denominator);
      rest := LeavesLoop(m, first, sofar + [first]);
    }
  }
}
