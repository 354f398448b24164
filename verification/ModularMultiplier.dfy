/**
 The multiplier behind the key generator, cycle by cycle: a controller that
 hands the adder's product to the subtractor.
 */
module ModularMultiplier {
  import opened NumberTheory
  import opened SequentialArithmetic

  /** The answer: a 32-bit product reduced by the denominator. */
  function Answer(base: word, power: word, denominator: word): word
    requires denominator > 0
  {
    ProductOf(base, power) % denominator
  }

  // ---------------------------------------------------------------- The controller

  datatype State = Reset | Wait | Multiply | MultiplyDone | Modulo | ModuloDone | ModmultDone

  datatype Circuit = Circuit(
    state: State, result: word, multReady: bool, modularReady: bool, done: bool,
    d: word, e: word, phi: word, adder: Adder, subtractor: Subtractor)

  /** The input wires while the reset line is high. */
  datatype Wires = Wires(ready: bool, base: word, power: word, denominator: word)

  function NextState(c: Circuit, w: Wires): State {
    match c.state
    case Reset => Wait
    case Wait => if w.ready then Multiply else Wait
    case Multiply => if c.adder.done then MultiplyDone else Multiply
    case MultiplyDone => Modulo
    case Modulo => if c.subtractor.done then ModuloDone else Modulo
    case ModuloDone => ModmultDone
    case ModmultDone => if w.ready then ModmultDone else Wait
  }

  function Step(c: Circuit, w: Wires): Circuit {
    var n := c.(state := NextState(c, w),
                adder := AdderStep(c.adder, c.multReady, c.d, c.e),
                subtractor := SubtractorStep(c.subtractor, c.modularReady, c.adder.out, c.phi));
    match c.state
    case Reset =>
      n.(result := 0, multReady := false, modularReady := false, done := false, d := 0, e := 0, phi := 0)
    case Wait => n.(d := w.base, e := w.power, phi := w.denominator)
    case Multiply => n.(multReady := true)
    case MultiplyDone => n.(multReady := false)
    case Modulo => n.(modularReady := true)
    case ModuloDone => n.(modularReady := false, result := c.subtractor.result)
    case ModmultDone => n.(done := true)
  }

  /** The circuit `n` edges later, its wires held. */
  function After(c: Circuit, w: Wires, n: nat): Circuit
    decreases n
  {
    if n == 0 then c else After(Step(c, w), w, n - 1)
  }

  // ---------------------------------------------------------------- Reset

  /** What an edge with the reset line low leaves: all three machines in RESET, their registers cleared. */
  const CLEARED: Circuit := Circuit(
    Reset, 0, false, false, false, 0, 0, 0,
    ADDER_CLEARED, SUBTRACTOR_CLEARED)

  /** The reset line holds all three machines in RESET; an edge then clears the registers, whatever they were. */
  lemma ResetClears(c: Circuit, w: Wires)
    ensures var held := c.(state := Reset, adder := c.adder.(state := AdderReset),
                           subtractor := c.subtractor.(state := SubReset));
            var edge := Step(held, w);
            edge.(state := Reset, adder := edge.adder.(state := AdderReset, counter := 0),
                  subtractor := edge.subtractor.(state := SubReset)) == CLEARED
  {
  }

  /** Waiting for ready, with nothing computed since the reset. */
  predicate Waiting(c: Circuit) {
    && c.state == Wait && !c.multReady && !c.modularReady && !c.done
    && c.adder == ADDER_CLEARED.(state := AdderWait)
    && c.subtractor.state == SubWait && !c.subtractor.done
  }

  lemma WaitingStep(c: Circuit, w: Wires)
    ensures Waiting(Step(CLEARED, w))
    ensures Waiting(c) && !w.ready ==> Waiting(Step(c, w))
    ensures Waiting(c) && w.ready ==> AdderWorks(Step(c, w), w)
  {
  }

  // ---------------------------------------------------------------- The two units at work

  /** The operands are latched and no answer is out. */
  predicate Latched(c: Circuit, w: Wires) {
    !c.done && c.d == w.base && c.e == w.power && c.phi == w.denominator
  }

  predicate AdderWorks(c: Circuit, w: Wires) {
    && Latched(c, w) && c.state == Multiply && !c.modularReady
    && c.subtractor.state == SubWait && !c.subtractor.done
    && Adding(c.adder, c.multReady, c.d, c.e)
  }

  lemma AdderWorksStep(c: Circuit, w: Wires)
    requires AdderWorks(c, w)
    ensures var n := Step(c, w);
            if c.adder.state == AdderDone then Multiplied(n, w)
            else AdderWorks(n, w) && n.multReady
                 && AddingRank(n.adder, true, c.e) < AddingRank(c.adder, c.multReady, c.e)
  {
    AddingStep(c.adder, c.multReady, c.d, c.e);
    hide AdderStep, HasProduct, AddingRank;
    AddingFacts(c.adder, c.multReady, c.d, c.e);
    ProductFacts(Step(c, w).adder, c.d, c.e);
    hide Adding;
  }

  /** The product is out and the controller is about to see it. */
  predicate Multiplied(c: Circuit, w: Wires) {
    && Latched(c, w) && c.state == Multiply && c.multReady && !c.modularReady
    && HasProduct(c.adder, c.d, c.e)
    && c.subtractor.state == SubWait && !c.subtractor.done
  }

  /** The product stays out while the subtractor works on it. */
  predicate SubtractorWorks(c: Circuit, w: Wires)
    requires w.denominator > 0
  {
    && Latched(c, w) && KeepsProduct(c.adder, c.multReady, c.d, c.e) && !c.multReady
    && c.state == Modulo && Subtracting(c.subtractor, c.modularReady, ProductOf(c.d, c.e), c.phi)
  }

  lemma SubtractorWorksStep(c: Circuit, w: Wires)
    requires w.denominator > 0 && SubtractorWorks(c, w)
    ensures var n := Step(c, w);
            if c.subtractor.state == ModDone then Reduced(n, w)
            else SubtractorWorks(n, w) && n.modularReady
                 && SubtractingRank(n.subtractor, true) < SubtractingRank(c.subtractor, c.modularReady)
  {
    SubtractingStep(c.subtractor, c.modularReady, ProductOf(c.d, c.e), c.phi);
    KeepsProductStep(c.adder, c.multReady, c.d, c.e);
    hide AdderStep, SubtractorStep, ProductOf, SubtractingRank;
  }

  /** The remainder is out and the controller is about to see it. */
  predicate Reduced(c: Circuit, w: Wires)
    requires w.denominator > 0
  {
    Latched(c, w) && c.state == Modulo && HasRemainder(c.subtractor, ProductOf(c.d, c.e), c.phi)
  }

  // ---------------------------------------------------------------- The whole multiplication

  /** The answer is out, and stays out while ready is held. */
  predicate Answered(c: Circuit, w: Wires)
    requires w.denominator > 0
  {
    c.state == ModmultDone && c.done && c.result == Answer(w.base, w.power, w.denominator)
  }

  /** Between two machines: the controller passes the product on, or takes the remainder over. */
  predicate Passing(c: Circuit, w: Wires)
    requires w.denominator > 0
  {
    && Latched(c, w)
    && match c.state
       case MultiplyDone =>
         && c.multReady && !c.modularReady && c.adder.out == ProductOf(c.d, c.e)
         && c.adder.state == AdderDone && c.subtractor.state == SubWait && !c.subtractor.done
       case ModuloDone => c.subtractor.result == Answer(c.d, c.e, c.phi)
       case ModmultDone => c.result == Answer(c.d, c.e, c.phi)
       case _ => false
  }

  /** Working on the operands on the wires, the answer still to come. */
  predicate InProgress(c: Circuit, w: Wires)
    requires w.denominator > 0
  {
    AdderWorks(c, w) || Multiplied(c, w) || SubtractorWorks(c, w) || Reduced(c, w) || Passing(c, w)
  }

  /** The stages of a multiplication, counted down. */
  function Stage(c: Circuit): nat {
    match c.state
    case Reset => 7
    case Wait => 6
    case Multiply => 5
    case MultiplyDone => 4
    case Modulo => 3
    case ModuloDone => 2
    case ModmultDone => 1
  }

  /** The work left within a stage. */
  function Work(c: Circuit): nat {
    match c.state
    case Multiply => if c.adder.done then 0 else 1 + AddingRank(c.adder, c.multReady, c.e)
    case Modulo => if c.subtractor.done then 0 else 1 + SubtractingRank(c.subtractor, c.modularReady)
    case _ => 0
  }

  lemma ProgressStep(c: Circuit, w: Wires)
    requires w.denominator > 0 && w.ready && InProgress(c, w)
    ensures !c.done
    ensures var n := Step(c, w);
            || (c.state == ModmultDone && Answered(n, w))
            || (InProgress(n, w) && (Stage(n) < Stage(c) || (Stage(n) == Stage(c) && Work(n) < Work(c))))
  {
    if AdderWorks(c, w) {
      AdderWorksStep(c, w);
    } else if SubtractorWorks(c, w) {
      SubtractorWorksStep(c, w);
    }
    hide ProductOf, Answer, AddingRank, SubtractingRank;
  }

  /** Once out, an answer is kept: done stays set until a reset, the result until ready is dropped. */
  lemma AnswerHolds(c: Circuit, w: Wires)
    requires w.denominator > 0 && w.ready && Answered(c, w)
    ensures Answered(Step(c, w), w)
  {
  }

  /** Dropping ready returns the circuit to waiting, done and the answer still out. */
  lemma Released(c: Circuit, w: Wires)
    requires w.denominator > 0 && Answered(c, w)
    ensures var idle := Step(c, w.(ready := false));
            idle.state == Wait && idle.done && idle.result == Answer(w.base, w.power, w.denominator)
  {
  }

  lemma ResetIsLeft(c: Circuit, w: Wires)
    ensures Step(c, w).state != Reset
  {
  }

  lemma DoneHolds(c: Circuit, w: Wires)
    requires c.done && c.state != Reset
    ensures Step(c, w).done && Step(c, w).state != Reset
  {
  }

  /**
   After a reset, raising ready on held operands with a nonzero denominator
   raises done some edges later and not before, with the answer on the result.
   */
  lemma {:induction false} RaisesDoneWithAnswer(c: Circuit, w: Wires) returns (n: nat)
    requires w.denominator > 0 && w.ready && (c == CLEARED || Waiting(c) || InProgress(c, w))
    ensures Answered(After(c, w, n), w)
    ensures forall k: nat :: k < n ==> !After(c, w, k).done
    decreases Stage(c), Work(c)
  {
    hide Step, AdderWorks, Multiplied, SubtractorWorks, Reduced, Passing, Answered;
    var next := Step(c, w);
    if c == CLEARED || Waiting(c) {
      WaitingStep(c, w);
      AddingInMultiply(next, w);
      assert Stage(next) < Stage(c);
      n := RaisesDoneWithAnswer(next, w);
      n := n + 1;
    } else {
      ProgressStep(c, w);
      if Answered(next, w) {
        n := 1;
        assert After(c, w, 1) == After(next, w, 0);
      } else {
        n := RaisesDoneWithAnswer(next, w);
        n := n + 1;
      }
    }
    forall k: nat | k < n
      ensures !After(c, w, k).done
    {
      assert k > 0 ==> After(c, w, k) == After(next, w, k - 1);
    }
  }

  lemma AddingInMultiply(c: Circuit, w: Wires)
    ensures AdderWorks(c, w) ==> c.state == Multiply
  {
  }
}
