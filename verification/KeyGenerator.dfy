/**
 The hardware key generator: an eleven-state clocked machine that drives the
 modular multiplier through ready/done/reset and searches for the inverse of
 the public exponent.  Every register samples the values before the clock edge.
 */
module KeyGenerator {
  import opened NumberTheory
  import opened SequentialArithmetic
  import Multiplier = ModularMultiplier
  import Rsa

  type Circuit = Multiplier.Circuit

  // ---------------------------------------------------------------- Registers

  datatype State =
    | Reset | Wait | InitModmult | InitDone | InitReset | InitResetDone
    | ModmultLoop0 | ModmultLoop1 | Compare | Decrement | Finished

  datatype Config = Config(
    state: State,
    dholder: word,
    sHolder: word,
    d: word,
    modmultReset: bool,   // active low, as in the source
    modmultReady: bool,
    generatedDone: bool,
    mult: Circuit)

  /** What a clock edge sees. */
  datatype Input = Input(resetN: bool, compute: bool, e: word, phi: word)

  // ---------------------------------------------------------------- One clock edge

  function NextState(c: Config, input: Input): State {
    match c.state
    case Reset => Wait
    case Wait => if input.compute then InitModmult else Wait
    case InitModmult => if c.mult.done then InitDone else InitModmult
    case InitDone => InitReset
    case InitReset => InitResetDone
    case InitResetDone => ModmultLoop0
    case ModmultLoop0 => if c.mult.done then ModmultLoop1 else ModmultLoop0
    case ModmultLoop1 => Compare
    case Compare => if c.sHolder != 1 then InitReset else Decrement
    case Decrement => Finished
    case Finished => if input.compute then Finished else Wait
  }

  /** The multiplier's input wires. */
  function WiresOf(c: Config, input: Input): Multiplier.Wires {
    Multiplier.Wires(c.modmultReady, input.e, c.dholder, input.phi)
  }

  function MultiplierStep(c: Config, input: Input): Circuit {
    if c.modmultReset then Multiplier.Step(c.mult, WiresOf(c, input)) else Multiplier.CLEARED
  }

  /** The registers the second clocked block drives. */
  function Driven(c: Config): Config {
    match c.state
    case Reset =>
      c.(modmultReset := false, modmultReady := false, generatedDone := false,
         dholder := 1, d := 5, sHolder := 0)
    case Wait => c.(modmultReset := true)
    case InitModmult => c.(modmultReady := true)
    case InitDone => c.(modmultReady := false, sHolder := c.mult.result)
    case InitReset => c.(modmultReset := false)
    case InitResetDone => c.(modmultReset := true)
    case ModmultLoop0 => c.(modmultReady := true)
    case ModmultLoop1 =>
      c.(modmultReady := false, sHolder := c.mult.result, dholder := (c.dholder + 1) % WORD)
    case Compare => c
    case Decrement => c.(d := (c.dholder - 1) % WORD)
    case Finished => c.(generatedDone := true)
  }

  /** A low reset line puts the machine in RESET ahead of the edge. */
  function Step(c: Config, input: Input): Config {
    if input.resetN then Driven(c).(state := NextState(c, input), mult := MultiplierStep(c, input))
    else Driven(c.(state := Reset)).(mult := MultiplierStep(c, input))
  }

  /** The circuit itself: `Clock` is one positive edge of the clock. */
  class GenerateD {
    var state: State
    var dholder: word
    var sHolder: word
    var d: word
    var modmultReset: bool
    var modmultReady: bool
    var generatedDone: bool
    var mult: Circuit

    function Registers(): Config
      reads this
    {
      Config(state, dholder, sHolder, d, modmultReset, modmultReady, generatedDone, mult)
    }

    constructor PowerUp(c: Config)
      ensures Registers() == c.(state := Reset)
    {
      state, dholder, sHolder, d := Reset, c.dholder, c.sHolder, c.d;
      modmultReset, modmultReady := c.modmultReset, c.modmultReady;
      generatedDone, mult := c.generatedDone, c.mult;
    }

    /** The combinational block. */
    method ComputeNextState(input: Input) returns (nextState: State)
      ensures nextState == NextState(Registers(), input)
    {
      nextState := state;
      match state {
        case Reset => nextState := Wait;
        case Wait => if input.compute { nextState := InitModmult; }
        case InitModmult => if mult.done { nextState := InitDone; }
        case InitDone => nextState := InitReset;
        case InitReset => nextState := InitResetDone;
        case InitResetDone => nextState := ModmultLoop0;
        case ModmultLoop0 => if mult.done { nextState := ModmultLoop1; }
        case ModmultLoop1 => nextState := Compare;
        case Compare => if sHolder != 1 { nextState := InitReset; } else if sHolder == 1 { nextState := Decrement; }
        case Decrement => nextState := Finished;
        case Finished => if !input.compute { nextState := Wait; } else { nextState := Finished; }
      }
    }

    /** The clocked block that drives the other registers. */
    method Drive()
      modifies this
      ensures Registers() == Driven(old(Registers()))
      ensures state == old(state)
    {
      match state {
        case Reset =>
          modmultReset, modmultReady, generatedDone := false, false, false;
          dholder, d, sHolder := 1, 5, 0;
        case Wait => modmultReset := true;
        case InitModmult => modmultReady := true;
        case InitDone => modmultReady, sHolder := false, mult.result;
        case InitReset => modmultReset := false;
        case InitResetDone => modmultReset := true;
        case ModmultLoop0 => modmultReady := true;
        case ModmultLoop1 =>
          modmultReady, sHolder := false, mult.result;
          dholder := (dholder + 1) % WORD;
        case Compare =>
        case Decrement => d := (dholder - 1) % WORD;
        case Finished => generatedDone := true;
      }
    }

    method Clock(input: Input)
      modifies this
      ensures Registers() == Step(old(Registers()), input)
    {
      hide NextState, MultiplierStep, Driven;
      var nextMult := MultiplierStep(Registers(), input);
      if !input.resetN { state := Reset; }
      var nextState := ComputeNextState(input);
      Drive();
      if input.resetN { state := nextState; }
      mult := nextMult;
    }

    /** Any finite input history drives the registers along the trace of `Step`. */
    method Run(inputs: seq<Input>)
      modifies this
      ensures Registers() == ConfigAfter(old(Registers()), inputs)
    {
      ghost var initial := Registers();
      assert inputs[..0] == [];
      for n := 0 to |inputs|
        invariant Registers() == ConfigAfter(initial, inputs[..n])
      {
        Clock(inputs[n]);
        assert inputs[..n + 1][..n] == inputs[..n];
      }
      assert inputs[..|inputs|] == inputs;
    }
  }

  function ConfigAfter(c: Config, inputs: seq<Input>): Config {
    if inputs == [] then c
    else Step(ConfigAfter(c, inputs[..|inputs| - 1]), inputs[|inputs| - 1])
  }

  // ---------------------------------------------------------------- Traces and runs

  /** The registers before edge `n` of an unbounded input history. */
  function ConfigAt(c: Config, inputs: nat -> Input, n: nat): Config {
    if n == 0 then c else Step(ConfigAt(c, inputs, n - 1), inputs(n - 1))
  }

  /** The key inputs do not change, and the circuit is not reset, from edge `i` up to edge `j`. */
  ghost predicate Stable(inputs: nat -> Input, i: nat, j: nat, e: word, phi: word) {
    forall n: nat :: i <= n < j ==> inputs(n).resetN && inputs(n).e == e && inputs(n).phi == phi
  }

  /** The machine is inside the search. */
  predicate Searching(s: State) {
    s != Reset && s != Wait && s != Finished
  }

  /** A run leaves WAIT at edge `i` and is first in FINISHED before edge `j`. */
  ghost predicate CompletedRun(c: Config, inputs: nat -> Input, i: nat, j: nat, e: word, phi: word) {
    && i + 1 < j
    && Stable(inputs, i, j, e, phi)
    && ConfigAt(c, inputs, i).state == Wait && inputs(i).compute
    && (forall n: nat :: i < n < j ==> Searching(ConfigAt(c, inputs, n).state))
    && ConfigAt(c, inputs, j).state == Finished
  }

  /** The multiplier answers 1 for the counter value `x`. */
  predicate Hit(e: word, phi: word, x: nat)
    requires phi > 0
  {
    Multiplier.Answer(e, x % WORD, phi) == 1
  }

  /** No counter value from `start` up to `end` is a hit. */
  ghost predicate Misses(e: word, phi: word, start: nat, end: nat)
    requires phi > 0
  {
    forall x: nat :: start <= x < end ==> !Hit(e, phi, x)
  }

  /** Counting up from `start` without bound, `x` is the first hit. */
  ghost predicate FirstHit(e: word, phi: word, start: nat, x: nat)
    requires phi > 0
  {
    start <= x && Hit(e, phi, x) && Misses(e, phi, start, x)
  }

  /** The wires while the generator holds ready on its current counter. */
  function Held(c: Config, e: word, phi: word): Multiplier.Wires {
    Multiplier.Wires(true, e, c.dholder, phi)
  }

  /** After a reset the multiplier waits for ready, works on the current counter, or holds its answer. */
  predicate Fresh(c: Config, e: word, phi: word)
    requires phi > 0
  {
    && c.modmultReset
    && (|| c.mult == Multiplier.CLEARED || Multiplier.Waiting(c.mult)
        || (c.modmultReady && Multiplier.InProgress(c.mult, Held(c, e, phi)))
        || HoldsAnswer(c, e, phi))
  }

  predicate HoldsAnswer(c: Config, e: word, phi: word)
    requires phi > 0
  {
    c.modmultReset && c.modmultReady && Multiplier.Answered(c.mult, Held(c, e, phi))
  }

  /** A fresh multiplier has raised done only with its answer. */
  lemma FreshDone(c: Config, e: word, phi: word)
    requires phi > 0 && Fresh(c, e, phi) && c.mult.done
    ensures HoldsAnswer(c, e, phi)
  {
    if Multiplier.InProgress(c.mult, Held(c, e, phi)) && c.modmultReady {
      Multiplier.ProgressStep(c.mult, Held(c, e, phi));
    }
  }

  /** With ready set or about to be, a fresh multiplier stays fresh and gets closer to its answer. */
  lemma FreshStep(c: Config, e: word, phi: word)
    requires phi > 0 && Fresh(c, e, phi)
    ensures var wires := Multiplier.Wires(c.modmultReady, e, c.dholder, phi);
            var next := c.(mult := Multiplier.Step(c.mult, wires), modmultReady := true);
            && Fresh(next, e, phi)
            && (HoldsAnswer(c, e, phi) ==> HoldsAnswer(next, e, phi))
            && (!c.mult.done ==>
                  || MultStage(next) < MultStage(c)
                  || (MultStage(next) == MultStage(c) && Multiplier.Work(next.mult) < Multiplier.Work(c.mult)))
  {
    var wires := Multiplier.Wires(c.modmultReady, e, c.dholder, phi);
    Multiplier.WaitingStep(c.mult, wires);
    if c.modmultReady && Multiplier.InProgress(c.mult, wires) {
      Multiplier.ProgressStep(c.mult, wires);
    } else if HoldsAnswer(c, e, phi) {
      Multiplier.AnswerHolds(c.mult, wires);
    }
    Multiplier.AddingInMultiply(Multiplier.Step(c.mult, wires), wires);
    hide Multiplier.Step;
  }

  /** The multiplication's stage; waiting without ready comes before waiting with it. */
  function MultStage(c: Config): nat {
    if c.mult.done then 0
    else if c.mult.state.Reset? || (c.mult.state.Wait? && !c.modmultReady) then 8 + (if c.mult.state.Reset? then 1 else 0)
    else Multiplier.Stage(c.mult)
  }

  /** What every edge of a run keeps; `count` is the counter without its wrap at 2^32. */
  ghost predicate RunInvariant(c: Config, start: nat, e: word, phi: word, count: nat)
    requires phi > 0
  {
    && start <= count && c.dholder == count % WORD
    && match c.state
       case InitModmult => count == start && c.modmultReset
       case InitDone => count == start && c.modmultReset
       case InitReset => Misses(e, phi, start, count) && c.modmultReset
       case InitResetDone => Misses(e, phi, start, count) && !c.modmultReset
       case ModmultLoop0 => Misses(e, phi, start, count) && Fresh(c, e, phi)
       case ModmultLoop1 =>
         && Misses(e, phi, start, count)
         && HoldsAnswer(c, e, phi)
       case Compare =>
         && count > start && Misses(e, phi, start, count - 1) && c.modmultReset
         && (c.sHolder == 1 <==> Hit(e, phi, count - 1))
       case Decrement => count > start && FirstHit(e, phi, start, count - 1)
       case Finished =>
         && count > start && FirstHit(e, phi, start, count - 1)
         && c.d == (count - 1) % WORD
       case _ => false
  }

  /** The counter steps only in the second loop state. */
  function NextCount(c: Config, count: nat): nat {
    if c.state == ModmultLoop1 then count + 1 else count
  }

  lemma CounterStep(x: int)
    ensures (x % WORD + 1) % WORD == (x + 1) % WORD
    ensures (x % WORD - 1) % WORD == (x - 1) % WORD
  {
  }

  lemma RunInvariantStep(c: Config, input: Input, start: nat, e: word, phi: word, count: nat)
    requires phi > 0 && RunInvariant(c, start, e, phi, count)
    requires Searching(c.state) && input.resetN && input.e == e && input.phi == phi
    ensures RunInvariant(Step(c, input), start, e, phi, NextCount(c, count))
  {
    CounterStep(count);
    if c.state == ModmultLoop0 {
      FreshStep(c, e, phi);
      if c.mult.done {
        FreshDone(c, e, phi);
      }
    }
    hide Multiplier.Step, Multiplier.Answer, Multiplier.InProgress, Multiplier.Waiting;
  }

  lemma RunStarts(c: Config, input: Input, e: word, phi: word)
    requires phi > 0 && c.state == Wait && input.compute && input.resetN
    ensures RunInvariant(Step(c, input), c.dholder, e, phi, c.dholder)
  {
  }

  lemma {:induction false} RunInvariantHolds(
    c: Config, inputs: nat -> Input, i: nat, j: nat, e: word, phi: word)
    returns (count: nat)
    requires phi > 0 && i < j && Stable(inputs, i, j, e, phi)
    requires ConfigAt(c, inputs, i).state == Wait && inputs(i).compute
    requires forall n: nat :: i < n < j ==> Searching(ConfigAt(c, inputs, n).state)
    ensures RunInvariant(ConfigAt(c, inputs, j), ConfigAt(c, inputs, i).dholder, e, phi, count)
  {
    hide Step, RunInvariant;
    var start := ConfigAt(c, inputs, i).dholder;
    if j == i + 1 {
      count := start;
      RunStarts(ConfigAt(c, inputs, i), inputs(i), e, phi);
    } else {
      var before := ConfigAt(c, inputs, j - 1);
      var previous := RunInvariantHolds(c, inputs, i, j - 1, e, phi);
      RunInvariantStep(before, inputs(j - 1), start, e, phi, previous);
      count := NextCount(before, previous);
    }
  }

  /**
   Every completed run, whatever came before it, ends with the first counter
   value `x` from the run's start on that the multiplier answers 1 for.  The
   initial multiplication, stale on every run but the first, plays no part.
   The counter is left one past the key, where the next run begins.
   */
  lemma RunFindsFirstHit(c: Config, inputs: nat -> Input, i: nat, j: nat, e: word, phi: word)
    returns (x: nat)
    requires phi > 0 && CompletedRun(c, inputs, i, j, e, phi)
    ensures FirstHit(e, phi, ConfigAt(c, inputs, i).dholder, x)
    ensures ConfigAt(c, inputs, j).d == x % WORD
    ensures ConfigAt(c, inputs, j).dholder == (x + 1) % WORD
  {
    hide Step, ConfigAt, FirstHit;
    var count := RunInvariantHolds(c, inputs, i, j, e, phi);
    x := count - 1;
  }

  // ---------------------------------------------------------------- Runs whose products fit a word

  /** `d` is the least value from `start` on that is inverse to `e`. */
  ghost predicate IsNextInverse(d: int, start: int, e: int, phi: int)
    requires phi > 0
  {
    && d >= start && (e * d) % phi == 1
    && forall x :: start <= x < d ==> (e * x) % phi != 1
  }

  lemma BelowWord(e: nat, x: nat, bound: nat)
    requires e > 0 && x <= bound && e * bound < WORD - 1
    ensures e * x < WORD - 1 && x <= bound < WORD - 1
  {
    Rsa.MulLe(e, x, e, bound);
    Rsa.MulLe(1, bound, e, bound);
  }

  lemma HitWithoutWrap(e: word, phi: word, x: nat, bound: nat)
    requires phi > 0 && e > 0 && x <= bound && e * bound < WORD - 1
    ensures Hit(e, phi, x) <==> (e * x) % phi == 1
  {
    BelowWord(e, x, bound);
    DivModUnique(x, WORD, 0, x);
    DivModUnique(e * x, WORD, 0, e * x);
  }

  lemma NextInverseIsFirstHit(e: word, phi: word, start: nat, y: nat, x: nat)
    requires phi > 0 && e > 0 && FirstHit(e, phi, start, y)
    requires IsNextInverse(x, start, e, phi) && e * x < WORD - 1
    ensures y == x
  {
    HitWithoutWrap(e, phi, x, x);
    if y < x {
      HitWithoutWrap(e, phi, y, x);
    }
  }

  /**
   With an inverse `x` of e in reach of 32-bit products, a run ends with the
   least inverse at or above the counter's value at its start.
   */
  lemma RunFindsNextInverse(
    c: Config, inputs: nat -> Input, i: nat, j: nat, e: word, phi: word, x: nat)
    requires phi > 0 && e > 0 && CompletedRun(c, inputs, i, j, e, phi)
    requires x >= ConfigAt(c, inputs, i).dholder && (e * x) % phi == 1 && e * x < WORD - 1
    ensures IsNextInverse(ConfigAt(c, inputs, j).d, ConfigAt(c, inputs, i).dholder, e, phi)
    ensures ConfigAt(c, inputs, j).d <= x
    ensures ConfigAt(c, inputs, j).dholder == (ConfigAt(c, inputs, j).d + 1) % WORD
  {
    hide Step, CompletedRun, Hit, ConfigAt;
    var start := ConfigAt(c, inputs, i).dholder;
    var hit := RunFindsFirstHit(c, inputs, i, j, e, phi);
    var y := LeastFrom(start, x, e, phi);
    BelowWord(e, y, x);
    NextInverseIsFirstHit(e, phi, start, hit, y);
    DivModUnique(y, WORD, 0, y);
  }

  lemma LeastFrom(start: nat, x: nat, e: int, phi: int) returns (y: nat)
    requires phi > 0 && x >= start && (e * x) % phi == 1
    ensures y <= x && IsNextInverse(y, start, e, phi)
  {
    if z: nat :| start <= z < x && (e * z) % phi == 1 {
      y := LeastFrom(start, z, e, phi);
    } else {
      y := x;
    }
  }

  // ---------------------------------------------------------------- Consecutive runs

  /** From FINISHED back through WAIT to the start of the next run. */
  ghost predicate Rests(c: Config, inputs: nat -> Input, j: nat, i: nat) {
    && j <= i
    && (forall n: nat :: j <= n < i ==> inputs(n).resetN)
    && (forall n: nat :: j <= n <= i ==>
          ConfigAt(c, inputs, n).state == Finished || ConfigAt(c, inputs, n).state == Wait)
  }

  lemma RestStep(c: Config, input: Input)
    requires (c.state == Finished || c.state == Wait) && input.resetN
    ensures Step(c, input).dholder == c.dholder && Step(c, input).d == c.d
  {
  }

  lemma {:induction false} RestKeepsCounter(c: Config, inputs: nat -> Input, j: nat, i: nat)
    requires Rests(c, inputs, j, i)
    ensures ConfigAt(c, inputs, i).dholder == ConfigAt(c, inputs, j).dholder
    ensures ConfigAt(c, inputs, i).d == ConfigAt(c, inputs, j).d
    decreases i
  {
    hide Step;
    if i > j {
      RestKeepsCounter(c, inputs, j, i - 1);
      RestStep(ConfigAt(c, inputs, i - 1), inputs(i - 1));
    }
  }

  /** Inverses of the same exponent repeat with period phi and no less. */
  lemma NextInverseAfter(d: nat, e: nat, phi: int)
    requires phi >= 2 && (e * d) % phi == 1
    ensures IsNextInverse(d + phi, d + 1, e, phi)
  {
    hide Coprime, Divides;
    assert e * (d + phi) == e * d + phi * e;
    DividesWitness(phi, phi * e, e);
    ModAddMultiple(e * d, phi * e, phi);
    assert e * d == d * e;
    InverseImpliesCoprime(d, e, phi);
    CoprimeSymmetric(e, phi);
    forall x | d + 1 <= x < d + phi
      ensures (e * x) % phi != 1
    {
      if (e * x) % phi == 1 {
        SameInverse(x, d, e, phi);
        DivisorBound(phi, x - d);
      }
    }
  }

  /** Two inverses of the same exponent are congruent. */
  lemma SameInverse(x: nat, d: nat, e: nat, phi: int)
    requires phi >= 2 && Coprime(phi, e) && (e * x) % phi == (e * d) % phi
    ensures Divides(phi, x - d)
  {
    hide Coprime, Divides;
    SameRemainder(e * x, e * d, phi);
    assert e * x - e * d == e * (x - d);
    EuclidCoprime(phi, e, x - d);
  }

  lemma CoprimeSymmetric(a: int, b: int)
    requires Coprime(a, b)
    ensures Coprime(b, a)
  {
    forall k | k >= 2 && Divides(k, b)
      ensures !Divides(k, a)
    {
    }
  }

  /**
   The counter is not reset between runs: running again on the same key gives
   the key plus phi, inverse to e but no longer the least one.
   */
  lemma SecondRunAddsPhi(
    c: Config, inputs: nat -> Input, i: nat, j: nat, i': nat, j': nat,
    e: word, phi: word, reach: nat)
    requires phi >= 2 && e > 0 && Coprime(e, phi)
    requires CompletedRun(c, inputs, i, j, e, phi) && CompletedRun(c, inputs, i', j', e, phi)
    requires Rests(c, inputs, j, i')
    requires ConfigAt(c, inputs, i).dholder + 2 * phi <= reach && e * reach < WORD - 1
    ensures ConfigAt(c, inputs, j').d == ConfigAt(c, inputs, j).d + phi
  {
    hide Step, ConfigAt, CompletedRun, Rests, Coprime;
    var d := ConfigAt(c, inputs, j).d;
    var x := InverseFrom(ConfigAt(c, inputs, i).dholder, e, phi);
    BelowWord(e, x, reach);
    RunFindsNextInverse(c, inputs, i, j, e, phi, x);
    var y: nat := d + phi;
    assert y <= reach;
    BelowWord(e, y, reach);
    SmallCounter(d);
    RestKeepsCounter(c, inputs, j, i');
    RunFromNextCounter(c, inputs, i', j', e, phi, d, y);
  }

  lemma SmallCounter(d: nat)
    requires d + 1 < WORD
    ensures (d + 1) % WORD == d + 1
  {
  }

  lemma RunFromNextCounter(
    c: Config, inputs: nat -> Input, i: nat, j: nat, e: word, phi: word, d: nat, y: nat)
    requires phi >= 2 && e > 0 && CompletedRun(c, inputs, i, j, e, phi)
    requires ConfigAt(c, inputs, i).dholder == d + 1 && (e * d) % phi == 1
    requires y == d + phi && e * y < WORD - 1
    ensures ConfigAt(c, inputs, j).d == y
  {
    NextInverseAfter(d, e, phi);
    RunFindsNextInverse(c, inputs, i, j, e, phi, y);
    NextInverseUnique(ConfigAt(c, inputs, j).d, y, d + 1, e, phi);
  }

  lemma NextInverseUnique(x: int, y: int, start: int, e: int, phi: int)
    requires phi > 0 && IsNextInverse(x, start, e, phi) && IsNextInverse(y, start, e, phi)
    ensures x == y
  {
  }

  lemma InverseFrom(start: nat, e: int, phi: int) returns (x: nat)
    requires phi >= 2 && e >= 1 && Coprime(e, phi)
    ensures start <= x < start + phi && (e * x) % phi == 1
  {
    var d := Inverse(e, phi);
    var r := (d - start) % phi;
    x := start + r;
    assert d - x == phi * ((d - start) / phi);
    assert e * d - e * x == e * (d - x);
    DividesWitness(phi, d - x, (d - start) / phi);
    DividesMultiple(phi, d - x, e);
    SameRemainder(e * d, e * x, phi);
    assert d * e == e * d;
  }

  // ---------------------------------------------------------------- Termination

  /** Done is set and stays set: the multiplier is not in its reset state. */
  predicate Done(m: Circuit) {
    m.done && !m.state.Reset?
  }

  /** Between runs the multiplier is about to be reset, already done, or idle. */
  ghost predicate RestInvariant(c: Config) {
    match c.state
    case Wait =>
      !c.modmultReady && (!c.modmultReset || Done(c.mult) || c.mult == Multiplier.CLEARED || Multiplier.Waiting(c.mult))
    case Finished => !c.modmultReady && c.modmultReset && Done(c.mult)
    case Decrement => !c.modmultReady && c.modmultReset && Done(c.mult)
    case Compare => !c.modmultReady && c.modmultReset && Done(c.mult)
    case ModmultLoop1 => c.modmultReset && Done(c.mult)
    case ModmultLoop0 => c.modmultReset && (c.mult.done ==> Done(c.mult))
    case InitResetDone => !c.modmultReset
    case _ => true
  }

  lemma RestInvariantStep(c: Config, input: Input)
    requires RestInvariant(c)
    ensures RestInvariant(Step(c, input))
  {
    if c.modmultReset {
      Multiplier.WaitingStep(c.mult, WiresOf(c, input));
      if Done(c.mult) {
        Multiplier.DoneHolds(c.mult, WiresOf(c, input));
      }
      Multiplier.ResetIsLeft(c.mult, WiresOf(c, input));
    }
    hide Multiplier.Step, Multiplier.Waiting;
  }

  lemma {:induction false} RestInvariantHolds(c: Config, inputs: nat -> Input, n: nat)
    requires c.state == Reset
    ensures RestInvariant(ConfigAt(c, inputs, n))
  {
    hide Step, RestInvariant;
    if n > 0 {
      RestInvariantHolds(c, inputs, n - 1);
      RestInvariantStep(ConfigAt(c, inputs, n - 1), inputs(n - 1));
    } else {
      ResetRests(c);
    }
  }

  lemma ResetRests(c: Config)
    requires c.state == Reset
    ensures RestInvariant(c)
  {
  }

  /** The position in the loop, counted down to the next comparison. */
  function Rank(s: State): nat {
    match s
    case InitModmult => 8
    case InitDone => 7
    case Compare => 6
    case InitReset => 5
    case InitResetDone => 4
    case ModmultLoop0 => 3
    case ModmultLoop1 => 2
    case Decrement => 1
    case _ => 0
  }

  /** The counter values still to be tried before the target has been. */
  function Distance(count: nat, target: nat): nat {
    if count <= target then target + 1 - count else 0
  }

  /** In the initial multiplication the answer may be stale but does come. */
  ghost predicate Answers(c: Config, e: word, phi: word)
    requires phi > 0
  {
    c.state == InitModmult ==> Done(c.mult) || Fresh(c, e, phi)
  }

  lemma RunStartsAnswering(c: Config, input: Input)
    requires c.state == Wait && RestInvariant(c) && input.phi > 0 && input.compute && input.resetN
    ensures Answers(Step(c, input), input.e, input.phi)
  {
    if c.modmultReset {
      Multiplier.WaitingStep(c.mult, WiresOf(c, input));
      if Done(c.mult) {
        Multiplier.DoneHolds(c.mult, WiresOf(c, input));
      }
    }
    hide Multiplier.Step, Multiplier.Waiting;
  }

  /** From edge `i` on the key inputs never change and the circuit is not reset. */
  ghost predicate KeyHeld(inputs: nat -> Input, i: nat, e: word, phi: word) {
    forall n: nat :: i <= n ==> inputs(n).resetN && inputs(n).e == e && inputs(n).phi == phi
  }

  /**
   From any point of a run the machine reaches FINISHED, by the distance to the
   next hit, then the position in the loop, then the progress of the multiplier.
   */
  lemma {:induction false} ReachesFinished(
    c: Config, inputs: nat -> Input, n: nat, start: nat, e: word, phi: word, count: nat, target: nat)
    returns (j: nat)
    requires phi > 0 && target >= start && Hit(e, phi, target)
    requires KeyHeld(inputs, n, e, phi)
    requires RunInvariant(ConfigAt(c, inputs, n), start, e, phi, count)
    requires Searching(ConfigAt(c, inputs, n).state) && Answers(ConfigAt(c, inputs, n), e, phi)
    ensures j > n && ConfigAt(c, inputs, j).state == Finished
    ensures forall t: nat :: n <= t < j ==> Searching(ConfigAt(c, inputs, t).state)
    decreases Distance(count, target), Rank(ConfigAt(c, inputs, n).state),
              MultStage(ConfigAt(c, inputs, n)), Multiplier.Work(ConfigAt(c, inputs, n).mult)
  {
    hide Step, RunInvariant, Answers, Rank, MultStage, Multiplier.Work, Hit;
    var now := ConfigAt(c, inputs, n);
    var next := ConfigAt(c, inputs, n + 1);
    assert next == Step(now, inputs(n));
    if now.state == Decrement {
      DecrementFinishes(now, inputs(n));
      j := n + 1;
    } else {
      RunInvariantStep(now, inputs(n), start, e, phi, count);
      EdgeDecreases(now, inputs(n), start, e, phi, count, target);
      j := ReachesFinished(c, inputs, n + 1, start, e, phi, NextCount(now, count), target);
    }
  }

  lemma DecrementFinishes(c: Config, input: Input)
    requires c.state == Decrement && input.resetN
    ensures Step(c, input).state == Finished
  {
  }

  lemma EdgeDecreases(
    c: Config, input: Input, start: nat, e: word, phi: word, count: nat, target: nat)
    requires phi > 0 && target >= start && Hit(e, phi, target)
    requires RunInvariant(c, start, e, phi, count) && Answers(c, e, phi)
    requires Searching(c.state) && c.state != Decrement
    requires input.resetN && input.e == e && input.phi == phi
    ensures var next := Step(c, input);
            && Searching(next.state) && Answers(next, e, phi)
            && (|| (c.state == ModmultLoop1 && count <= target)
                || Rank(next.state) < Rank(c.state)
                || (&& next.state == c.state
                    && (|| MultStage(next) < MultStage(c)
                        || (MultStage(next) == MultStage(c) && Multiplier.Work(next.mult) < Multiplier.Work(c.mult)))))
  {
    if c.state == ModmultLoop0 || (c.state == InitModmult && !Done(c.mult)) {
      FreshStep(c, e, phi);
    }
    hide Multiplier.Step, Multiplier.InProgress, Multiplier.Waiting, Multiplier.Work, MultStage;
  }

  /**
   Every run on a key with an inverse completes
   once the inputs are held: there is an inverse among the next phi counter values.
   */
  lemma RunCompletes(c: Config, inputs: nat -> Input, i: nat, e: word, phi: word)
    returns (j: nat)
    requires c.state == Reset && ConfigAt(c, inputs, i).state == Wait && inputs(i).compute
    requires KeyHeld(inputs, i, e, phi)
    requires phi >= 2 && e >= 1 && Coprime(e, phi)
    requires e * (ConfigAt(c, inputs, i).dholder + phi) < WORD - 1
    ensures CompletedRun(c, inputs, i, j, e, phi)
  {
    RestInvariantHolds(c, inputs, i);
    j := StartedRunCompletes(c, inputs, i, e, phi);
  }

  lemma StartedRunCompletes(c: Config, inputs: nat -> Input, i: nat, e: word, phi: word)
    returns (j: nat)
    requires ConfigAt(c, inputs, i).state == Wait && RestInvariant(ConfigAt(c, inputs, i)) && inputs(i).compute
    requires KeyHeld(inputs, i, e, phi)
    requires phi >= 2 && e >= 1 && Coprime(e, phi)
    requires e * (ConfigAt(c, inputs, i).dholder + phi) < WORD - 1
    ensures CompletedRun(c, inputs, i, j, e, phi)
  {
    hide Step, ConfigAt, RunInvariant, Answers, RestInvariant, Hit, Coprime;
    var now := ConfigAt(c, inputs, i);
    var x := InverseFrom(now.dholder, e, phi);
    HitWithoutWrap(e, phi, x, now.dholder + phi);
    ConfigNext(c, inputs, i);
    RunStarts(now, inputs(i), e, phi);
    RunStartsSearching(now, inputs(i));
    RunStartsAnswering(now, inputs(i));
    j := ReachesFinished(c, inputs, i + 1, now.dholder, e, phi, now.dholder, x);
    assert Stable(inputs, i, j, e, phi);
  }

  lemma ConfigNext(c: Config, inputs: nat -> Input, n: nat)
    ensures ConfigAt(c, inputs, n + 1) == Step(ConfigAt(c, inputs, n), inputs(n))
  {
  }

  lemma RunStartsSearching(c: Config, input: Input)
    requires c.state == Wait && input.compute && input.resetN
    ensures Searching(Step(c, input).state)
  {
  }

  // ---------------------------------------------------------------- Agreement with the software

  /**
   Every completed run, the first or a later one, ends with the least inverse
   of e exactly when the counter started at or below it.
   */
  lemma RunFindsLeastInverseIff(
    c: Config, inputs: nat -> Input, i: nat, j: nat, e: word, phi: word, least: nat)
    requires phi >= 2 && e > 0 && CompletedRun(c, inputs, i, j, e, phi)
    requires Rsa.IsLeastInverse(least, e, phi)
    requires e * (ConfigAt(c, inputs, i).dholder + phi) < WORD - 1
    ensures ConfigAt(c, inputs, j).d == least <==> ConfigAt(c, inputs, i).dholder <= least
  {
    hide Step, CompletedRun, ConfigAt, Coprime;
    var start, d := ConfigAt(c, inputs, i).dholder, ConfigAt(c, inputs, j).d;
    InverseImpliesCoprime(least, e, phi);
    var x := InverseFrom(start, e, phi);
    Rsa.MulLe(e, x, e, start + phi);
    RunFindsNextInverse(c, inputs, i, j, e, phi, x);
    assert e * least == least * e && e * d == d * e;
    if start <= least && d < least {
      NotInverseBelow(d, least, e, phi);
    }
  }

  /** Below the least inverse there is none, 0 included. */
  lemma NotInverseBelow(d: nat, least: nat, e: int, phi: int)
    requires phi >= 2 && Rsa.IsLeastInverse(least, e, phi) && d < least
    ensures (d * e) % phi != 1
  {
    if d == 0 {
      assert d * e == 0;
    }
  }

  /**
   A completed run computes the key that the C search computes exactly when e
   is not 1, where the C loop is never entered, and the counter has not passed
   that key, as after an earlier run it has.
   */
  lemma RunAgreesWithSoftwareIff(
    c: Config, inputs: nat -> Input, i: nat, j: nat, e: word, phi: word, k: nat)
    requires phi >= 2 && 1 <= e < phi && CompletedRun(c, inputs, i, j, e, phi)
    requires e * (ConfigAt(c, inputs, i).dholder + phi) < WORD - 1
    requires Rsa.StopsAfter(e, phi, k)
    ensures ConfigAt(c, inputs, j).d == k <==> e != 1 && ConfigAt(c, inputs, i).dholder <= k
  {
    hide Step, CompletedRun, ConfigAt, Coprime, Rsa.StopsAfter;
    Rsa.StopIsLeastInverse(e, phi, k);
    DivModUnique(e, phi, 0, e);
    if k > 0 {
      RunFindsLeastInverseIff(c, inputs, i, j, e, phi, k);
    } else {
      RunKeyPositive(c, inputs, i, j, e, phi);
    }
  }

  /** A run never ends with the key 0. */
  lemma RunKeyPositive(c: Config, inputs: nat -> Input, i: nat, j: nat, e: word, phi: word)
    requires phi >= 2 && e == 1 && CompletedRun(c, inputs, i, j, e, phi)
    requires e * (ConfigAt(c, inputs, i).dholder + phi) < WORD - 1
    ensures ConfigAt(c, inputs, j).d != 0
  {
    hide Step, CompletedRun, ConfigAt;
    var start := ConfigAt(c, inputs, i).dholder;
    assert Coprime(1, phi);
    var x := InverseFrom(start, e, phi);
    RunFindsNextInverse(c, inputs, i, j, e, phi, x);
  }

  /** The first run after reset ends with the least inverse of e. */
  lemma FirstRunFindsLeastInverse(c: Config, inputs: nat -> Input, i: nat, j: nat, e: word, phi: word)
    requires ConfigAt(c, inputs, i).dholder == 1 && CompletedRun(c, inputs, i, j, e, phi)
    requires phi >= 2 && 1 <= e < phi && Coprime(e, phi) && e * phi < WORD - 1
    ensures Rsa.IsLeastInverse(ConfigAt(c, inputs, j).d, e, phi)
  {
    var x := Inverse(e, phi);
    assert e * x == x * e;
    Rsa.MulLe(e, x, e, phi);
    RunFindsNextInverse(c, inputs, i, j, e, phi, x);
    forall y | 1 <= y <= ConfigAt(c, inputs, j).d
      ensures e * y == y * e
    {
    }
  }

  /** In particular the first run after reset agrees with the C search for every exponent but 1. */
  lemma FirstRunAgreesWithSoftware(
    c: Config, inputs: nat -> Input, i: nat, j: nat, e: word, phi: word, k: nat)
    requires ConfigAt(c, inputs, i).dholder == 1 && CompletedRun(c, inputs, i, j, e, phi)
    requires phi >= 2 && 1 <= e < phi && Coprime(e, phi) && e * phi < WORD - 1
    requires Rsa.StopsAfter(e, phi, k)
    ensures ConfigAt(c, inputs, j).d == k <==> e != 1
  {
    FirstRunFindsLeastInverse(c, inputs, i, j, e, phi);
    Rsa.StopIsLeastInverse(e, phi, k);
    DivModUnique(e, phi, 0, e);
    if k > 0 {
      LeastInverseUnique(ConfigAt(c, inputs, j).d, k, e, phi);
    }
  }

  lemma LeastInverseUnique(d: int, k: int, e: int, phi: int)
    requires phi > 0 && Rsa.IsLeastInverse(d, e, phi) && Rsa.IsLeastInverse(k, e, phi)
    ensures d == k
  {
  }

  /** Two edges out of reset the counter is 1 and stays 1 until the first run starts. */
  lemma {:induction false} FirstRunStartsAtOne(c: Config, inputs: nat -> Input, i: nat)
    requires c.state == Reset && i > 0 && forall n: nat :: n < i ==> inputs(n).resetN
    requires forall n: nat :: 0 < n <= i ==> ConfigAt(c, inputs, n).state == Wait
    ensures ConfigAt(c, inputs, i).dholder == 1
  {
    if i > 1 {
      FirstRunStartsAtOne(c, inputs, i - 1);
    }
  }

  // ---------------------------------------------------------------- The output lines

  /** What the output d holds from a reset until the first key is found. */
  const NO_KEY := 5

  /** Edge `r` resets the circuit, and compute is first seen at edge `i`. */
  ghost predicate StartsAfterReset(inputs: nat -> Input, r: nat, i: nat) {
    && r + 2 <= i && !inputs(r).resetN
    && (forall t: nat :: r < t < i ==> inputs(t).resetN)
    && (forall t: nat :: r + 2 <= t < i ==> !inputs(t).compute)
    && inputs(i).compute
  }

  /** Generated done is first raised, after the reset at edge `r`, by the edge before `j`. */
  ghost predicate Delivers(c: Config, inputs: nat -> Input, r: nat, j: nat) {
    r < j && ConfigAt(c, inputs, j).generatedDone && forall t: nat :: r < t < j ==> !ConfigAt(c, inputs, t).generatedDone
  }

  /** Reset and not started. */
  ghost predicate Ready(c: Config) {
    && (c.state == Reset || c.state == Wait) && RestInvariant(c)
    && c.dholder == 1 && c.d == NO_KEY && !c.generatedDone
  }

  lemma ReadyStep(c: Config, input: Input)
    ensures !input.resetN ==> Ready(Step(c, input)) && Step(c, input).state == Reset
    ensures Ready(c) && input.resetN && (c.state == Reset || !input.compute) ==>
              Ready(Step(c, input)) && Step(c, input).state == Wait
  {
    if Ready(c) {
      RestInvariantStep(c, input);
    }
    hide MultiplierStep, Multiplier.Waiting;
  }

  /** Without compute the circuit waits: nothing is announced, and no search begins. */
  lemma {:induction false} StaysReady(c: Config, inputs: nat -> Input, r: nat, i: nat, t: nat)
    requires StartsAfterReset(inputs, r, i) && r < t <= i
    ensures Ready(ConfigAt(c, inputs, t))
    ensures ConfigAt(c, inputs, t).state == if t == r + 1 then Reset else Wait
  {
    hide Step, Ready, ConfigAt;
    ConfigNext(c, inputs, t - 1);
    ReadyStep(ConfigAt(c, inputs, t - 1), inputs(t - 1));
    if t > r + 1 {
      StaysReady(c, inputs, r, i, t - 1);
    }
  }

  lemma QuietStep(c: Config, input: Input)
    requires input.resetN && (c.state == Wait || Searching(c.state))
    ensures Step(c, input).generatedDone == c.generatedDone
    ensures Step(c, input).state != Finished ==> Step(c, input).d == c.d
  {
  }

  /** During a run the done line keeps its value, and the output d too, until FINISHED is entered. */
  lemma {:induction false} RunIsQuiet(
    c: Config, inputs: nat -> Input, i: nat, j: nat, e: word, phi: word, t: nat)
    requires CompletedRun(c, inputs, i, j, e, phi) && i <= t <= j
    ensures ConfigAt(c, inputs, t).generatedDone == ConfigAt(c, inputs, i).generatedDone
    ensures t < j ==> ConfigAt(c, inputs, t).d == ConfigAt(c, inputs, i).d
  {
    hide Step, ConfigAt;
    if t > i {
      RunIsQuiet(c, inputs, i, j, e, phi, t - 1);
      ConfigNext(c, inputs, t - 1);
      QuietStep(ConfigAt(c, inputs, t - 1), inputs(t - 1));
    }
  }

  /** The edge after FINISHED is entered raises the done line, the key still out. */
  lemma RunRaisesDone(c: Config, inputs: nat -> Input, i: nat, j: nat, e: word, phi: word)
    requires CompletedRun(c, inputs, i, j, e, phi) && inputs(j).resetN
    ensures ConfigAt(c, inputs, j + 1).generatedDone
    ensures ConfigAt(c, inputs, j + 1).d == ConfigAt(c, inputs, j).d
  {
  }

  /**
   The first search after a reset, on a held key with an inverse, raises the
   done line when the least inverse is out, and not before; until the key is
   found the output d keeps its reset value.
   */
  lemma FirstKeyCompletes(c: Config, inputs: nat -> Input, r: nat, i: nat, e: word, phi: word)
    returns (j: nat)
    requires StartsAfterReset(inputs, r, i) && KeyHeld(inputs, i, e, phi)
    requires phi >= 2 && 1 <= e < phi && Coprime(e, phi) && e * (1 + phi) < WORD - 1
    ensures i + 1 < j && Delivers(c, inputs, r, j)
    ensures Rsa.IsLeastInverse(ConfigAt(c, inputs, j).d, e, phi)
    ensures CompletedRun(c, inputs, i, j - 1, e, phi)
    ensures forall t: nat :: r < t < j - 1 ==> ConfigAt(c, inputs, t).d == NO_KEY
  {
    hide Step, ConfigAt, Ready, CompletedRun, Coprime, RestInvariant, Rsa.IsLeastInverse;
    StaysReady(c, inputs, r, i, i);
    ReadyFacts(ConfigAt(c, inputs, i));
    assert e * (1 + phi) == e + e * phi;
    var finished := StartedRunCompletes(c, inputs, i, e, phi);
    FirstRunFindsLeastInverse(c, inputs, i, finished, e, phi);
    CompletedFacts(c, inputs, i, finished, e, phi);
    RunRaisesDone(c, inputs, i, finished, e, phi);
    j := finished + 1;
    forall t: nat | r < t < j
      ensures !ConfigAt(c, inputs, t).generatedDone
      ensures t < j - 1 ==> ConfigAt(c, inputs, t).d == NO_KEY
    {
      if t <= i {
        StaysReady(c, inputs, r, i, t);
        ReadyFacts(ConfigAt(c, inputs, t));
      } else {
        RunIsQuiet(c, inputs, i, finished, e, phi, t);
      }
    }
  }

  lemma ReadyFacts(c: Config)
    requires Ready(c)
    ensures RestInvariant(c) && c.dholder == 1 && c.d == NO_KEY && !c.generatedDone
  {
  }

  lemma CompletedFacts(c: Config, inputs: nat -> Input, i: nat, j: nat, e: word, phi: word)
    requires CompletedRun(c, inputs, i, j, e, phi)
    ensures i + 1 < j
  {
  }

  lemma {:induction false} ConfigAgrees(c: Config, inputs: nat -> Input, inputs': nat -> Input, t: nat)
    requires forall u: nat :: u < t ==> inputs(u) == inputs'(u)
    ensures ConfigAt(c, inputs, t) == ConfigAt(c, inputs', t)
  {
    hide Step;
    if t > 0 {
      ConfigAgrees(c, inputs, inputs', t - 1);
    }
  }

  /** What the done line announces first after a reset is the least inverse; the key need be held only until then. */
  lemma FirstKeyIsLeastInverse(
    c: Config, inputs: nat -> Input, r: nat, i: nat, j: nat, e: word, phi: word)
    requires StartsAfterReset(inputs, r, i) && Stable(inputs, i, j, e, phi) && Delivers(c, inputs, r, j)
    requires phi >= 2 && 1 <= e < phi && Coprime(e, phi) && e * (1 + phi) < WORD - 1
    ensures Rsa.IsLeastInverse(ConfigAt(c, inputs, j).d, e, phi)
  {
    hide Step, Ready, CompletedRun, Coprime, Rsa.IsLeastInverse, ConfigAt;
    if j <= i {
      StaysReady(c, inputs, r, i, j);
      ReadyFacts(ConfigAt(c, inputs, j));
    }
    var held := (t: nat) => if t < j then inputs(t) else Input(true, true, e, phi);
    forall t: nat | t <= j
      ensures ConfigAt(c, inputs, t) == ConfigAt(c, held, t)
    {
      ConfigAgrees(c, inputs, held, t);
    }
    var first := FirstKeyCompletes(c, held, r, i, e, phi);
    assert first == j;
  }

  lemma FinishedStep(c: Config, input: Input)
    requires input.resetN
    ensures c.state == Finished ==>
              && Step(c, input).generatedDone && Step(c, input).d == c.d
              && Step(c, input).state == if input.compute then Finished else Wait
    ensures c.state == Wait && !input.compute ==>
              Step(c, input).state == Wait && Step(c, input).d == c.d && Step(c, input).generatedDone == c.generatedDone
  {
  }

  /**
   From FINISHED the key stays out under a raised done line, while compute is
   held up to edge `b` and after it is dropped there; the circuit then waits.
   */
  lemma {:induction false} KeyStays(c: Config, inputs: nat -> Input, j: nat, b: nat, t: nat)
    requires ConfigAt(c, inputs, j).state == Finished && j <= b && j <= t
    requires forall u: nat :: j <= u < t ==> inputs(u).resetN && inputs(u).compute == (u < b)
    ensures ConfigAt(c, inputs, t).state == if t <= b then Finished else Wait
    ensures ConfigAt(c, inputs, t).d == ConfigAt(c, inputs, j).d
    ensures t > j ==> ConfigAt(c, inputs, t).generatedDone
  {
    hide Step, ConfigAt;
    if t > j {
      KeyStays(c, inputs, j, b, t - 1);
      ConfigNext(c, inputs, t - 1);
      FinishedStep(ConfigAt(c, inputs, t - 1), inputs(t - 1));
    }
  }
}
