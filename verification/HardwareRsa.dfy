/**
 The encryption circuit, which also serves as the decryption circuit: it runs
 the exponentiation circuit from 1 and reduces the answer once more.  With the
 key generator it makes the whole hardware cipher.
 */
module HardwareRsa {
  import opened NumberTheory
  import opened SequentialArithmetic
  import Exp = ModularExponentiation
  import Generator = KeyGenerator
  import Rsa

  datatype State = Reset | Wait | ModExpLoop | Modular | Finished

  datatype Config = Config(
    state: State, Cin: word, C: word, modexpReady: bool, modularReady: bool, done: bool,
    modexp: Exp.Circuit, mod0: Subtractor)

  /** What a clock edge sees. */
  datatype Input = Input(resetN: bool, compute: bool, M: word, e: word, n: word)

  // ---------------------------------------------------------------- One clock edge

  function NextState(c: Config, input: Input): State {
    match c.state
    case Reset => Wait
    case Wait => if input.compute then ModExpLoop else Wait
    case ModExpLoop => if c.modexp.done then Modular else ModExpLoop
    case Modular => if c.mod0.done then Finished else Modular
    case Finished => if input.compute then Finished else Wait
  }

  function Driven(c: Config): Config {
    match c.state
    case Reset => c.(Cin := 1, C := 0, modexpReady := false, modularReady := false, done := false)
    case Wait => c
    case ModExpLoop => c.(modexpReady := true)
    case Modular => c.(modexpReady := false, modularReady := true)
    case Finished => c.(modularReady := false, C := c.mod0.result, done := true)
  }

  function WiresOf(c: Config, input: Input): Exp.Wires {
    Exp.Wires(c.modexpReady, c.Cin, input.M, input.e, input.n)
  }

  /** One reset line serves the circuit and both of its parts. */
  function Step(c: Config, input: Input): Config {
    if input.resetN then
      Driven(c).(
        state := NextState(c, input),
        modexp := Exp.Step(c.modexp, WiresOf(c, input)),
        mod0 := SubtractorStep(c.mod0, c.modularReady, c.modexp.result, input.n))
    else
      Driven(c.(state := Reset)).(
        modexp := Exp.ResetStep(c.modexp, WiresOf(c, input)), mod0 := SUBTRACTOR_CLEARED)
  }

  /** The registers before edge `t` of an unbounded input history. */
  function ConfigAt(c: Config, inputs: nat -> Input, t: nat): Config {
    if t == 0 then c else Step(ConfigAt(c, inputs, t - 1), inputs(t - 1))
  }

  // ---------------------------------------------------------------- From reset to the start

  /** Edge `r` resets the circuit, and compute is first seen at edge `i`. */
  ghost predicate StartsAfterReset(inputs: nat -> Input, r: nat, i: nat) {
    && r + 2 <= i && !inputs(r).resetN
    && (forall t: nat :: r < t < i ==> inputs(t).resetN)
    && (forall t: nat :: r + 2 <= t < i ==> !inputs(t).compute)
    && inputs(i).compute
  }

  /** At edge `t` the circuit is not reset and sees these operands. */
  predicate Sees(input: Input, M: word, e: word, n: word) {
    input.resetN && input.M == M && input.e == e && input.n == n
  }

  /** From edge `i` on the operands never change and the circuit is not reset. */
  ghost predicate HeldFrom(inputs: nat -> Input, i: nat, M: word, e: word, n: word) {
    forall t: nat :: i <= t ==> Sees(inputs(t), M, e, n)
  }

  /** The same from edge `i` up to edge `j`. */
  ghost predicate Held(inputs: nat -> Input, i: nat, j: nat, M: word, e: word, n: word) {
    forall t: nat :: i <= t < j ==> Sees(inputs(t), M, e, n)
  }

  /** Reset and not started. */
  predicate Ready(c: Config) {
    && (c.state == Reset || c.state == Wait) && c.Cin == 1
    && !c.modexpReady && !c.modularReady && !c.done && c.C == 0
    && Exp.Idle(c.modexp, 0) && !c.modexp.done && SubtractorIdle(c.mod0)
  }

  lemma ResetIsReady(c: Config, input: Input)
    requires !input.resetN
    ensures Ready(Step(c, input)) && Step(c, input).state == Reset
  {
  }

  lemma ReadyStep(c: Config, input: Input)
    requires Ready(c) && input.resetN
    requires c.state == Reset || !input.compute
    ensures Ready(Step(c, input)) && Step(c, input).state == Wait
  {
    Exp.IdleStep(c.modexp, WiresOf(c, input), 0);
    Exp.DoneKept(c.modexp, WiresOf(c, input));
    SubtractorIdleStep(c.mod0, c.modexp.result, input.n);
    hide Exp.Step, SubtractorStep;
  }

  lemma {:induction false} StaysReady(c: Config, inputs: nat -> Input, r: nat, i: nat, t: nat)
    requires StartsAfterReset(inputs, r, i) && r < t <= i
    ensures Ready(ConfigAt(c, inputs, t))
    ensures ConfigAt(c, inputs, t).state == if t == r + 1 then Reset else Wait
  {
    hide Step, Ready;
    if t == r + 1 {
      ResetIsReady(ConfigAt(c, inputs, r), inputs(r));
    } else {
      StaysReady(c, inputs, r, i, t - 1);
      ReadyStep(ConfigAt(c, inputs, t - 1), inputs(t - 1));
    }
  }

  // ---------------------------------------------------------------- One encryption

  function Operands(M: word, e: word, n: word): Exp.Wires {
    Exp.Wires(true, 1, M, e, n)
  }

  /** The exponentiation's answer stays on its output. */
  predicate Delivered(m: Exp.Circuit, ready: bool, v: word) {
    m.done && m.result == v && ((m.state == Exp.ModexpDone && m.C == v) || (m.state == Exp.Wait && !ready))
  }

  /** What every edge keeps after compute; `k` multiplications are done. */
  predicate Encrypting(c: Config, w: Exp.Wires, k: nat)
    requires w.denominator > 0
  {
    && c.Cin == 1 && !c.done && c.C == 0
    && match c.state
       case ModExpLoop =>
         && !c.modularReady && SubtractorIdle(c.mod0)
         && if c.modexp.done then c.modexpReady && Exp.Answered(c.modexp, w, 0)
            else Exp.InRun(c.modexp, w, 0, k) && (c.modexpReady || Exp.Idle(c.modexp, 0))
       case Modular =>
         && Delivered(c.modexp, c.modexpReady, Exp.Answer(w, 0))
         && (|| Subtracting(c.mod0, c.modularReady, Exp.Answer(w, 0), w.denominator)
             || (c.modularReady && HasRemainder(c.mod0, Exp.Answer(w, 0), w.denominator)))
       case Finished =>
         && Delivered(c.modexp, c.modexpReady, Exp.Answer(w, 0)) && !c.modexpReady
         && HasRemainder(c.mod0, Exp.Answer(w, 0), w.denominator)
       case _ => false
  }

  function NextK(c: Config, k: nat): nat {
    if c.state == ModExpLoop && c.modexpReady && !c.modexp.done then Exp.NextK(c.modexp, k) else k
  }

  function Rank(c: Config): nat {
    match c.state
    case ModExpLoop => if c.modexp.done then 2 else if c.modexpReady then 3 else 4
    case Modular => 1
    case _ => 0
  }

  function Remaining(c: Config, w: Exp.Wires, k: nat): int {
    if c.state == ModExpLoop then Exp.Multiplications(0, w.e) - k else 0
  }

  function Stage(c: Config): nat {
    if c.state == ModExpLoop then Exp.Stage(c.modexp) else 0
  }

  function Work(c: Config): nat {
    if c.state == ModExpLoop then Exp.Work(c.modexp)
    else if c.mod0.done then 0 else 1 + SubtractingRank(c.mod0, c.modularReady)
  }

  /** An edge of an encryption keeps its invariant and gets closer to the end. */
  ghost predicate Progress(c: Config, next: Config, w: Exp.Wires, k: nat)
    requires w.denominator > 0
  {
    && Encrypting(next, w, NextK(c, k))
    && (|| Rank(next) < Rank(c)
        || (&& Rank(next) == Rank(c)
            && (|| 0 <= Remaining(next, w, NextK(c, k)) < Remaining(c, w, k)
                || (&& Remaining(next, w, NextK(c, k)) == Remaining(c, w, k)
                    && (|| Stage(next) < Stage(c)
                        || (Stage(next) == Stage(c) && Work(next) < Work(c)))))))
  }

  lemma ProgressStep(c: Config, input: Input, M: word, e: word, n: word, k: nat)
    requires n > 0 && Sees(input, M, e, n)
    requires Encrypting(c, Operands(M, e, n), k) && c.state != Finished
    ensures Progress(c, Step(c, input), Operands(M, e, n), k)
  {
    hide Progress, Encrypting;
    EncryptingFacts(c, Operands(M, e, n), k);
    if c.state == Modular {
      ModularProgress(c, input, M, e, n, k);
    } else if !c.modexpReady {
      StartProgress(c, input, M, e, n, k);
    } else {
      LoopProgress(c, input, M, e, n, k);
    }
  }

  lemma StartProgress(c: Config, input: Input, M: word, e: word, n: word, k: nat)
    requires n > 0 && Sees(input, M, e, n)
    requires Encrypting(c, Operands(M, e, n), k) && c.state == ModExpLoop && !c.modexpReady
    ensures Progress(c, Step(c, input), Operands(M, e, n), k)
  {
    var w := Operands(M, e, n);
    Exp.IdleInRun(c.modexp, w, 0, k);
    Exp.IdleStep(c.modexp, WiresOf(c, input), 0);
    Exp.DoneKept(c.modexp, WiresOf(c, input));
    Exp.IdleInRun(Step(c, input).modexp, w, 0, 0);
    SubtractorIdleStep(c.mod0, c.modexp.result, n);
    hide Exp.Step, SubtractorStep, Exp.InRun, Exp.Answered, Exp.Idle, Exp.Stage, Exp.Work;
  }

  lemma LoopProgress(c: Config, input: Input, M: word, e: word, n: word, k: nat)
    requires n > 0 && Sees(input, M, e, n)
    requires Encrypting(c, Operands(M, e, n), k) && c.state == ModExpLoop && c.modexpReady
    ensures Progress(c, Step(c, input), Operands(M, e, n), k)
  {
    var w := Operands(M, e, n);
    assert WiresOf(c, input) == w;
    SubtractorIdleStep(c.mod0, c.modexp.result, n);
    if c.modexp.done {
      Exp.AnswerHolds(c.modexp, w, 0);
      Exp.AnsweredFacts(c.modexp, w, 0);
      Exp.AnsweredFacts(Exp.Step(c.modexp, w), w, 0);
    } else {
      Exp.ProgressStep(c.modexp, w, 0, k);
      Exp.DoneKept(c.modexp, w);
      if c.modexp.state == Exp.ModexpDone {
        Exp.AnsweredFacts(Exp.Step(c.modexp, w), w, 0);
      }
      Exp.KNotBeyond(c.modexp, w, 0, k);
    }
    hide Exp.Step, SubtractorStep, Exp.InRun, Exp.Answered, Exp.Idle, Exp.Stage, Exp.Work;
    hide Exp.Multiplications, Exp.Answer;
  }

  lemma ModularProgress(c: Config, input: Input, M: word, e: word, n: word, k: nat)
    requires n > 0 && Sees(input, M, e, n)
    requires Encrypting(c, Operands(M, e, n), k) && c.state == Modular
    ensures Progress(c, Step(c, input), Operands(M, e, n), k)
  {
    var v := Exp.Answer(Operands(M, e, n), 0);
    DeliveredStep(c.modexp, WiresOf(c, input), v);
    if Subtracting(c.mod0, c.modularReady, v, n) {
      SubtractingStep(c.mod0, c.modularReady, v, n);
    }
    hide Exp.Step, Delivered, Exp.Answer;
  }

  lemma DeliveredStep(m: Exp.Circuit, w: Exp.Wires, v: word)
    requires Delivered(m, w.ready, v)
    ensures Delivered(Exp.Step(m, w), false, v)
  {
  }

  // ---------------------------------------------------------------- A whole encryption

  /** Encryption done is first raised, after the reset at edge `r`, by the edge before `j`. */
  ghost predicate Delivers(c: Config, inputs: nat -> Input, r: nat, j: nat) {
    r < j && ConfigAt(c, inputs, j).done && forall t: nat :: r < t < j ==> !ConfigAt(c, inputs, t).done
  }

  lemma {:induction false} Completes(
    c: Config, inputs: nat -> Input, t: nat, M: word, e: word, n: word, k: nat)
    returns (j: nat)
    requires n > 0 && HeldFrom(inputs, t, M, e, n)
    requires Encrypting(ConfigAt(c, inputs, t), Operands(M, e, n), k)
    ensures t < j && ConfigAt(c, inputs, j).done
    ensures forall u: nat :: t <= u < j ==> !ConfigAt(c, inputs, u).done && ConfigAt(c, inputs, u).C == 0
    ensures ConfigAt(c, inputs, j - 1).state == Finished
    ensures ConfigAt(c, inputs, j).C == Exp.Answer(Operands(M, e, n), 0) % n
    ensures Settled(ConfigAt(c, inputs, j), Exp.Answer(Operands(M, e, n), 0) % n)
    decreases Rank(ConfigAt(c, inputs, t)), Remaining(ConfigAt(c, inputs, t), Operands(M, e, n), k),
              Stage(ConfigAt(c, inputs, t)), Work(ConfigAt(c, inputs, t))
  {
    hide Step, Encrypting, Rank, Remaining, Stage, Work, Settled, Exp.Answer;
    var now := ConfigAt(c, inputs, t);
    var w := Operands(M, e, n);
    assert ConfigAt(c, inputs, t + 1) == Step(now, inputs(t));
    EncryptingFacts(now, w, k);
    if now.state == Finished {
      FinishedStep(now, inputs(t), w, k);
      j := t + 1;
    } else {
      ProgressStep(now, inputs(t), M, e, n, k);
      j := Completes(c, inputs, t + 1, M, e, n, NextK(now, k));
    }
  }

  lemma EncryptingFacts(c: Config, w: Exp.Wires, k: nat)
    requires w.denominator > 0 && Encrypting(c, w, k)
    ensures !c.done && c.C == 0 && (c.state == ModExpLoop || c.state == Modular || c.state == Finished)
  {
  }

  /** An encryption is over: `x` is out, and the parts rest with their own answers. */
  predicate Settled(c: Config, x: word) {
    && c.done && c.C == x && (c.state == Finished || c.state == Wait)
    && !c.modexpReady && !c.modularReady
    && Delivered(c.modexp, false, x)
    && c.mod0.done && c.mod0.result == x
    && ((c.mod0.state == ModDone && c.mod0.numerator == x) || c.mod0.state == SubWait)
  }

  lemma FinishedStep(c: Config, input: Input, w: Exp.Wires, k: nat)
    requires w.denominator > 0 && input.resetN && Encrypting(c, w, k) && c.state == Finished
    ensures Settled(Step(c, input), Exp.Answer(w, 0) % w.denominator)
    ensures Step(c, input).done && Step(c, input).C == Exp.Answer(w, 0) % w.denominator
  {
    DeliveredStep(c.modexp, WiresOf(c, input), Exp.Answer(w, 0));
    Exp.AnswerReduced(w, 0);
    DivModUnique(Exp.Answer(w, 0), w.denominator, 0, Exp.Answer(w, 0));
    hide Exp.Step, Exp.Answer, Delivered;
  }

  /**
   The first encryption after a reset, on held operands with a nonzero modulus,
   completes; done is not raised before the result is out, and until then the
   output is 0.
   */
  lemma FirstEncryptionCompletes(
    c: Config, inputs: nat -> Input, r: nat, i: nat, M: word, e: word, n: word)
    returns (j: nat)
    requires n > 0 && StartsAfterReset(inputs, r, i) && HeldFrom(inputs, i, M, e, n)
    ensures i < j && Delivers(c, inputs, r, j)
    ensures forall t: nat :: r < t < j ==> ConfigAt(c, inputs, t).C == 0
    ensures ConfigAt(c, inputs, j).C == Exp.Answer(Operands(M, e, n), 0) % n
    ensures Settled(ConfigAt(c, inputs, j), ConfigAt(c, inputs, j).C)
  {
    hide Step, Exp.Answer, Ready, Encrypting, Settled;
    StaysReady(c, inputs, r, i, i);
    assert ConfigAt(c, inputs, i + 1) == Step(ConfigAt(c, inputs, i), inputs(i));
    StartStep(ConfigAt(c, inputs, i), inputs(i), M, e, n);
    j := Completes(c, inputs, i + 1, M, e, n, 0);
    forall t: nat | r < t < j
      ensures !ConfigAt(c, inputs, t).done && ConfigAt(c, inputs, t).C == 0
    {
      if t <= i {
        StaysReady(c, inputs, r, i, t);
        ReadyFacts(ConfigAt(c, inputs, t));
      }
    }
  }

  lemma ReadyFacts(c: Config)
    requires Ready(c)
    ensures !c.done && c.C == 0
  {
  }

  lemma StartStep(c: Config, input: Input, M: word, e: word, n: word)
    requires n > 0 && Ready(c) && c.state == Wait && input.compute && input.resetN
    ensures Encrypting(Step(c, input), Operands(M, e, n), 0)
  {
    Exp.IdleStep(c.modexp, WiresOf(c, input), 0);
    Exp.DoneKept(c.modexp, WiresOf(c, input));
    Exp.IdleInRun(Step(c, input).modexp, Operands(M, e, n), 0, 0);
    SubtractorIdleStep(c.mod0, c.modexp.result, input.n);
    hide Exp.Step, SubtractorStep, Exp.InRun, Exp.Idle;
  }

  lemma {:induction false} ConfigAgrees(c: Config, inputs: nat -> Input, inputs': nat -> Input, t: nat)
    requires forall u: nat :: u < t ==> inputs(u) == inputs'(u)
    ensures ConfigAt(c, inputs, t) == ConfigAt(c, inputs', t)
  {
    hide Step;
    if t > 0 {
      ConfigAgrees(c, inputs, inputs', t - 1);
    }
  }

  /** Operands need only be held until the result is out. */
  lemma FirstResult(
    c: Config, inputs: nat -> Input, r: nat, i: nat, j: nat, M: word, e: word, n: word)
    requires n > 0 && StartsAfterReset(inputs, r, i) && Held(inputs, i, j, M, e, n)
    requires Delivers(c, inputs, r, j)
    ensures ConfigAt(c, inputs, j).C == Exp.Answer(Operands(M, e, n), 0) % n
    ensures Settled(ConfigAt(c, inputs, j), ConfigAt(c, inputs, j).C)
  {
    hide Step, Exp.Answer, Settled, Ready;
    if j <= i {
      StaysReady(c, inputs, r, i, j);
      ReadyFacts(ConfigAt(c, inputs, j));
    }
    var held := (t: nat) => if t < j then inputs(t) else Input(true, true, M, e, n);
    forall t: nat | t <= j
      ensures ConfigAt(c, inputs, t) == ConfigAt(c, held, t)
    {
      ConfigAgrees(c, inputs, held, t);
    }
    var first := FirstEncryptionCompletes(c, held, r, i, M, e, n);
    assert first == j;
  }

  /**
   What the circuit delivers is the power, as the software computes it, for
   every exponent from 1 up; for exponent 0 it multiplies once all the same.
   */
  lemma FirstEncryptionIsPower(
    c: Config, inputs: nat -> Input, r: nat, i: nat, j: nat, M: word, e: word, n: word)
    requires n > 0 && StartsAfterReset(inputs, r, i) && Held(inputs, i, j, M, e, n)
    requires Delivers(c, inputs, r, j)
    requires M < n && (n - 1) * M < WORD && M < WORD - 1
    ensures ConfigAt(c, inputs, j).C == Pow(M, e) % n <==> e >= 1 || M == 1 % n
  {
    hide Settled, Step, Exp.Answer, StartsAfterReset, Held, Delivers;
    FirstResult(c, inputs, r, i, j, M, e, n);
    if e >= 1 {
      Exp.FirstAnswerIsPower(Operands(M, e, n));
      DivModUnique(Pow(M, e) % n, n, 0, Pow(M, e) % n);
    } else {
      Exp.ZeroExponentAnswer(Operands(M, e, n));
      DivModUnique(M, n, 0, M);
    }
  }

  // ---------------------------------------------------------------- The whole hardware cipher

  /**
   Generator, encryption circuit and decryption circuit, each on its first run
   after a reset: the message comes back, for every message, whenever the two
   primes differ, the exponent has an inverse and products fit the word.
   */
  lemma HardwareRoundTrip(
    p: int, q: int, n: word, phi: word, e: word, M: word,
    generator: Generator.Config, keys: nat -> Generator.Input, gr: nat, gi: nat, gj: nat,
    encryptor: Config, messages: nat -> Input, er: nat, ei: nat, ej: nat,
    decryptor: Config, ciphers: nat -> Input, dr: nat, di: nat, dj: nat)
    requires IsPrime(p) && IsPrime(q) && p != q && n == p * q && phi == (p - 1) * (q - 1)
    requires (n - 1) * (n - 1) < WORD - 1
    requires 1 <= e < phi && Coprime(e, phi) && M < n
    requires Generator.StartsAfterReset(keys, gr, gi) && Generator.Stable(keys, gi, gj, e, phi)
    requires Generator.Delivers(generator, keys, gr, gj)
    requires StartsAfterReset(messages, er, ei) && Held(messages, ei, ej, M, e, n)
    requires Delivers(encryptor, messages, er, ej)
    requires StartsAfterReset(ciphers, dr, di)
    requires Held(ciphers, di, dj, ConfigAt(encryptor, messages, ej).C, Generator.ConfigAt(generator, keys, gj).d, n)
    requires Delivers(decryptor, ciphers, dr, dj)
    ensures ConfigAt(decryptor, ciphers, dj).C == M
  {
    hide Step, Generator.Step, StartsAfterReset, Held, Delivers, Coprime, IsPrime;
    hide Generator.StartsAfterReset, Generator.Stable, Generator.Delivers;
    var d := Generator.ConfigAt(generator, keys, gj).d;
    var cipher := ConfigAt(encryptor, messages, ej).C;
    Fits(p, q, n, phi, e, M);
    RoomForRun(p, q, n, phi, e);
    Generator.FirstKeyIsLeastInverse(generator, keys, gr, gi, gj, e, phi);
    FirstEncryptionIsPower(encryptor, messages, er, ei, ej, M, e, n);
    Fits(p, q, n, phi, e, cipher);
    FirstEncryptionIsPower(decryptor, ciphers, dr, di, dj, cipher, d, n);
    assert d * e == e * d;
    Rsa.RoundTrip(p, q, e, d, M);
  }

  /** One reset edge, then compute with fixed operands. */
  function History(M: word, e: word, n: word): nat -> Input {
    (t: nat) => Input(t > 0, true, M, e, n)
  }

  lemma HistoryFacts(M: word, e: word, n: word)
    ensures StartsAfterReset(History(M, e, n), 0, 2)
    ensures HeldFrom(History(M, e, n), 2, M, e, n)
    ensures forall j: nat :: Held(History(M, e, n), 2, j, M, e, n)
  {
  }

  function KeyHistory(e: word, phi: word): nat -> Generator.Input {
    (t: nat) => Generator.Input(t > 0, true, e, phi)
  }

  /**
   Such a session always runs to its end, by the done lines alone: from any
   registers at power-up the generator announces a key, the encryption and the
   decryption deliver, and the message is back.
   */
  lemma WholeCipher(
    p: int, q: int, n: word, phi: word, e: word, M: word,
    generator: Generator.Config, encryptor: Config, decryptor: Config)
    returns (d: word, cipher: word, gj: nat, ej: nat, dj: nat)
    requires IsPrime(p) && IsPrime(q) && p != q && n == p * q && phi == (p - 1) * (q - 1)
    requires (n - 1) * (n - 1) < WORD - 1
    requires 1 <= e < phi && Coprime(e, phi) && M < n
    ensures Generator.Delivers(generator, KeyHistory(e, phi), 0, gj)
    ensures d == Generator.ConfigAt(generator, KeyHistory(e, phi), gj).d
    ensures Delivers(encryptor, History(M, e, n), 0, ej) && cipher == ConfigAt(encryptor, History(M, e, n), ej).C
    ensures Delivers(decryptor, History(cipher, d, n), 0, dj) && ConfigAt(decryptor, History(cipher, d, n), dj).C == M
  {
    hide Step, Generator.Step, StartsAfterReset, Delivers, Generator.Delivers, Coprime, IsPrime, Settled, Exp.Answer;
    var keys := KeyHistory(e, phi);
    Fits(p, q, n, phi, e, M);
    RoomForRun(p, q, n, phi, e);
    gj := Generator.FirstKeyCompletes(generator, keys, 0, 2, e, phi);
    d := Generator.ConfigAt(generator, keys, gj).d;
    HistoryFacts(M, e, n);
    ej := FirstEncryptionCompletes(encryptor, History(M, e, n), 0, 2, M, e, n);
    cipher := ConfigAt(encryptor, History(M, e, n), ej).C;
    HistoryFacts(cipher, d, n);
    dj := FirstEncryptionCompletes(decryptor, History(cipher, d, n), 0, 2, cipher, d, n);
    HardwareRoundTrip(p, q, n, phi, e, M, generator, keys, 0, 2, gj,
                      encryptor, History(M, e, n), 0, 2, ej, decryptor, History(cipher, d, n), 0, 2, dj);
  }

  lemma RoomForRun(p: int, q: int, n: int, phi: int, e: int)
    requires IsPrime(p) && IsPrime(q) && n == p * q && phi == (p - 1) * (q - 1)
    requires (n - 1) * (n - 1) < WORD - 1 && 1 <= e < phi
    ensures e * (1 + phi) < WORD - 1
  {
    assert phi == n - p - q + 1;
    Rsa.MulLe(e, 1 + phi, n - 1, n - 1);
  }

  lemma Fits(p: int, q: int, n: int, phi: int, e: int, x: int)
    requires IsPrime(p) && IsPrime(q) && n == p * q && phi == (p - 1) * (q - 1)
    requires (n - 1) * (n - 1) < WORD - 1 && 1 <= e < phi && 0 <= x < n
    ensures phi >= 2 && e * phi < WORD - 1 && (n - 1) * x < WORD && x < WORD - 1
  {
    Rsa.MulLe(1, n - 1, n - 1, n - 1);
    assert phi == n - p - q + 1;
    Rsa.MulLe(e, phi, n - 1, n - 1);
    Rsa.MulLe(n - 1, x, n - 1, n - 1);
  }

  // ---------------------------------------------------------------- A second message

  /** The circuit rests from edge `j` up to edge `b`, where compute starts it again. */
  ghost predicate RestartsAt(c: Config, inputs: nat -> Input, j: nat, b: nat) {
    && j <= b && (forall t: nat :: j <= t ==> inputs(t).resetN)
    && (forall t: nat :: j <= t < b ==>
          ConfigAt(c, inputs, t).state == Finished || (ConfigAt(c, inputs, t).state == Wait && !inputs(t).compute))
    && ConfigAt(c, inputs, b).state == Wait && inputs(b).compute
  }

  lemma RestartFacts(c: Config, inputs: nat -> Input, j: nat, b: nat, t: nat)
    requires RestartsAt(c, inputs, j, b) && j <= t
    ensures inputs(t).resetN && (t < b ==> ConfigAt(c, inputs, t).state == Finished || !inputs(t).compute)
  {
    hide ConfigAt;
  }

  lemma SettledStep(c: Config, input: Input, x: word)
    requires Settled(c, x) && input.resetN && (c.state == Finished || !input.compute)
    ensures Settled(Step(c, input), x)
  {
    DeliveredStep(c.modexp, WiresOf(c, input), x);
    hide Exp.Step, Delivered;
  }

  lemma {:induction false} StaysSettled(c: Config, inputs: nat -> Input, j: nat, b: nat, t: nat, x: word)
    requires Settled(ConfigAt(c, inputs, j), x) && RestartsAt(c, inputs, j, b) && j <= t <= b
    ensures Settled(ConfigAt(c, inputs, t), x)
  {
    hide Step, Settled, RestartsAt;
    if t > j {
      StaysSettled(c, inputs, j, b, t - 1, x);
      RestartFacts(c, inputs, j, b, t - 1);
      SettledStep(ConfigAt(c, inputs, t - 1), inputs(t - 1), x);
    }
  }

  /** A subtractor at rest with its result. */
  predicate Resting(m: Subtractor, x: word) {
    m.done && m.result == x && ((m.state == ModDone && m.numerator == x) || m.state == SubWait)
  }

  lemma RestingStep(m: Subtractor, numerator: word, denominator: word, x: word)
    requires Resting(m, x)
    ensures Resting(SubtractorStep(m, false, numerator, denominator), x)
    ensures SubtractorStep(m, false, numerator, denominator).state == SubWait
  {
  }

  /** On its way through a second run, all done flags still set and the old result still out. */
  predicate Restarted(c: Config, x: word, s: State) {
    && c.state == s && c.done && c.C == x
    && Resting(c.mod0, x) && c.mod0.state == SubWait && c.modularReady == (s == Finished)
    && c.modexp.done && c.modexp.result == x && c.modexpReady == (s == Modular)
    && (s != Finished ==> c.modexp.state == Exp.Wait)
  }

  lemma RestartStep(c: Config, input: Input, x: word)
    requires input.resetN
    ensures Settled(c, x) && c.state == Wait && input.compute ==> Restarted(Step(c, input), x, ModExpLoop)
    ensures Restarted(c, x, ModExpLoop) ==> Restarted(Step(c, input), x, Modular)
    ensures Restarted(c, x, Modular) ==> Restarted(Step(c, input), x, Finished)
  {
  }

  lemma ConfigNext(c: Config, inputs: nat -> Input, t: nat)
    ensures ConfigAt(c, inputs, t + 1) == Step(ConfigAt(c, inputs, t), inputs(t))
  {
  }

  lemma RestartsRunning(c: Config, inputs: nat -> Input, j: nat, b: nat)
    requires RestartsAt(c, inputs, j, b)
    ensures j <= b && inputs(b).resetN && inputs(b + 1).resetN && inputs(b + 2).resetN && inputs(b + 3).resetN
    ensures ConfigAt(c, inputs, b).state == Wait && inputs(b).compute
  {
    hide ConfigAt;
  }

  lemma SettledFacts(c: Config, x: word)
    requires Settled(c, x)
    ensures c.done && c.C == x
  {
  }

  lemma RestartedFacts(c: Config, x: word, s: State)
    requires Restarted(c, x, s)
    ensures c.done && c.C == x && c.state == s
  {
  }

  lemma RestartsStale(c: Config, inputs: nat -> Input, j: nat, b: nat, x: word)
    requires Settled(ConfigAt(c, inputs, j), x) && RestartsAt(c, inputs, j, b)
    ensures Restarted(ConfigAt(c, inputs, b + 1), x, ModExpLoop)
    ensures Restarted(ConfigAt(c, inputs, b + 2), x, Modular)
    ensures Restarted(ConfigAt(c, inputs, b + 3), x, Finished)
  {
    hide Step, Settled, RestartsAt, ConfigAt, Restarted;
    RestartsRunning(c, inputs, j, b);
    StaysSettled(c, inputs, j, b, b, x);
    ConfigNext(c, inputs, b);
    ConfigNext(c, inputs, b + 1);
    ConfigNext(c, inputs, b + 2);
    RestartStep(ConfigAt(c, inputs, b), inputs(b), x);
    RestartStep(ConfigAt(c, inputs, b + 1), inputs(b + 1), x);
    RestartStep(ConfigAt(c, inputs, b + 2), inputs(b + 2), x);
  }

  /**
   Done is lowered by a reset only, in the circuit and in both of its parts, so
   without a reset a second encryption ends three edges after its start with
   the first result still out, whatever its message, exponent and modulus.
   */
  lemma SecondEncryptionIsStale(
    c: Config, inputs: nat -> Input, r: nat, i: nat, j: nat, b: nat, M: word, e: word, n: word)
    requires n > 0 && StartsAfterReset(inputs, r, i)
    requires Delivers(c, inputs, r, j) && Held(inputs, i, j, M, e, n)
    requires RestartsAt(c, inputs, j, b)
    ensures ConfigAt(c, inputs, b + 3).state == Finished
    ensures Restarted(ConfigAt(c, inputs, b + 3), ConfigAt(c, inputs, j).C, Finished)
    ensures forall t: nat :: j <= t <= b + 3 ==>
              ConfigAt(c, inputs, t).done && ConfigAt(c, inputs, t).C == ConfigAt(c, inputs, j).C
  {
    hide Step, Settled, RestartsAt, Held, StartsAfterReset, Delivers, Restarted, ConfigAt;
    FirstResult(c, inputs, r, i, j, M, e, n);
    var x := ConfigAt(c, inputs, j).C;
    RestartsStale(c, inputs, j, b, x);
    RestartedFacts(ConfigAt(c, inputs, b + 1), x, ModExpLoop);
    RestartedFacts(ConfigAt(c, inputs, b + 2), x, Modular);
    RestartedFacts(ConfigAt(c, inputs, b + 3), x, Finished);
    forall t: nat | j <= t <= b + 3
      ensures ConfigAt(c, inputs, t).done && ConfigAt(c, inputs, t).C == x
    {
      if t <= b {
        StaysSettled(c, inputs, j, b, t, x);
        SettledFacts(ConfigAt(c, inputs, t), x);
      } else {
        assert t == b + 1 || t == b + 2 || t == b + 3;
      }
    }
  }

  // ---------------------------------------------------------------- After the second run

  /** At edge `t` the circuit is not reset, and not started again. */
  predicate Rests(c: Config, input: Input) {
    input.resetN && (c.state == Finished || (c.state == Wait && !input.compute))
  }

  /** No third encryption is started before edge `t`. */
  ghost predicate NoThirdStart(c: Config, inputs: nat -> Input, b: nat, t: nat) {
    forall u: nat :: b + 3 <= u < t ==> Rests(ConfigAt(c, inputs, u), inputs(u))
  }

  /** The second run has started the final reduction once more, on the old result and the new modulus. */
  predicate Echoing(c: Config, x: word, n: word)
    requires n > 0
  {
    && (c.state == Finished || c.state == Wait) && !c.modularReady && c.done && c.mod0.done
    && if c.mod0.state == SubWait then c.mod0.result == x % n && (c.C == x || c.C == x % n)
       else c.mod0.result == c.C == x && c.mod0.state != SubReset && Subtracting(Started(c.mod0), true, x, n)
  }

  /** A subtractor at work, without its stale done. */
  function Started(m: Subtractor): Subtractor {
    m.(done := false)
  }

  /** What is left of the reduction. */
  function EchoWork(c: Config): nat {
    if c.mod0.state == SubWait then 0 else 1 + SubtractingRank(Started(c.mod0), true)
  }

  /** The edge after a restarted run ends. */
  lemma EchoStarts(c: Config, input: Input, x: word)
    requires Restarted(c, x, Finished) && input.resetN && input.n > 0
    ensures Echoing(Step(c, input), x, input.n) && Step(c, input).C == x && Step(c, input).mod0.state != SubWait
    ensures Step(c, input).state == if input.compute then Finished else Wait
  {
    hide Exp.Step;
  }

  lemma EchoStep(c: Config, input: Input, x: word, n: word)
    requires n > 0 && Echoing(c, x, n) && Rests(c, input)
    ensures Echoing(Step(c, input), x, n)
    ensures c.mod0.state != SubWait ==>
              EchoWork(Step(c, input)) < EchoWork(c) && Step(c, input).C == x
    ensures c.mod0.state == SubWait ==> Step(c, input).mod0.state == SubWait
    ensures c.mod0.state == SubWait && c.state == Finished ==> Step(c, input).C == x % n
    ensures c.C == x % n && c.mod0.state == SubWait ==> Step(c, input).C == x % n
    ensures Step(c, input).state == if c.state == Finished && input.compute then Finished else Wait
  {
    if c.mod0.state != SubWait {
      SubtractingStep(Started(c.mod0), true, x, n);
      StaleDone(c.mod0, c.modexp.result, input.n, x, n);
    }
    hide Exp.Step;
  }

  /** Neither a set done nor the wires matter to a subtractor at work, before its last state. */
  lemma StaleDone(m: Subtractor, numerator: word, denominator: word, x: word, n: word)
    ensures m.state == ModInit || m.state == ModAssign ==>
              Started(SubtractorStep(m, false, numerator, denominator)) == SubtractorStep(Started(m), true, x, n)
  {
  }

  lemma {:induction false} StaysEchoing(
    c: Config, inputs: nat -> Input, b: nat, t: nat, x: word, n: word)
    requires Restarted(ConfigAt(c, inputs, b + 3), x, Finished) && inputs(b + 3).n == n > 0
    requires b + 4 <= t && NoThirdStart(c, inputs, b, t)
    ensures Echoing(ConfigAt(c, inputs, t), x, n)
  {
    hide Step, ConfigAt, Echoing, Restarted;
    ConfigNext(c, inputs, t - 1);
    assert Rests(ConfigAt(c, inputs, t - 1), inputs(t - 1));
    if t == b + 4 {
      EchoStarts(ConfigAt(c, inputs, b + 3), inputs(b + 3), x);
    } else {
      StaysEchoing(c, inputs, b, t - 1, x, n);
      EchoStep(ConfigAt(c, inputs, t - 1), inputs(t - 1), x, n);
    }
  }

  /**
   Until a third start or a reset, what is out after a second run is the first
   result or its remainder by the modulus on the wires when the run ended; for
   the same modulus it is the first result.
   */
  lemma AfterSecondEncryption(
    c: Config, inputs: nat -> Input, r: nat, i: nat, j: nat, b: nat, t: nat, M: word, e: word, n: word)
    requires n > 0 && StartsAfterReset(inputs, r, i)
    requires Delivers(c, inputs, r, j) && Held(inputs, i, j, M, e, n)
    requires RestartsAt(c, inputs, j, b)
    requires b + 4 <= t && NoThirdStart(c, inputs, b, t) && inputs(b + 3).n > 0
    ensures var x := ConfigAt(c, inputs, j).C;
            && ConfigAt(c, inputs, t).done
            && (ConfigAt(c, inputs, t).C == x || ConfigAt(c, inputs, t).C == x % inputs(b + 3).n)
            && (inputs(b + 3).n == n ==> ConfigAt(c, inputs, t).C == x)
  {
    hide Step, ConfigAt, Restarted, Settled, RestartsAt, Held, StartsAfterReset, Delivers, NoThirdStart, Exp.Answer;
    FirstResult(c, inputs, r, i, j, M, e, n);
    SecondEncryptionIsStale(c, inputs, r, i, j, b, M, e, n);
    var x := ConfigAt(c, inputs, j).C;
    StaysEchoing(c, inputs, b, t, x, inputs(b + 3).n);
    DivModUnique(x, n, 0, x);
  }

  /**
   With compute held the remainder by the new modulus comes out at some edge
   `f`, and stays; before it the first result is out.
   */
  lemma SecondEncryptionSettles(
    c: Config, inputs: nat -> Input, r: nat, i: nat, j: nat, b: nat, M: word, e: word, n: word)
    returns (f: nat)
    requires n > 0 && StartsAfterReset(inputs, r, i)
    requires Delivers(c, inputs, r, j) && Held(inputs, i, j, M, e, n)
    requires RestartsAt(c, inputs, j, b)
    requires inputs(b + 3).n > 0 && forall t: nat :: b + 3 <= t ==> inputs(t).compute
    ensures b + 4 < f
    ensures forall t: nat :: j <= t < f ==> ConfigAt(c, inputs, t).C == ConfigAt(c, inputs, j).C
    ensures forall t: nat :: f <= t ==> ConfigAt(c, inputs, t).C == ConfigAt(c, inputs, j).C % inputs(b + 3).n
  {
    hide Step, ConfigAt, Restarted, Settled, Held, StartsAfterReset, Delivers;
    SecondEncryptionIsStale(c, inputs, r, i, j, b, M, e, n);
    var x := ConfigAt(c, inputs, j).C;
    ConfigNext(c, inputs, b + 3);
    EchoStarts(ConfigAt(c, inputs, b + 3), inputs(b + 3), x);
    f := EchoSettles(c, inputs, b + 4, x, inputs(b + 3).n);
  }

  lemma {:induction false} EchoSettles(c: Config, inputs: nat -> Input, t: nat, x: word, n: word)
    returns (f: nat)
    requires n > 0 && Echoing(ConfigAt(c, inputs, t), x, n) && ConfigAt(c, inputs, t).state == Finished
    requires ConfigAt(c, inputs, t).C == x
    requires forall u: nat :: t <= u ==> inputs(u).compute && inputs(u).resetN
    ensures t < f
    ensures forall u: nat :: t <= u < f ==> ConfigAt(c, inputs, u).C == x
    ensures forall u: nat :: f <= u ==> ConfigAt(c, inputs, u).C == x % n
    decreases EchoWork(ConfigAt(c, inputs, t))
  {
    hide Step, ConfigAt, Echoing, EchoWork;
    var now := ConfigAt(c, inputs, t);
    ConfigNext(c, inputs, t);
    EchoStep(now, inputs(t), x, n);
    if now.mod0.state != SubWait {
      f := EchoSettles(c, inputs, t + 1, x, n);
    } else {
      f := t + 1;
      forall u: nat | f <= u
        ensures ConfigAt(c, inputs, u).C == x % n
      {
        EchoStays(c, inputs, f, u, x, n);
      }
    }
  }

  lemma {:induction false} EchoStays(c: Config, inputs: nat -> Input, f: nat, u: nat, x: word, n: word)
    requires n > 0 && f <= u && forall v: nat :: f <= v ==> inputs(v).compute && inputs(v).resetN
    requires Echoing(ConfigAt(c, inputs, f), x, n) && ConfigAt(c, inputs, f).state == Finished
    requires ConfigAt(c, inputs, f).mod0.state == SubWait && ConfigAt(c, inputs, f).C == x % n
    ensures Echoing(ConfigAt(c, inputs, u), x, n) && ConfigAt(c, inputs, u).state == Finished
    ensures ConfigAt(c, inputs, u).mod0.state == SubWait && ConfigAt(c, inputs, u).C == x % n
  {
    hide Step, ConfigAt, Echoing;
    if u > f {
      EchoStays(c, inputs, f, u - 1, x, n);
      ConfigNext(c, inputs, u - 1);
      EchoStep(ConfigAt(c, inputs, u - 1), inputs(u - 1), x, n);
    }
  }

  /** Distinct primes with their product, and exponents inverse to each other. */
  ghost predicate KeyPair(p: int, q: int, n: int, e: nat, d: nat) {
    && IsPrime(p) && IsPrime(q) && p != q && n == p * q
    && e >= 1 && d >= 1 && (d * e) % ((p - 1) * (q - 1)) == 1
  }

  /**
   Under one key the second ciphertext is right, from the end of its run until
   a third start, exactly when the second message is the first.
   */
  lemma SecondCiphertextIsRightIff(
    p: int, q: int, d: nat, M': word,
    c: Config, inputs: nat -> Input, r: nat, i: nat, j: nat, b: nat, t: nat, M: word, e: word, n: word)
    requires KeyPair(p, q, n, e, d)
    requires M < n && M' < n && (n - 1) * M < WORD && M < WORD - 1
    requires StartsAfterReset(inputs, r, i) && Delivers(c, inputs, r, j) && Held(inputs, i, j, M, e, n)
    requires RestartsAt(c, inputs, j, b) && inputs(b + 3).n == n
    requires b + 3 <= t && NoThirdStart(c, inputs, b, t)
    ensures ConfigAt(c, inputs, t).C == Pow(M', e) % n <==> M' == M
  {
    SameCiphertextIff(p, q, n, e, d, M, M');
    var x := Pow(M, e) % n;
    hide *;
    assert n > 0;
    FirstEncryptionIsPower(c, inputs, r, i, j, M, e, n);
    SecondEncryptionIsStale(c, inputs, r, i, j, b, M, e, n);
    RestartsRunning(c, inputs, j, b);
    if t > b + 3 {
      AfterSecondEncryption(c, inputs, r, i, j, b, t, M, e, n);
    }
    assert ConfigAt(c, inputs, t).C == x;
  }

  lemma SameCiphertextIff(p: int, q: int, n: int, e: nat, d: nat, M: nat, M': nat)
    requires KeyPair(p, q, n, e, d) && M < n && M' < n
    ensures Pow(M, e) % n == Pow(M', e) % n <==> M == M'
  {
    Rsa.EncryptionIsPermutation(p, q, e, d, M, M');
  }

  /** A history with a second encryption: compute is dropped for the one edge `j` and operands change there. */
  function TwoMessages(j: nat, M: word, e: word, n: word, M': word, e': word, n': word): nat -> Input {
    (t: nat) => if t < j then Input(t > 0, true, M, e, n) else Input(true, t > j, M', e', n')
  }

  /** Such a second encryption does happen, for any two messages and keys. */
  lemma SecondEncryptionHappens(
    c: Config, M: word, e: word, n: word, M': word, e': word, n': word)
    returns (j: nat)
    requires n > 0
    ensures var inputs := TwoMessages(j, M, e, n, M', e', n');
            && StartsAfterReset(inputs, 0, 2) && Held(inputs, 2, j, M, e, n)
            && Delivers(c, inputs, 0, j) && RestartsAt(c, inputs, j, j + 1)
  {
    hide Step, Settled, Exp.Answer, ConfigAt;
    HistoryFacts(M, e, n);
    j := FirstEncryptionCompletes(c, History(M, e, n), 0, 2, M, e, n);
    var inputs := TwoMessages(j, M, e, n, M', e', n');
    forall t: nat | t <= j
      ensures ConfigAt(c, inputs, t) == ConfigAt(c, History(M, e, n), t)
    {
      ConfigAgrees(c, inputs, History(M, e, n), t);
    }
    ConfigNext(c, inputs, j);
    RestBegins(ConfigAt(c, inputs, j), inputs(j), ConfigAt(c, inputs, j).C);
  }

  lemma RestBegins(c: Config, input: Input, x: word)
    requires Settled(c, x) && input.resetN && !input.compute
    ensures c.state == Finished || c.state == Wait
    ensures Step(c, input).state == Wait
  {
  }
}
