/**
 The circular buffers of the JTAG UART driver, shared without locks between the
 foreground calls `Write`, `Read` and `Close` and an interrupt routine.

 What happens to the foreground is a script: before each of its statements, and
 between any two bytes it copies, one batch of interrupts is taken from the
 script and run.  A call whose script is used up is cut at that statement, so
 the contracts speak of every prefix of every interleaving.
 */
module JtagUart {

  const INT_MAX := 0x7FFF_FFFF
  const EIO := 5
  const EWOULDBLOCK := 11

  type byte = x: int | 0 <= x < 0x100

  /** One reading of the data register.  A register without a byte announces no more of them. */
  datatype DataRegister = DataRegister(rvalid: bool, data: byte, ravail: nat)

  type Reading = r: DataRegister | r.rvalid || r.ravail == 0 witness DataRegister(false, 0, 0)

  const NO_DATA: Reading := DataRegister(false, 0, 0)

  /** One reading of the control register, and how the data register answers until the next. */
  datatype Pass = Pass(ri: bool, wi: bool, wspace: nat, answers: seq<Reading>)

  datatype Interrupt = Irq(passes: seq<Pass>) | Timer(ac: bool)

  datatype Outcome = Cut | Returned(code: int)

  // ---------------------------------------------------------------- Ring contents

  /** The bytes from `output` up to `input`, around the end of the buffer. */
  function Ring(buf: seq<byte>, output: nat, input: nat): (s: seq<byte>)
    requires output < |buf| && input < |buf|
    ensures |s| == (if output <= input then input - output else input + |buf| - output)
  {
    if output <= input then buf[output..input] else buf[output..] + buf[..input]
  }

  /** The driver's index arithmetic never steps past the end by more than the wrap. */
  lemma IndexWrap(i: nat, n: nat, length: nat)
    requires i < length && i + n <= length
    ensures (i + n) % length == if i + n == length then 0 else i + n
  {
  }

  /** Committing `n` bytes laid down at `input` appends them, if one slot stays free. */
  lemma RingPush(buf: seq<byte>, output: nat, input: nat, n: nat)
    requires output < |buf| && input < |buf| && input + n <= |buf|
    requires |Ring(buf, output, input)| + n < |buf|
    ensures Ring(buf, output, (input + n) % |buf|) == Ring(buf, output, input) + buf[input..input + n]
  {
    IndexWrap(input, n, |buf|);
    var ring, chunk := Ring(buf, output, input), buf[input..input + n];
    if output <= input {
      assert ring + chunk == buf[output..input + n];
      if input + n == |buf| {
        assert n == 0 || output > 0;
      }
    } else {
      assert ring + chunk == buf[output..] + buf[..input + n];
    }
  }

  /** Advancing `output` removes bytes at the front. */
  lemma RingPop(buf: seq<byte>, output: nat, input: nat, n: nat)
    requires output < |buf| && input < |buf| && output + n <= |buf|
    requires n <= |Ring(buf, output, input)|
    ensures Ring(buf, (output + n) % |buf|, input) == Ring(buf, output, input)[n..]
    ensures buf[output..output + n] == Ring(buf, output, input)[..n]
  {
    IndexWrap(output, n, |buf|);
    var ring := Ring(buf, output, input);
    if output <= input {
      assert ring[n..] == buf[output + n..input];
    } else if output + n == |buf| {
      assert ring[n..] == buf[..input];
    } else {
      assert ring[n..] == buf[output + n..] + buf[..input];
    }
  }

  /** The interrupt routine's test for a full ring. */
  lemma FullWhenNext(buf: seq<byte>, output: nat, input: nat)
    requires |buf| >= 2 && output < |buf| && input < |buf|
    ensures (input + 1) % |buf| == output <==> |Ring(buf, output, input)| == |buf| - 1
  {
    IndexWrap(input, 1, |buf|);
  }

  lemma EmptyWhenEqual(buf: seq<byte>, output: nat, input: nat)
    requires output < |buf| && input < |buf|
    ensures output == input <==> Ring(buf, output, input) == []
  {
  }

  /** A byte stored outside the occupied part changes nothing. */
  lemma RingStore(buf: seq<byte>, output: nat, input: nat, k: nat, b: byte)
    requires output < |buf| && input < |buf| && input + k < |buf|
    requires |Ring(buf, output, input)| + k < |buf| - 1
    ensures Ring(buf[input + k := b], output, input) == Ring(buf, output, input)
  {
  }

  // ---------------------------------------------------------------- The interrupt routine, as functions

  function Min(a: nat, b: nat): nat {
    if a < b then a else b
  }

  /** The first `n` bytes, or all of them. */
  function Front(s: seq<byte>, n: nat): (r: seq<byte>)
    ensures |r| == Min(n, |s|)
  {
    s[..Min(n, |s|)]
  }

  function Rest(s: seq<byte>, n: nat): (r: seq<byte>)
    ensures |r| == |s| - Min(n, |s|)
  {
    s[Min(n, |s|)..]
  }

  lemma FrontAndRest(s: seq<byte>, n: nat)
    ensures Front(s, n) + Rest(s, n) == s
  {
  }

  lemma FrontOfAll(s: seq<byte>, n: nat)
    ensures n >= |s| ==> Front(s, n) == s && Rest(s, n) == []
  {
  }

  /** The bytes the data register delivers before its first empty answer. */
  function ValidBytes(answers: seq<Reading>): (bytes: seq<byte>)
    ensures |bytes| <= |answers|
    ensures forall k :: 0 <= k < |bytes| ==> answers[k].rvalid && bytes[k] == answers[k].data
    ensures |bytes| < |answers| ==> !answers[|bytes|].rvalid
  {
    if answers == [] || !answers[0].rvalid then []
    else [answers[0].data] + ValidBytes(answers[1..])
  }

  /** What a receive pass stores with `room` free slots. */
  function Stored(answers: seq<Reading>, room: nat): seq<byte> {
    Front(ValidBytes(answers), room)
  }

  /** The pass fills the ring while the device still announces bytes. */
  predicate Overflows(answers: seq<Reading>, room: nat) {
    room == 0 ||
    (answers != [] && answers[0].rvalid
     && if room == 1 then answers[0].ravail > 0 else Overflows(answers[1..], room - 1))
  }

  /** Its last byte read, or the full ring it found, is what tells. */
  lemma {:induction false} OverflowsIff(answers: seq<Reading>, room: nat)
    ensures Overflows(answers, room) <==>
            room == 0 || (|ValidBytes(answers)| >= room && answers[room - 1].ravail > 0)
  {
    if room > 1 && answers != [] && answers[0].rvalid {
      OverflowsIff(answers[1..], room - 1);
    }
  }

  lemma ReceiveStep(answers: seq<Reading>, room: nat)
    requires answers != [] && answers[0].rvalid && room > 0
    ensures Stored(answers, room) == [answers[0].data] + Stored(answers[1..], room - 1)
    ensures Overflows(answers, room) <==>
            if room == 1 then answers[0].ravail > 0 else Overflows(answers[1..], room - 1)
  {
  }

  lemma ReceiveEnd(answers: seq<Reading>, room: nat)
    requires room == 0 || answers == [] || !answers[0].rvalid
    ensures Stored(answers, room) == [] && (Overflows(answers, room) <==> room == 0)
  {
  }

  lemma AppendAssociates(a: seq<byte>, b: seq<byte>, c: seq<byte>)
    ensures a + (b + c) == a + b + c
  {
  }

  /** What the interrupt routine works on, as values. */
  datatype View = View(
    tx: seq<byte>, rx: seq<byte>, sent: seq<byte>, taken: seq<byte>, writeEnable: bool, readEnable: bool)

  function ReceiveEffect(v: View, answers: seq<Reading>, capacity: nat): View
    requires |v.rx| <= capacity
  {
    var room := capacity - |v.rx|;
    v.(rx := v.rx + Stored(answers, room),
       taken := v.taken + Stored(answers, room),
       readEnable := v.readEnable && !Overflows(answers, room))
  }

  function TransmitEffect(v: View, wspace: nat): View {
    v.(tx := Rest(v.tx, wspace), sent := v.sent + Front(v.tx, wspace), writeEnable := v.writeEnable && wspace <= |v.tx|)
  }

  function PassEffect(v: View, pass: Pass, capacity: nat): (r: View)
    requires |v.rx| <= capacity
    ensures |r.rx| <= capacity
  {
    var received := if pass.ri then ReceiveEffect(v, pass.answers, capacity) else v;
    if pass.wi then TransmitEffect(received, pass.wspace) else received
  }

  /** Passes are made until a reading of the control register shows neither interrupt. */
  function IrqEffect(v: View, passes: seq<Pass>, capacity: nat): (r: View)
    requires |v.rx| <= capacity
    ensures |r.rx| <= capacity
    decreases |passes|
  {
    if passes == [] || (!passes[0].ri && !passes[0].wi) then v
    else IrqEffect(PassEffect(v, passes[0], capacity), passes[1..], capacity)
  }

  // ---------------------------------------------------------------- What an interrupt moves

  /** The readings of the control register that show an interrupt, up to the first that does not. */
  function Served(passes: seq<Pass>): (n: nat)
    ensures n <= |passes|
    ensures forall k :: 0 <= k < n ==> passes[k].ri || passes[k].wi
    ensures n < |passes| ==> !passes[n].ri && !passes[n].wi
  {
    if passes == [] || (!passes[0].ri && !passes[0].wi) then 0 else 1 + Served(passes[1..])
  }

  /** The space the device announces to the first `n` passes, and the bytes it offers to them. */
  function SpaceFor(passes: seq<Pass>, n: nat): nat
    requires n <= |passes|
  {
    if n == 0 then 0 else (if passes[0].wi then passes[0].wspace else 0) + SpaceFor(passes[1..], n - 1)
  }

  function OfferedTo(passes: seq<Pass>, n: nat): seq<byte>
    requires n <= |passes|
  {
    if n == 0 then [] else (if passes[0].ri then ValidBytes(passes[0].answers) else []) + OfferedTo(passes[1..], n - 1)
  }

  /** One of them leaves the ring full with bytes still announced. */
  predicate OverflowsFor(passes: seq<Pass>, n: nat, room: nat)
    requires n <= |passes|
  {
    n > 0 &&
    (|| (passes[0].ri && Overflows(passes[0].answers, room))
     || OverflowsFor(passes[1..], n - 1,
                     if passes[0].ri then RoomAfter(room, |ValidBytes(passes[0].answers)|) else room))
  }

  function RoomAfter(room: nat, n: nat): nat {
    room - Min(n, room)
  }

  /**
   From the oldest byte on the device gets as many as it has space for, the ring
   gets the offered bytes as far as there is room, and the enables are cleared
   when space is left over, and on overflow.
   */
  predicate Delivers(v: View, r: View, space: nat, offered: seq<byte>, overflows: bool, capacity: nat)
    requires |v.rx| <= capacity
  {
    var arrived := Front(offered, capacity - |v.rx|);
    && r.sent == v.sent + Front(v.tx, space) && r.tx == Rest(v.tx, space)
    && r.taken == v.taken + arrived && r.rx == v.rx + arrived
    && r.writeEnable == (v.writeEnable && space <= |v.tx|)
    && r.readEnable == (v.readEnable && !overflows)
  }

  lemma NothingMore(s: seq<byte>, n: nat)
    ensures Front(s, 0) == [] && Rest(s, 0) == s && s + [] == s && Front([], n) == []
  {
  }

  lemma FrontTwice(s: seq<byte>, n: nat, n': nat)
    ensures Front(s, n) + Front(Rest(s, n), n') == Front(s, n + n')
    ensures Rest(Rest(s, n), n') == Rest(s, n + n')
  {
  }

  lemma FrontOfSum(s: seq<byte>, s': seq<byte>, n: nat)
    ensures Front(s + s', n) == Front(s, n) + Front(s', RoomAfter(n, |s|))
  {
  }

  lemma ReceiveDelivers(v: View, answers: seq<Reading>, capacity: nat)
    requires |v.rx| <= capacity
    ensures Delivers(v, ReceiveEffect(v, answers, capacity), 0, ValidBytes(answers),
                     Overflows(answers, capacity - |v.rx|), capacity)
  {
    hide Overflows, ValidBytes, Front, Rest;
    NothingMore(v.tx, 0);
    NothingMore(v.sent, 0);
  }

  lemma TransmitDelivers(v: View, wspace: nat, capacity: nat)
    requires |v.rx| <= capacity
    ensures Delivers(v, TransmitEffect(v, wspace), wspace, [], false, capacity)
  {
    hide Front, Rest;
    NothingMore(v.rx, capacity - |v.rx|);
    NothingMore(v.taken, 0);
  }

  lemma PassDelivers(v: View, pass: Pass, capacity: nat)
    requires |v.rx| <= capacity
    ensures Delivers(v, PassEffect(v, pass, capacity),
                     if pass.wi then pass.wspace else 0, if pass.ri then ValidBytes(pass.answers) else [],
                     pass.ri && Overflows(pass.answers, capacity - |v.rx|), capacity)
  {
    hide Delivers, ReceiveEffect, TransmitEffect, Overflows, ValidBytes;
    NothingDelivered(v, capacity);
    ReceiveDelivers(v, pass.answers, capacity);
    EffectMovesOn(v, pass.answers, 0, capacity);
    var bytes, room := ValidBytes(pass.answers), capacity - |v.rx|;
    var received := if pass.ri then ReceiveEffect(v, pass.answers, capacity) else v;
    if pass.wi {
      TransmitDelivers(received, pass.wspace, capacity);
      NothingMore(if pass.ri then bytes else [], 0);
      DeliversTwice(v, received, TransmitEffect(received, pass.wspace), 0, if pass.ri then bytes else [],
                    pass.ri && Overflows(pass.answers, room), pass.wspace, [], false, capacity);
    }
  }

  lemma DeliversTwice(
    v: View, next: View, r: View, space: nat, offered: seq<byte>, overflows: bool,
    space': nat, offered': seq<byte>, overflows': bool, capacity: nat)
    requires |v.rx| <= capacity && Delivers(v, next, space, offered, overflows, capacity)
    requires |next.rx| <= capacity && Delivers(next, r, space', offered', overflows', capacity)
    ensures Delivers(v, r, space + space', offered + offered', overflows || overflows', capacity)
    ensures capacity - |next.rx| == RoomAfter(capacity - |v.rx|, |offered|)
  {
    hide Front, Rest;
    var room := capacity - |v.rx|;
    FrontTwice(v.tx, space, space');
    FrontOfSum(offered, offered', room);
    AppendAssociates(v.sent, Front(v.tx, space), Front(next.tx, space'));
    AppendAssociates(v.rx, Front(offered, room), Front(offered', RoomAfter(room, |offered|)));
    AppendAssociates(v.taken, Front(offered, room), Front(offered', RoomAfter(room, |offered|)));
  }

  lemma {:induction false} IrqDelivers(v: View, passes: seq<Pass>, capacity: nat)
    requires |v.rx| <= capacity
    ensures var n := Served(passes);
            Delivers(v, IrqEffect(v, passes, capacity), SpaceFor(passes, n), OfferedTo(passes, n),
                     OverflowsFor(passes, n, capacity - |v.rx|), capacity)
    decreases |passes|
  {
    hide Delivers, PassEffect, Overflows, ValidBytes;
    if passes == [] || (!passes[0].ri && !passes[0].wi) {
      NothingDelivered(v, capacity);
    } else {
      var pass, next := passes[0], PassEffect(v, passes[0], capacity);
      var rest, n := passes[1..], Served(passes[1..]);
      PassDelivers(v, pass, capacity);
      IrqDelivers(next, rest, capacity);
      DeliversTwice(v, next, IrqEffect(next, rest, capacity),
                    if pass.wi then pass.wspace else 0, if pass.ri then ValidBytes(pass.answers) else [],
                    pass.ri && Overflows(pass.answers, capacity - |v.rx|),
                    SpaceFor(rest, n), OfferedTo(rest, n), OverflowsFor(rest, n, capacity - |next.rx|), capacity);
    }
  }

  lemma NothingDelivered(v: View, capacity: nat)
    requires |v.rx| <= capacity
    ensures Delivers(v, v, 0, [], false, capacity)
  {
    hide Front, Rest;
    NothingMore(v.tx, capacity - |v.rx|);
    NothingMore(v.sent, 0);
    NothingMore(v.rx, 0);
    NothingMore(v.taken, 0);
  }

  /** The same for the interrupts of a batch, in order. */
  function BatchSpace(batch: seq<Interrupt>): nat {
    if batch == [] then 0
    else (if batch[0].Irq? then SpaceFor(batch[0].passes, Served(batch[0].passes)) else 0) + BatchSpace(batch[1..])
  }

  function BatchOffered(batch: seq<Interrupt>): seq<byte> {
    if batch == [] then []
    else (if batch[0].Irq? then OfferedTo(batch[0].passes, Served(batch[0].passes)) else []) + BatchOffered(batch[1..])
  }

  predicate BatchOverflows(batch: seq<Interrupt>, room: nat) {
    batch != [] &&
    if batch[0].Irq? then
      var n := Served(batch[0].passes);
      || OverflowsFor(batch[0].passes, n, room)
      || BatchOverflows(batch[1..], RoomAfter(room, |OfferedTo(batch[0].passes, n)|))
    else BatchOverflows(batch[1..], room)
  }

  /** The silent seconds counted after a batch. */
  function SilenceAfter(silent: nat, batch: seq<Interrupt>): nat
    decreases |batch|
  {
    if batch == [] then silent
    else SilenceAfter(if batch[0].Irq? then silent else if batch[0].ac then 0 else Min(silent + 1, INT_MAX - 2), batch[1..])
  }

  function BatchEffect(v: View, batch: seq<Interrupt>, capacity: nat): (r: View)
    requires |v.rx| <= capacity
    ensures |r.rx| <= capacity
    decreases |batch|
  {
    if batch == [] then v
    else BatchEffect(if batch[0].Irq? then IrqEffect(v, batch[0].passes, capacity) else v, batch[1..], capacity)
  }

  lemma {:induction false} BatchDelivers(v: View, batch: seq<Interrupt>, capacity: nat)
    requires |v.rx| <= capacity
    ensures Delivers(v, BatchEffect(v, batch, capacity), BatchSpace(batch), BatchOffered(batch),
                     BatchOverflows(batch, capacity - |v.rx|), capacity)
    decreases |batch|
  {
    hide Delivers, IrqEffect, SpaceFor, OfferedTo, OverflowsFor;
    if batch == [] {
      NothingDelivered(v, capacity);
    } else if batch[0].Irq? {
      var passes, n := batch[0].passes, Served(batch[0].passes);
      var next, rest := IrqEffect(v, passes, capacity), batch[1..];
      IrqDelivers(v, passes, capacity);
      BatchDelivers(next, rest, capacity);
      DeliversTwice(v, next, BatchEffect(next, rest, capacity),
                    SpaceFor(passes, n), OfferedTo(passes, n), OverflowsFor(passes, n, capacity - |v.rx|),
                    BatchSpace(rest), BatchOffered(rest), BatchOverflows(rest, capacity - |next.rx|), capacity);
    } else {
      BatchDelivers(v, batch[1..], capacity);
      assert [] + BatchOffered(batch[1..]) == BatchOffered(batch[1..]);
    }
  }

  /** Between two views bytes have only moved on: none lost, invented or reordered. */
  predicate MovedOn(v: View, r: View, arrived: seq<byte>) {
    && r.sent + r.tx == v.sent + v.tx && v.sent <= r.sent
    && r.taken == v.taken + arrived && r.rx == v.rx + arrived
  }

  lemma EffectMovesOn(v: View, answers: seq<Reading>, wspace: nat, capacity: nat)
    requires |v.rx| <= capacity
    ensures MovedOn(v, ReceiveEffect(v, answers, capacity), Stored(answers, capacity - |v.rx|))
    ensures ReceiveEffect(v, answers, capacity).tx == v.tx && ReceiveEffect(v, answers, capacity).sent == v.sent
    ensures MovedOn(v, TransmitEffect(v, wspace), [])
    ensures TransmitEffect(v, wspace).rx == v.rx && TransmitEffect(v, wspace).taken == v.taken
    ensures |TransmitEffect(v, wspace).tx| <= |v.tx|
  {
    var n := Min(wspace, |v.tx|);
    assert v.sent + v.tx == v.sent + v.tx[..n] + v.tx[n..];
  }

  lemma PassConserves(v: View, pass: Pass, capacity: nat) returns (arrived: seq<byte>)
    requires |v.rx| <= capacity
    ensures MovedOn(v, PassEffect(v, pass, capacity), arrived)
  {
    arrived := if pass.ri then Stored(pass.answers, capacity - |v.rx|) else [];
    var n := Min(pass.wspace, |v.tx|);
    assert v.sent + v.tx == v.sent + v.tx[..n] + v.tx[n..];
  }

  /** One interrupt moves bytes without losing, inventing or reordering any. */
  lemma {:induction false} IrqConserves(v: View, passes: seq<Pass>, capacity: nat) returns (arrived: seq<byte>)
    requires |v.rx| <= capacity
    ensures MovedOn(v, IrqEffect(v, passes, capacity), arrived)
    decreases |passes|
  {
    if passes == [] || (!passes[0].ri && !passes[0].wi) {
      arrived := [];
    } else {
      var now := PassConserves(v, passes[0], capacity);
      var next := PassEffect(v, passes[0], capacity);
      var later := IrqConserves(next, passes[1..], capacity);
      arrived := now + later;
      MoveOnTwice(v, next, IrqEffect(v, passes, capacity), now, later);
    }
  }

  lemma MoveOnTwice(v: View, next: View, r: View, now: seq<byte>, later: seq<byte>)
    requires MovedOn(v, next, now) && MovedOn(next, r, later)
    ensures MovedOn(v, r, now + later)
  {
    assert v.taken + now + later == v.taken + (now + later);
    assert v.rx + now + later == v.rx + (now + later);
  }

  /** It turns an interrupt off only with the transmit ring empty, or the receive ring full. */
  lemma {:induction false} IrqDisablesSafely(v: View, passes: seq<Pass>, capacity: nat)
    requires |v.rx| <= capacity
    ensures var r := IrqEffect(v, passes, capacity);
            && (v.writeEnable && !r.writeEnable ==> r.tx == [])
            && (v.readEnable && !r.readEnable ==> |r.rx| == capacity)
    decreases |passes|
  {
    if passes != [] && (passes[0].ri || passes[0].wi) {
      var next := PassEffect(v, passes[0], capacity);
      IrqDisablesSafely(next, passes[1..], capacity);
      var later := IrqConserves(next, passes[1..], capacity);
      if Overflows(passes[0].answers, capacity - |v.rx|) {
        OverflowFills(passes[0].answers, capacity - |v.rx|);
      }
    }
  }

  lemma {:induction false} OverflowFills(answers: seq<Reading>, room: nat)
    requires Overflows(answers, room)
    ensures |Stored(answers, room)| == room
  {
    if room > 1 {
      OverflowFills(answers[1..], room - 1);
    }
  }

  // ---------------------------------------------------------------- The driver

  class JtagUart {
    const length: nat
    const txBuf: array<byte>
    const rxBuf: array<byte>
    var txIn: nat
    var txOut: nat
    var rxIn: nat
    var rxOut: nat
    var writeEnable: bool
    var readEnable: bool
    var hostInactive: nat
    var timeout: nat
    /** What the interrupt controller will do, one batch per foreground statement. */
    var script: seq<seq<Interrupt>>

    // Histories: bytes committed by writers, handed to the device, taken from it, given to readers.
    ghost var accepted: seq<byte>
    ghost var sent: seq<byte>
    ghost var taken: seq<byte>
    ghost var delivered: seq<byte>

    // A writer has committed bytes and not yet enabled its interrupt; a reader has consumed bytes likewise.
    ghost var committing: bool
    ghost var consuming: bool

    // The batches run since a writer, a reader, or a close last had to wait.
    ghost var writerIdle: nat
    ghost var readerIdle: nat
    ghost var closerIdle: nat

    // The batches after which the host was given up.
    ghost var silences: nat

    ghost predicate Shape()
      reads this
    {
      && length >= 2 && txBuf != rxBuf
      && txBuf.Length == length && rxBuf.Length == length
      && txIn < length && txOut < length && rxIn < length && rxOut < length
    }

    ghost function TxContents(): seq<byte>
      requires Shape()
      reads this, txBuf
    {
      Ring(txBuf[..], txOut, txIn)
    }

    ghost function RxContents(): seq<byte>
      requires Shape()
      reads this, rxBuf
    {
      Ring(rxBuf[..], rxOut, rxIn)
    }

    /** Nothing is lost, duplicated or reordered, and no enable is lost outside the two windows. */
    ghost predicate Valid()
      reads this, txBuf, rxBuf
    {
      && Shape()
      && accepted == sent + TxContents()
      && taken == delivered + RxContents()
      && (TxContents() != [] ==> writeEnable || committing)
      && (!readEnable ==> |RxContents()| == length - 1 || consuming)
      && hostInactive <= INT_MAX - 2
    }

    ghost function Image(): View
      requires Shape()
      reads this, txBuf, rxBuf
    {
      View(TxContents(), RxContents(), sent, taken, writeEnable, readEnable)
    }

    /** Between calls neither window is open. */
    ghost predicate Quiet()
      reads this, txBuf, rxBuf
    {
      Valid() && !committing && !consuming
    }

    /** A writer can only wait: the ring is full and the host not given up. */
    ghost predicate WriterMustWait()
      requires Shape()
      reads this, txBuf
    {
      |TxContents()| == length - 1 && (hostInactive == 0 || hostInactive < timeout)
    }

    /** A reader can only wait: the ring is empty and the host not given up. */
    ghost predicate ReaderMustWait()
      requires Shape()
      reads this, rxBuf
    {
      RxContents() == [] && hostInactive < timeout
    }

    /** A close can only wait: bytes are left to send and the host is not given up. */
    ghost predicate CloserMustWait()
      requires Shape()
      reads this, txBuf
    {
      TxContents() != [] && hostInactive < timeout
    }

    /** The batch has been run since the old state. */
    twostate predicate Ran(batch: seq<Interrupt>)
      requires old(Shape()) && Shape() && |old(RxContents())| < length
      reads this, txBuf, rxBuf
    {
      && Delivers(old(Image()), Image(), BatchSpace(batch), BatchOffered(batch),
                  BatchOverflows(batch, length - 1 - |old(RxContents())|), length - 1)
      && hostInactive == SilenceAfter(old(hostInactive), batch)
    }

    /** Batches were only taken from the script, and counted; the device histories only grew. */
    twostate predicate Elapsed()
      reads this
    {
      && |script| <= |old(script)|
      && writerIdle <= old(writerIdle) + |old(script)| - |script|
      && readerIdle <= old(readerIdle) + |old(script)| - |script|
      && closerIdle <= old(closerIdle) + |old(script)| - |script|
      && old(silences) <= silences <= old(silences) + |old(script)| - |script|
      && |old(sent)| <= |sent| && |old(taken)| <= |taken|
    }

    /** At most `cost` batches were taken. */
    twostate predicate Spent(cost: int)
      reads this
    {
      |script| + cost >= |old(script)|
    }

    /** What interrupts may have changed since the old state. */
    twostate predicate Interrupted()
      requires old(Shape())
      reads this, txBuf, rxBuf
    {
      && Shape()
      && txIn == old(txIn) && rxOut == old(rxOut)
      && txBuf[..] == old(txBuf[..])
      && accepted == old(accepted) && delivered == old(delivered)
      && committing == old(committing) && consuming == old(consuming)
      && timeout == old(timeout)
      && |TxContents()| <= |old(TxContents())|
      && old(RxContents()) <= RxContents()
      && |old(sent)| <= |sent| && |old(taken)| <= |taken|
    }

    constructor (length: nat, timeout: nat, script: seq<seq<Interrupt>>)
      requires length >= 2
      ensures Quiet() && fresh(txBuf) && fresh(rxBuf)
      ensures accepted == sent == taken == delivered == [] && writerIdle == readerIdle == closerIdle == silences == 0
      ensures this.length == length && this.timeout == timeout && this.script == script
    {
      this.length := length;
      txBuf := new byte[length](_ => 0);
      rxBuf := new byte[length](_ => 0);
      txIn, txOut, rxIn, rxOut := 0, 0, 0, 0;
      writeEnable, readEnable := false, true;
      hostInactive := 0;
      this.timeout := timeout;
      this.script := script;
      accepted, sent, taken, delivered := [], [], [], [];
      committing, consuming := false, false;
      writerIdle, readerIdle, closerIdle, silences := 0, 0, 0, 0;
    }

    // -------------------------------------------------------------- Interrupt level

    /** The receive half of one pass: never takes a byte it cannot store. */
    method ReceivePass(answers: seq<Reading>)
      requires Valid()
      modifies this`rxIn, this`readEnable, this`taken, rxBuf
      ensures Valid() && Image() == ReceiveEffect(old(Image()), answers, length - 1)
    {
      hide Ring, Stored, Overflows;
      ghost var stored := Stored(answers, length - 1 - |RxContents()|);
      AppendAssociates(delivered, RxContents(), stored);
      var available := ReceiveLoop(answers);
      if available {
        readEnable := false;
      }
    }

    /** Takes bytes until the ring is full or the device has none; tells whether it still announces any. */
    method ReceiveLoop(answers: seq<Reading>) returns (available: bool)
      requires Shape()
      modifies this`rxIn, this`taken, rxBuf
      ensures Shape()
      ensures var room := length - 1 - |old(RxContents())|;
              && taken == old(taken) + Stored(answers, room)
              && RxContents() == old(RxContents()) + Stored(answers, room)
              && (available <==> Overflows(answers, room))
              && (available ==> |RxContents()| == length - 1)
    {
      hide Ring, Stored, Overflows;
      var data: DataRegister := DataRegister(false, 0, 1);
      var k := 0;
      ghost var before := RxContents();
      ghost var room := length - 1 - |before|;
      ghost var got: seq<byte> := [];
      if room == 0 {
        ReceiveEnd(answers, 0);
      }
      while true
        invariant 0 <= k <= |answers| && |got| <= room
        invariant Shape()
        invariant taken == old(taken) + got && RxContents() == before + got
        invariant Stored(answers, room) == got + Stored(answers[k..], room - |got|)
        invariant Overflows(answers, room) <==>
                  if |got| == room then data.ravail > 0 else Overflows(answers[k..], room - |got|)
        decreases |answers| - k
      {
        var next := (rxIn + 1) % length;
        FullWhenNext(rxBuf[..], rxOut, rxIn);
        if next == rxOut {
          ReceiveEnd(answers[k..], 0);
          break;
        }
        data := if k < |answers| then answers[k] else NO_DATA;
        if !data.rvalid {
          ReceiveEnd(answers[k..], room - |got|);
          break;
        }
        StoreReceived(data.data);
        assert answers[k..][1..] == answers[k + 1..];
        ReceiveStep(answers[k..], room - |got|);
        got := got + [data.data];
        k := k + 1;
      }
      available := data.ravail > 0;
    }

    /** One byte into the receive ring. */
    method StoreReceived(b: byte)
      requires Shape() && |RxContents()| < length - 1
      modifies this`rxIn, this`taken, rxBuf
      ensures Shape()
      ensures RxContents() == old(RxContents()) + [b] && taken == old(taken) + [b]
    {
      RingStore(rxBuf[..], rxOut, rxIn, 0, b);
      ghost var after := rxBuf[..][rxIn := b];
      rxBuf[rxIn] := b;
      assert rxBuf[..] == after;
      RingPush(after, rxOut, rxIn, 1);
      assert after[rxIn..rxIn + 1] == [b];
      rxIn := (rxIn + 1) % length;
      taken := taken + [b];
    }

    /** The transmit half of one pass: hands over what fits, and turns itself off when the ring runs dry. */
    method TransmitPass(wspace: nat)
      requires Valid()
      modifies this`txOut, this`writeEnable, this`sent
      ensures Valid() && Image() == TransmitEffect(old(Image()), wspace)
    {
      hide Ring, Front, Rest;
      ghost var before := TxContents();
      var space := TransmitLoop(wspace);
      FrontAndRest(before, wspace);
      AppendAssociates(old(sent), Front(before, wspace), Rest(before, wspace));
      if space > 0 {
        writeEnable := false;
      }
    }

    /** Hands over bytes until the device or the ring has no more; `space` is what the device has left. */
    method TransmitLoop(wspace: nat) returns (space: nat)
      requires Shape()
      modifies this`txOut, this`sent
      ensures Shape() && space == wspace - Min(wspace, |old(TxContents())|)
      ensures sent == old(sent) + Front(old(TxContents()), wspace)
      ensures TxContents() == Rest(old(TxContents()), wspace)
    {
      hide Ring, Front, Rest;
      ghost var before := TxContents();
      space := wspace;
      NothingMore(before, 0);
      NothingMore(sent, 0);
      while space > 0 && txOut != txIn
        invariant Shape() && space <= wspace && wspace - space <= |before|
        invariant sent == old(sent) + Front(before, wspace - space) && TxContents() == Rest(before, wspace - space)
      {
        EmptyWhenEqual(txBuf[..], txOut, txIn);
        FrontTwice(before, wspace - space, 1);
        AppendAssociates(old(sent), Front(before, wspace - space), Front(TxContents(), 1));
        SendFirst();
        space := space - 1;
      }
      EmptyWhenEqual(txBuf[..], txOut, txIn);
      FrontOfAll(before, wspace - space);
      FrontOfAll(before, wspace);
    }

    /** The oldest byte of the transmit ring to the device. */
    method SendFirst()
      requires Shape() && txOut != txIn
      modifies this`txOut, this`sent
      ensures Shape()
      ensures sent == old(sent) + Front(old(TxContents()), 1) && TxContents() == Rest(old(TxContents()), 1)
    {
      hide Ring;
      RingPop(txBuf[..], txOut, txIn, 1);
      IndexWrap(txOut, 1, length);
      sent := sent + [txBuf[txOut]];
      txOut := (txOut + 1) % length;
    }

    method IrqPass(control: Pass)
      requires Valid()
      modifies this`rxIn, this`readEnable, this`taken, this`txOut, this`writeEnable, this`sent, rxBuf
      ensures Valid() && Interrupted()
      ensures Image() == PassEffect(old(Image()), control, length - 1)
    {
      hide Ring, ReceiveEffect, TransmitEffect;
      ghost var v := Image();
      if control.ri {
        EffectMovesOn(v, control.answers, 0, length - 1);
        ReceivePass(control.answers);
      }
      if control.wi {
        EffectMovesOn(Image(), [], control.wspace, length - 1);
        TransmitPass(control.wspace);
      }
    }

    /**
     The interrupt routine: serves passes until a reading shows no interrupt; the
     oldest bytes go out as far as there is space, and bytes come in as far as
     there is room.
     */
    method IrqRoutine(passes: seq<Pass>)
      requires Valid()
      modifies this`rxIn, this`readEnable, this`taken, this`txOut, this`writeEnable, this`sent, rxBuf
      ensures Valid() && Interrupted()
      ensures Image() == IrqEffect(old(Image()), passes, length - 1)
      ensures var n := Served(passes);
              && sent == old(sent) + Front(old(TxContents()), SpaceFor(passes, n))
              && taken == old(taken) + Front(OfferedTo(passes, n), length - 1 - |old(RxContents())|)
              && writeEnable == (old(writeEnable) && SpaceFor(passes, n) <= |old(TxContents())|)
              && readEnable == (old(readEnable) && !OverflowsFor(passes, n, length - 1 - |old(RxContents())|))
    {
      hide Ring, IrqEffect, SpaceFor, OfferedTo, OverflowsFor, Served;
      ghost var v := Image();
      ServePasses(passes);
      IrqDelivers(v, passes, length - 1);
    }

    /** The routine's loop. */
    method ServePasses(passes: seq<Pass>)
      requires Valid()
      modifies this`rxIn, this`readEnable, this`taken, this`txOut, this`writeEnable, this`sent, rxBuf
      ensures Valid() && Interrupted()
      ensures Image() == IrqEffect(old(Image()), passes, length - 1)
    {
      hide Ring, PassEffect;
      for k := 0 to |passes|
        invariant Valid() && Interrupted()
        invariant IrqEffect(old(Image()), passes, length - 1) == IrqEffect(Image(), passes[k..], length - 1)
      {
        var control := passes[k];
        assert passes[k..][1..] == passes[k + 1..];
        if !control.ri && !control.wi {
          break;
        }
        IrqPass(control);
      }
    }

    /** Activity clears the count of silent seconds, which otherwise saturates. */
    method TimeoutRoutine(ac: bool)
      requires Valid()
      modifies this`hostInactive
      ensures Valid() && Interrupted() && hostInactive <= INT_MAX - 2
      ensures ac <==> hostInactive == 0
      ensures !ac ==> hostInactive == Min(old(hostInactive) + 1, INT_MAX - 2)
    {
      if ac {
        hostInactive := 0;
      } else if hostInactive < INT_MAX - 2 {
        hostInactive := hostInactive + 1;
      }
    }

    /** Between two foreground statements: the interrupts of one batch. */
    method RunBatch(batch: seq<Interrupt>)
      requires Valid()
      modifies this`rxIn, this`readEnable, this`taken, this`txOut, this`writeEnable, this`sent, this`hostInactive, rxBuf
      ensures Valid() && Interrupted()
      ensures Delivers(old(Image()), Image(), BatchSpace(batch), BatchOffered(batch),
                       BatchOverflows(batch, length - 1 - |old(RxContents())|), length - 1)
      ensures hostInactive == SilenceAfter(old(hostInactive), batch)
    {
      hide Ring, Delivers, IrqEffect, Served, SpaceFor, OfferedTo, OverflowsFor, Overflows;
      BatchDelivers(Image(), batch, length - 1);
      hide BatchSpace, BatchOffered, BatchOverflows;
      for k := 0 to |batch|
        invariant Valid() && Interrupted()
        invariant BatchEffect(old(Image()), batch, length - 1) == BatchEffect(Image(), batch[k..], length - 1)
        invariant SilenceAfter(old(hostInactive), batch) == SilenceAfter(hostInactive, batch[k..])
      {
        assert batch[k..][1..] == batch[k + 1..];
        match batch[k]
        case Irq(passes) => IrqRoutine(passes);
        case Timer(ac) => TimeoutRoutine(ac);
      }
    }

    /** Takes one batch from the script and runs it; without one nothing happens and the call is cut. */
    method Preempt() returns (more: bool)
      requires Valid()
      modifies this, rxBuf
      ensures Valid() && Interrupted() && Elapsed()
      ensures more == (old(script) != [])
      ensures script == if more then old(script)[1..] else []
      ensures !more ==> Image() == old(Image()) && hostInactive == old(hostInactive)
      ensures more ==> Ran(old(script)[0])
      ensures more && WriterMustWait() ==> writerIdle == 0
      ensures more && ReaderMustWait() ==> readerIdle == 0
      ensures more && CloserMustWait() ==> closerIdle == 0
      ensures silences == old(silences) + if more && hostInactive >= timeout then 1 else 0
    {
      hide Ring, Delivers, BatchSpace, BatchOffered, BatchOverflows, SilenceAfter;
      if script == [] {
        return false;
      }
      var batch := script[0];
      script := script[1..];
      RunBatch(batch);
      Tally();
      return true;
    }

    /** Keeps count of the batches at whose end nobody had to wait, and of those that found the host silent. */
    ghost method Tally()
      requires Shape()
      modifies this`writerIdle, this`readerIdle, this`closerIdle, this`silences
      ensures writerIdle == if WriterMustWait() then 0 else old(writerIdle) + 1
      ensures readerIdle == if ReaderMustWait() then 0 else old(readerIdle) + 1
      ensures closerIdle == if CloserMustWait() then 0 else old(closerIdle) + 1
      ensures silences == if hostInactive >= timeout then old(silences) + 1 else old(silences)
    {
      closerIdle := if CloserMustWait() then 0 else closerIdle + 1;
      writerIdle := if WriterMustWait() then 0 else writerIdle + 1;
      readerIdle := if ReaderMustWait() then 0 else readerIdle + 1;
      silences := if hostInactive >= timeout then silences + 1 else silences;
    }

    // -------------------------------------------------------------- Foreground: write

    /** One byte into the free part of the transmit ring. */
    method StoreAt(k: nat, b: byte)
      requires Shape() && |TxContents()| + k < length - 1 && txIn + k < length
      modifies txBuf
      ensures Shape() && TxContents() == old(TxContents())
      ensures txBuf[..] == old(txBuf[..])[txIn + k := b]
    {
      RingStore(txBuf[..], txOut, txIn, k, b);
      txBuf[txIn + k] := b;
      assert txBuf[..] == old(txBuf[..])[txIn + k := b];
    }

    /** `memcpy` into the free part of the transmit ring, interrupted after every byte. */
    method CopyIn(chunk: seq<byte>) returns (more: bool)
      requires Valid()
      requires |TxContents()| + |chunk| < length && txIn + |chunk| <= length
      modifies this, txBuf, rxBuf
      ensures Valid()
      ensures txIn == old(txIn) && rxOut == old(rxOut)
      ensures accepted == old(accepted) && delivered == old(delivered)
      ensures committing == old(committing) && consuming == old(consuming) && timeout == old(timeout)
      ensures |TxContents()| <= |old(TxContents())|
      ensures Elapsed() && Spent(|chunk|)
      ensures !more ==> script == []
      ensures more ==> txBuf[txIn..txIn + |chunk|] == chunk
    {
      hide Ring, Ran;
      more := true;
      for k := 0 to |chunk|
        invariant Valid() && txIn == old(txIn) && rxOut == old(rxOut)
        invariant accepted == old(accepted) && delivered == old(delivered)
        invariant committing == old(committing) && consuming == old(consuming) && timeout == old(timeout)
        invariant |TxContents()| <= |old(TxContents())|
        invariant Elapsed() && Spent(k)
        invariant txBuf[..][txIn..txIn + k] == chunk[..k]
      {
        StoreAt(k, chunk[k]);
        assert txBuf[..][txIn..txIn + k + 1] == chunk[..k + 1];
        more := Preempt();
        if !more {
          return;
        }
      }
    }

    /** The contiguous free space seen from a reading of the two indices. */
    function WriteRoom(input: nat, output: nat): nat
      requires input < length && output < length
    {
      if input < output then output - 1 - input
      else if output > 0 then length - input
      else length - 1 - input
    }

    /** Nothing of the read side, and no more than the given commits on the write side, has happened. */
    twostate predicate WriteProgress(data: seq<byte>, from: nat, upto: nat)
      requires from <= upto <= |data|
      reads this
    {
      && accepted == old(accepted) + data[from..upto]
      && delivered == old(delivered) && consuming == old(consuming)
      && timeout == old(timeout) && Elapsed()
    }

    /** A chunk of the computed room leaves one slot free; no room is seen only of a full ring. */
    lemma WriteRoomFits(input: nat)
      requires Shape() && input == txIn
      ensures var n := WriteRoom(input, txOut);
              n + |TxContents()| < length && input + n <= length && (n == 0 ==> |TxContents()| == length - 1)
    {
    }

    /** Reads `tx_in` and then `tx_out`. */
    method ObserveTx() returns (more: bool, input: nat, output: nat)
      requires Valid()
      modifies this, rxBuf
      ensures Valid() && WriteProgress([], 0, 0) && committing == old(committing)
      ensures Spent(2) && (!more ==> script == [])
      ensures more ==> input == txIn && output == txOut && |TxContents()| <= |old(TxContents())|
      ensures more && WriterMustWait() ==> writerIdle == 0
    {
      hide Ring, Ran;
      input, output := 0, 0;
      more := Preempt();
      if !more { return; }
      input := txIn;
      more := Preempt();
      if !more { return; }
      output := txOut;
    }

    /** Copies chunks until the data is used up or the ring is seen full; `output` is the last reading of it. */
    method FillRing(data: seq<byte>, from: nat) returns (more: bool, upto: nat, output: nat)
      requires Valid() && !committing && from <= |data|
      modifies this, txBuf, rxBuf
      ensures Valid() && from <= upto <= |data| && WriteProgress(data, from, upto)
      ensures Spent(4 * (|data| - from) + 2) && (!more ==> script == [])
      ensures more ==> Spent(4 * (upto - from) + 2)
      ensures more && upto < |data| ==> |TxContents()| == length - 1 && output == txOut
      ensures more && upto == from < |data| ==> |old(TxContents())| == length - 1
    {
      hide Ring, Ran;
      upto, output := from, 0;
      while upto < |data|
        invariant Valid() && from <= upto <= |data| && WriteProgress(data, from, upto)
        invariant Spent(4 * (upto - from))
        invariant upto == from ==> TxContents() == old(TxContents())
        decreases |data| - upto
      {
        var n;
        more, n, output := FillOnce(data[upto..]);
        if !more { return; }
        if n == 0 {
          break;
        }
        assert data[from..upto + n] == data[from..upto] + data[upto..][0..n];
        upto := upto + n;
      }
      more := true;
    }

    /** One chunk, of as many bytes as there is contiguous room for; none is copied only into a full ring. */
    method FillOnce(data: seq<byte>) returns (more: bool, n: nat, output: nat)
      requires Valid() && data != []
      modifies this, txBuf, rxBuf
      ensures Valid() && n <= |data| && WriteProgress(data, 0, n)
      ensures !more ==> n == 0 && script == [] && Spent(4 * |data|)
      ensures more && n == 0 ==> |TxContents()| == |old(TxContents())| == length - 1 && output == txOut && Spent(2)
      ensures more ==> Spent(4 * n + 2) && (n > 0 ==> Spent(4 * n))
    {
      hide Ring, Ran;
      var input;
      n := 0;
      more, input, output := ObserveTx();
      if !more { return; }
      var room := WriteRoom(input, output);
      WriteRoomFits(input);
      if room > |data| {
        room := |data|;
      }
      if room > 0 {
        more := PutChunk(data[..room]);
        if !more { return; }
        n := room;
      }
    }

    /** Copies a chunk and publishes it, all of it or nothing. */
    method PutChunk(chunk: seq<byte>) returns (more: bool)
      requires Valid() && |TxContents()| + |chunk| < length && txIn + |chunk| <= length
      modifies this, txBuf, rxBuf
      ensures Valid()
      ensures if more then WriteProgress(chunk, 0, |chunk|) else WriteProgress(chunk, 0, 0)
      ensures Spent(|chunk| + 1) && (!more ==> script == [])
    {
      hide Ring, Ran;
      more := Preempt();
      if !more { return; }
      more := CopyIn(chunk);
      if !more { return; }
      Commit(txIn, |chunk|);
    }

    /** The store to `tx_in` that publishes a copied chunk. */
    method Commit(input: nat, n: nat)
      requires Valid() && input == txIn
      requires |TxContents()| + n < length && txIn + n <= length
      modifies this`txIn, this`accepted, this`committing
      ensures Valid() && committing
      ensures accepted == old(accepted) + txBuf[input..input + n]
    {
      hide Ring, Ran;
      RingPush(txBuf[..], txOut, txIn, n);
      assert txBuf[..][input..input + n] == txBuf[input..input + n];
      AppendAssociates(sent, TxContents(), txBuf[input..input + n]);
      IndexWrap(input, n, length);
      txIn := (input + n) % length;
      accepted := accepted + txBuf[input..input + n];
      committing := true;
    }

    /** Spins until the interrupt routine moves `tx_out` or the host is given up, then looks at the host. */
    method AwaitSpace(output: nat) returns (more: bool, inactive: bool)
      requires Valid() && output < length && |Ring(txBuf[..], output, txIn)| == length - 1
      modifies this, rxBuf
      ensures Valid() && WriteProgress([], 0, 0) && committing == old(committing)
      ensures writerIdle <= old(writerIdle) + 2 && (!more ==> script == [])
      ensures more ==> |script| < |old(script)| && inactive == (hostInactive > 0)
      ensures more && WriterMustWait() ==> writerIdle == 0
      ensures more ==> |TxContents()| < length - 1 || silences > old(silences)
    {
      hide Ring, Ran;
      inactive := false;
      more := Preempt();
      while more && output == txOut && hostInactive < timeout
        invariant Valid() && WriteProgress([], 0, 0) && committing == old(committing)
        invariant txIn == old(txIn) && txBuf[..] == old(txBuf[..])
        invariant writerIdle <= old(writerIdle) + 1
        invariant if more then |script| < |old(script)| && (WriterMustWait() ==> writerIdle == 0) else script == []
        invariant more && hostInactive >= timeout ==> silences > old(silences)
        decreases |script|, more
      {
        assert WriterMustWait();
        more := Preempt();
      }
      if !more { return; }
      more := Preempt();
      inactive := hostInactive > 0;
    }

    /** Opens the interrupt for what was committed; interrupts are disabled around the update. */
    method EnableWrite()
      requires Valid()
      modifies this`writeEnable, this`committing
      ensures Valid() && !committing && writeEnable
    {
      writeEnable := true;
      committing := false;
    }

    /** One turn of the outer loop; `again` when it must be entered once more. */
    method WriteRound(data: seq<byte>, from: nat, nonblock: bool) returns (more: bool, upto: nat, again: bool)
      requires Valid() && !committing && from <= |data|
      modifies this, txBuf, rxBuf
      ensures Valid() && from <= upto <= |data| && WriteProgress(data, from, upto)
      ensures more ==> !committing
      ensures more && again ==> upto < |data| && |script| < |old(script)|
      ensures more && !again ==> upto == |data| || nonblock || hostInactive > 0
      ensures more && upto < |data| ==> |accepted| >= |old(sent)| + length - 1
      ensures more && upto < |data| ==> nonblock || |TxContents()| < length - 1 || silences > old(silences)
      ensures !more ==> script == []
      ensures nonblock || |old(TxContents())| + |data| - from < length ==> !again && Spent(4 * (|data| - from) + 3)
      ensures writerIdle <= old(writerIdle) + 4 * (|data| - from) + 5
      ensures again ==>
              && writerIdle <= old(writerIdle) + 4 * (upto - from) + 5
              && (upto == from ==> |old(TxContents())| == length - 1)
              && (|TxContents()| == length - 1 ==> writerIdle == 0)
    {
      hide Ring, Ran;
      again := false;
      var output;
      more, upto, output := FillRing(data, from);
      if !more { return; }
      more := Preempt();
      if !more { return; }
      EnableWrite();
      if upto < |data| && !nonblock {
        var inactive;
        more, inactive := AwaitSpace(output);
        again := more && !inactive;
      }
    }

    method Write(data: seq<byte>, nonblock: bool) returns (r: Outcome, written: nat)
      requires Quiet()
      modifies this, txBuf, rxBuf
      ensures Valid() && (if r.Cut? then script == [] else Quiet())
      ensures written <= |data| && accepted == old(accepted) + data[..written]
      ensures delivered == old(delivered) && !consuming && timeout == old(timeout)
      ensures r.Returned? ==>
              r.code == if written > 0 then written else if nonblock then -EWOULDBLOCK else -EIO
      ensures r.Returned? && written < |data| ==> nonblock || hostInactive > 0
      ensures r.Returned? && written < |data| ==> written + |old(TxContents())| >= length - 1
      ensures r.Returned? && written < |data| ==> nonblock || |TxContents()| < length - 1 || silences > old(silences)
      ensures nonblock || |old(TxContents())| + |data| < length ==> |old(script)| <= |script| + WriteCost(|data|)
      ensures writerIdle <= old(writerIdle) + 9 * |data| + 10 && Elapsed()
    {
      hide Ring, Ran;
      written := 0;
      var again, first := true, true;
      while again
        invariant Valid() && !committing && written <= |data| && WriteProgress(data, 0, written)
        invariant again || written == |data| || nonblock || hostInactive > 0
        invariant again || written == |data| || |accepted| >= |old(sent)| + length - 1
        invariant again || written == |data| || nonblock || |TxContents()| < length - 1 || silences > old(silences)
        invariant first ==> again && script == old(script) && written == 0 && TxContents() == old(TxContents())
        invariant nonblock || |old(TxContents())| + |data| < length ==>
                  first || (!again && Spent(WriteCost(|data|)))
        invariant writerIdle <= old(writerIdle) + (if again then 9 * written + 5 else 9 * |data| + 10)
        invariant again && !first && |TxContents()| == length - 1 ==> writerIdle == 0
        decreases |script|, again
      {
        var more, upto;
        more, upto, again := WriteRound(data, written, nonblock);
        assert data[0..written] + data[written..upto] == data[0..upto];
        written, first := upto, false;
        if !more { return Cut, written; }
      }
      if written > 0 {
        r := Returned(written);
      } else if nonblock {
        r := Returned(-EWOULDBLOCK);
      } else {
        r := Returned(-EIO);
      }
    }

    // -------------------------------------------------------------- Foreground: read

    /** Nothing of the write side has changed. */
    twostate predicate ReadFrame()
      reads this
    {
      && accepted == old(accepted) && committing == old(committing)
      && timeout == old(timeout) && Elapsed()
    }

    /** The contiguous bytes seen from a reading of the two indices. */
    function ReadRoom(input: nat, output: nat): nat
      requires input < length && output < length
    {
      if input >= output then input - output else length - output
    }

    /** The room computed from a reading of `rx_in` stays available: the interrupt only appends. */
    lemma ReadRoomFits(input: nat, output: nat)
      requires Shape() && output == rxOut && input < length
      requires |Ring(rxBuf[..], output, input)| <= |RxContents()|
      ensures var n := ReadRoom(input, output);
              n <= |RxContents()| && output + n <= length && (n == 0 <==> input == output)
    {
    }

    /** `memcpy` out of the receive ring, interrupted after every byte. */
    method CopyOut(buffer: array<byte>, at: nat, n: nat) returns (more: bool)
      requires Valid() && buffer != txBuf && buffer != rxBuf
      requires n <= |RxContents()| && rxOut + n <= length && at + n <= buffer.Length
      modifies this, rxBuf, buffer
      ensures Valid() && rxOut == old(rxOut) && consuming == old(consuming)
      ensures ReadFrame() && delivered == old(delivered) && buffer[..at] == old(buffer[..at])
      ensures n <= |RxContents()| && Spent(n) && (!more ==> script == [])
      ensures more ==> buffer[at..at + n] == RxContents()[..n]
    {
      hide Ring, Ran;
      more := true;
      for k := 0 to n
        invariant Valid() && rxOut == old(rxOut) && consuming == old(consuming)
        invariant ReadFrame() && delivered == old(delivered) && buffer[..at] == old(buffer[..at])
        invariant n <= |RxContents()| && Spent(k)
        invariant buffer[at..at + k] == RxContents()[..k]
      {
        ghost var ring := RxContents();
        RingPop(rxBuf[..], rxOut, rxIn, k + 1);
        assert rxBuf[rxOut + k] == rxBuf[..][rxOut..rxOut + k + 1][k] == ring[k];
        buffer[at + k] := rxBuf[rxOut + k];
        assert buffer[at..at + k + 1] == ring[..k + 1];
        more := Preempt();
        assert RxContents()[..k + 1] == ring[..k + 1];
        if !more { return; }
      }
    }

    /** The store to `rx_out` that frees a copied chunk. */
    method Consume(n: nat)
      requires Valid() && n <= |RxContents()| && rxOut + n <= length
      modifies this`rxOut, this`delivered, this`consuming
      ensures Valid() && consuming
      ensures delivered == old(delivered) + old(RxContents())[..n]
    {
      hide Ring, Ran;
      ghost var ring := RxContents();
      RingPop(rxBuf[..], rxOut, rxIn, n);
      IndexWrap(rxOut, n, length);
      AppendAssociates(delivered, ring[..n], ring[n..]);
      assert ring == ring[..n] + ring[n..];
      delivered := delivered + ring[..n];
      rxOut := (rxOut + n) % length;
      consuming := true;
    }

    /** Copies a chunk out and frees it, all of it or nothing. */
    method GetChunk(buffer: array<byte>, at: nat, n: nat) returns (more: bool)
      requires Valid() && buffer != txBuf && buffer != rxBuf
      requires n <= |RxContents()| && rxOut + n <= length && at + n <= buffer.Length
      modifies this, rxBuf, buffer
      ensures Valid() && (!more ==> consuming == old(consuming))
      ensures ReadFrame() && buffer[..at] == old(buffer[..at])
      ensures delivered == old(delivered) + if more then buffer[at..at + n] else []
      ensures Spent(n + 1) && (!more ==> script == [])
    {
      hide Ring, Ran;
      more := Preempt();
      if !more { return; }
      more := CopyOut(buffer, at, n);
      if !more { return; }
      Consume(n);
    }

    /** Reads `rx_in` and then `rx_out`; equal indices mean the ring was empty at the first reading. */
    method ObserveRx() returns (more: bool, input: nat, output: nat)
      requires Valid()
      modifies this, rxBuf
      ensures Valid() && ReadFrame() && delivered == old(delivered) && consuming == old(consuming)
      ensures more ==>
              && output == rxOut && input < length
              && |Ring(rxBuf[..], output, input)| <= |RxContents()|
              && (input == output ==> |delivered| >= |old(taken)|)
      ensures Spent(2) && (!more ==> script == [])
    {
      hide Ring, Ran;
      input, output := 0, 0;
      more := Preempt();
      if !more { return; }
      input := rxIn;
      more := Preempt();
      if !more { return; }
      output := rxOut;
    }

    /** Copies chunks until the buffer is full or the ring is seen empty; `input` is the last reading of it. */
    method DrainRing(buffer: array<byte>) returns (more: bool, upto: nat, input: nat)
      requires Quiet() && buffer != txBuf && buffer != rxBuf
      modifies this, rxBuf, buffer
      ensures Valid() && upto <= buffer.Length && ReadFrame()
      ensures delivered == old(delivered) + buffer[..upto]
      ensures more && upto == 0 ==> !consuming && (buffer.Length > 0 ==> input == rxOut)
      ensures more ==> upto >= Min(buffer.Length, |old(RxContents())|)
      ensures Spent(4 * buffer.Length + 2) && (!more ==> script == [])
      ensures more && upto == 0 ==> Spent(2)
    {
      hide Ring, Ran;
      upto, input := 0, 0;
      while upto < buffer.Length
        invariant Valid() && upto <= buffer.Length && ReadFrame()
        invariant delivered == old(delivered) + buffer[..upto]
        invariant upto == 0 ==> !consuming
        invariant Spent(4 * upto)
        decreases buffer.Length - upto
      {
        var n;
        more, n, input := DrainOnce(buffer, upto);
        if !more { return; }
        if n == 0 {
          break;
        }
        assert buffer[..upto + n] == buffer[..upto] + buffer[upto..upto + n];
        upto := upto + n;
      }
      more := true;
    }

    /** One chunk, of as many bytes as lie contiguously; none is copied only if the ring was seen empty. */
    method DrainOnce(buffer: array<byte>, at: nat) returns (more: bool, n: nat, input: nat)
      requires Valid() && buffer != txBuf && buffer != rxBuf && at < buffer.Length
      modifies this, rxBuf, buffer
      ensures Valid() && at + n <= buffer.Length && ReadFrame() && buffer[..at] == old(buffer[..at])
      ensures delivered == old(delivered) + buffer[at..at + n]
      ensures n == 0 ==> consuming == old(consuming)
      ensures !more ==> n == 0 && script == [] && Spent(4 * (buffer.Length - at))
      ensures more && n == 0 ==> |delivered| >= |old(taken)| && input == rxOut && Spent(2)
      ensures more && n > 0 ==> Spent(4 * n)
    {
      hide Ring, Ran;
      var output;
      n := 0;
      more, input, output := ObserveRx();
      if !more { return; }
      var room := ReadRoom(input, output);
      ReadRoomFits(input, output);
      if room > buffer.Length - at {
        room := buffer.Length - at;
      }
      if room > 0 {
        more := GetChunk(buffer, at, room);
        if !more { return; }
        n := room;
      }
    }

    /** Spins until the interrupt routine moves `rx_in` or the host is given up, then looks at the index. */
    method AwaitData(input: nat) returns (more: bool, arrived: bool)
      requires Valid() && input == rxOut
      modifies this, rxBuf
      ensures Valid() && ReadFrame() && delivered == old(delivered) && consuming == old(consuming)
      ensures more ==> |script| < |old(script)| && (arrived <==> RxContents() != [])
      ensures readerIdle <= old(readerIdle) + 2 && (!more ==> script == [])
      ensures more ==> arrived || silences > old(silences)
    {
      hide Ring, Ran;
      arrived := false;
      more := Preempt();
      EmptyWhenEqual(rxBuf[..], rxOut, rxIn);
      while more && input == rxIn && hostInactive < timeout
        invariant Valid() && ReadFrame() && delivered == old(delivered) && consuming == old(consuming)
        invariant rxOut == input && (rxIn == rxOut <==> RxContents() == [])
        invariant readerIdle <= old(readerIdle) + 1
        invariant if more then |script| < |old(script)| && (ReaderMustWait() ==> readerIdle == 0) else script == []
        invariant more && hostInactive >= timeout ==> silences > old(silences)
        decreases |script|, more
      {
        assert ReaderMustWait();
        more := Preempt();
        EmptyWhenEqual(rxBuf[..], rxOut, rxIn);
      }
      if !more { return; }
      more := Preempt();
      EmptyWhenEqual(rxBuf[..], rxOut, rxIn);
      arrived := input != rxIn;
    }

    /** Opens the interrupt for what was consumed; interrupts are disabled around the update. */
    method EnableRead()
      requires Valid()
      modifies this`readEnable, this`consuming
      ensures Valid() && !consuming && readEnable
    {
      readEnable := true;
      consuming := false;
    }

    method Read(buffer: array<byte>, nonblock: bool) returns (r: Outcome, count: nat)
      requires Quiet() && buffer != txBuf && buffer != rxBuf
      modifies this, rxBuf, buffer
      ensures Valid() && (if r.Cut? then script == [] else Quiet())
      ensures count <= buffer.Length && delivered == old(delivered) + buffer[..count]
      ensures accepted == old(accepted) && !committing && timeout == old(timeout)
      ensures r.Returned? ==>
              r.code == if count > 0 then count else if nonblock then -EWOULDBLOCK else -EIO
      ensures r.Returned? ==> count >= Min(buffer.Length, |old(RxContents())|)
      ensures r.Returned? && count == 0 < buffer.Length && !nonblock ==> silences > old(silences) && RxContents() == []
      ensures nonblock || old(RxContents()) != [] ==> |old(script)| <= |script| + ReadCost(buffer.Length)
      ensures readerIdle <= old(readerIdle) + 4 * buffer.Length + 7 && Elapsed()
    {
      hide Ring, Ran;
      count := 0;
      var more, first := true, true;
      while count < buffer.Length
        invariant Valid() && ReadFrame() && !consuming && count == 0
        invariant delivered == old(delivered)
        invariant if first then script == old(script) && RxContents() == old(RxContents())
                  else !nonblock && old(RxContents()) == [] && RxContents() != []
        invariant readerIdle <= old(readerIdle) + if first then 0 else 4
        decreases |script|
      {
        var upto, input;
        more, upto, input := DrainRing(buffer);
        count := upto;
        if !more { return Cut, count; }
        if count > 0 || nonblock {
          break;
        }
        var arrived;
        more, arrived := AwaitData(input);
        if !more { return Cut, count; }
        if !arrived {
          break;
        }
        first := false;
      }
      if count > 0 {
        more := Preempt();
        if !more { return Cut, count; }
        EnableRead();
        r := Returned(count);
      } else if nonblock {
        r := Returned(-EWOULDBLOCK);
      } else {
        r := Returned(-EIO);
      }
    }

    // -------------------------------------------------------------- Foreground: close

    /**
     Waits for the transmit ring to drain; success means every accepted byte was
     sent or the host gave up, and only a wait for neither can be cut.
     */
    method Close(nonblock: bool) returns (r: Outcome)
      requires Quiet()
      modifies this, rxBuf
      ensures Quiet() && (r.Cut? ==> script == [])
      ensures accepted == old(accepted) && delivered == old(delivered) && timeout == old(timeout) && Elapsed()
      ensures r.Returned? ==> r.code == 0 || (r.code == -EWOULDBLOCK && nonblock && sent < accepted && hostInactive < timeout)
      ensures closerIdle <= old(closerIdle) + 2
      ensures r == Returned(0) ==> sent == accepted || hostInactive >= timeout
      ensures nonblock ==> |old(script)| <= |script| + 1
      ensures r.Cut? && old(script) != [] ==> !nonblock && sent < accepted && hostInactive < timeout
    {
      var more := Preempt();
      while more && txOut != txIn && hostInactive < timeout
        invariant Quiet() && accepted == old(accepted) && delivered == old(delivered) && timeout == old(timeout)
        invariant Elapsed()
        invariant nonblock ==> |old(script)| <= |script| + 1
        invariant closerIdle <= old(closerIdle) + 1 && (more && CloserMustWait() ==> closerIdle == 0)
        invariant !more ==> script == []
        invariant !more && old(script) != [] ==> !nonblock && TxContents() != [] && hostInactive < timeout
        decreases |script|, more
      {
        if nonblock {
          assert |TxContents()| > 0;
          return Returned(-EWOULDBLOCK);
        }
        more := Preempt();
      }
      r := if more then Returned(0) else Cut;
    }

    // -------------------------------------------------------------- Sessions

    /**
     Any sequence of calls under any script: what the device was sent, followed
     by what the ring still holds, is the concatenation of the accepted prefixes
     of all writes, in order; likewise for reads.  Only the end of the script
     cuts a session, and calls that do not wait are all performed when the
     script is long enough.  An uncut session falls short of a write only with
     the ring filled, and of its reads only with the ring drained.
     */
    method Session(calls: seq<Call>) returns (counts: seq<nat>, received: seq<byte>)
      requires Quiet()
      modifies this, txBuf, rxBuf
      ensures Valid() && CountsFit(calls, counts)
      ensures sent + TxContents() == old(accepted) + AcceptedBytes(calls, counts)
      ensures taken == old(delivered) + received + RxContents()
      ensures |counts| == |calls| || script == []
      ensures (forall k :: 0 <= k < |calls| ==> calls[k].nonblock) && |old(script)| > TotalCost(calls) ==>
                script != []
      ensures script != [] ==>
                && ShortOnlyWhenFull(calls, counts, length - 1 - |old(TxContents())|)
                && |received| >= Min(TotalSpace(calls), |old(RxContents())|)
    {
      hide Ring, ShortOnlyWhenFull, CountFits, AcceptedBy;
      counts, received := [], [];
      ghost var start := Start(accepted, delivered, |TxContents()|, |RxContents()|, |script|);
      NothingAccepted(calls, length - 1 - start.tx);
      var cut := false;
      while |counts| < |calls| && !cut
        invariant |counts| <= |calls| && (if cut then script == [] else Quiet())
        invariant Valid() && Accounted(calls, counts, received, start) && (!cut ==> Fulfilled(calls, counts, received, start))
        invariant (forall k :: 0 <= k < |counts| ==> calls[k].nonblock) ==>
                    start.script <= |script| + TotalCost(calls[..|counts|])
        decreases |calls| - |counts|
      {
        counts, received, cut := PerformNext(calls, counts, received, start);
      }
      TotalsBound(calls, |counts|);
      assert calls[..|calls|] == calls;
    }

    /** What the calls so far have moved. */
    ghost predicate Accounted(calls: seq<Call>, counts: seq<nat>, received: seq<byte>, start: Start)
      reads this
    {
      && CountsFit(calls, counts)
      && accepted == start.accepted + AcceptedBytes(calls, counts)
      && delivered == start.delivered + received
    }

    /** None of them fell short of what the rings allowed. */
    ghost predicate Fulfilled(calls: seq<Call>, counts: seq<nat>, received: seq<byte>, start: Start)
      requires CountsFit(calls, counts)
      reads this
    {
      && |sent| >= |start.accepted| - start.tx && |taken| >= |start.delivered| + start.rx
      && ShortOnlyWhenFull(calls, counts, length - 1 - start.tx)
      && |received| >= Min(TotalSpace(calls[..|counts|]), start.rx)
    }

    /** The next call of a session. */
    method PerformNext(calls: seq<Call>, counts: seq<nat>, received: seq<byte>, ghost start: Start)
      returns (counts': seq<nat>, received': seq<byte>, cut: bool)
      requires Quiet() && |counts| < |calls|
      requires Accounted(calls, counts, received, start) && Fulfilled(calls, counts, received, start)
      modifies this, txBuf, rxBuf
      ensures Valid() && |counts'| == |counts| + 1 && (if cut then script == [] else Quiet())
      ensures Accounted(calls, counts', received', start) && (!cut ==> Fulfilled(calls, counts', received', start))
      ensures calls[|counts|].nonblock ==>
                |old(script)| + TotalCost(calls[..|counts|]) <= |script| + TotalCost(calls[..|counts'|])
      ensures |script| <= |old(script)|
    {
      hide Ring, CountsFit, CountFits, AcceptedBy, CallCost, Space, ShortOnlyWhenFull;
      var r, n := Perform(calls[|counts|]);
      AcceptedBytesStep(calls, counts, n.0);
      TotalsStep(calls, |counts|);
      counts', received', cut := counts + [n.0], received + n.1, r.Cut?;
      if !cut {
        ShortStep(calls, counts, n.0, length - 1 - start.tx);
      }
    }

    /** One call; yields the bytes a write committed and those a read delivered. */
    method Perform(call: Call) returns (r: Outcome, n: (nat, seq<byte>))
      requires Quiet()
      modifies this, txBuf, rxBuf
      ensures Valid() && Elapsed() && (if r.Cut? then script == [] else Quiet())
      ensures CountFits(call, n.0)
      ensures accepted == old(accepted) + AcceptedBy(call, n.0)
      ensures delivered == old(delivered) + n.1
      ensures call.nonblock ==> |old(script)| <= |script| + CallCost(call)
      ensures r.Returned? && call.WriteCall? && n.0 < |call.data| ==> |accepted| >= |old(sent)| + length - 1
      ensures r.Returned? ==> |n.1| >= Min(Space(call), |old(RxContents())|)
    {
      hide Ring;
      match call {
        case WriteCall(data, nonblock) =>
          var written;
          r, written := Write(data, nonblock);
          n := (written, []);
        case ReadCall(space, nonblock) =>
          var buffer := new byte[space](_ => 0);
          var count;
          r, count := Read(buffer, nonblock);
          n := (0, buffer[..count]);
        case CloseCall(nonblock) =>
          r := Close(nonblock);
          n := (0, []);
      }
    }
  }

  // The batches a call takes at most when it does not wait: three for each chunk and one for each byte.

  function WriteCost(n: nat): nat {
    4 * n + 3
  }

  function ReadCost(n: nat): nat {
    4 * n + 3
  }

  function CallCost(call: Call): nat {
    match call
    case WriteCall(data, _) => WriteCost(|data|)
    case ReadCall(space, _) => ReadCost(space)
    case CloseCall(_) => 1
  }

  function TotalCost(calls: seq<Call>): nat {
    if calls == [] then 0 else TotalCost(calls[..|calls| - 1]) + CallCost(calls[|calls| - 1])
  }

  /** The room for bytes that a call brings. */
  function Space(call: Call): nat {
    if call.ReadCall? then call.space else 0
  }

  function TotalSpace(calls: seq<Call>): nat {
    if calls == [] then 0 else TotalSpace(calls[..|calls| - 1]) + Space(calls[|calls| - 1])
  }

  lemma {:induction false} TotalsStep(calls: seq<Call>, k: nat)
    requires k < |calls|
    ensures TotalCost(calls[..k + 1]) == TotalCost(calls[..k]) + CallCost(calls[k])
    ensures TotalSpace(calls[..k + 1]) == TotalSpace(calls[..k]) + Space(calls[k])
  {
    hide CallCost, Space;
    if k == |calls| - 1 {
      assert calls[..k + 1] == calls;
    } else {
      var most := calls[..|calls| - 1];
      TotalsStep(most, k);
      assert most[..k + 1] == calls[..k + 1] && most[..k] == calls[..k];
    }
  }

  lemma {:induction false} TotalsBound(calls: seq<Call>, k: nat)
    requires k <= |calls|
    ensures TotalCost(calls[..k]) <= TotalCost(calls)
  {
    if k == |calls| {
      assert calls[..k] == calls;
    } else {
      var most := calls[..|calls| - 1];
      TotalsBound(most, k);
      assert most[..k] == calls[..k];
    }
  }

  /** What a session starts from: the histories, and the sizes of the rings and of the script. */
  datatype Start = Start(accepted: seq<byte>, delivered: seq<byte>, tx: nat, rx: nat, script: nat)

  datatype Call =
    | WriteCall(data: seq<byte>, nonblock: bool)
    | ReadCall(space: nat, nonblock: bool)
    | CloseCall(nonblock: bool)

  predicate CountFits(call: Call, n: nat) {
    call.WriteCall? ==> n <= |call.data|
  }

  predicate CountsFit(calls: seq<Call>, counts: seq<nat>) {
    |counts| <= |calls| && forall k :: 0 <= k < |counts| ==> CountFits(calls[k], counts[k])
  }

  function AcceptedBy(call: Call, n: nat): seq<byte>
    requires CountFits(call, n)
  {
    if call.WriteCall? then call.data[..n] else []
  }

  function AcceptedBytes(calls: seq<Call>, counts: seq<nat>): seq<byte>
    requires CountsFit(calls, counts)
    decreases |counts|
  {
    if counts == [] then []
    else
      var k := |counts| - 1;
      AcceptedBytes(calls, counts[..k]) + AcceptedBy(calls[k], counts[k])
  }

  /** Where a write falls short, the bytes accepted up to it have used up the room there was at first. */
  ghost predicate ShortOnlyWhenFull(calls: seq<Call>, counts: seq<nat>, room: int)
    requires CountsFit(calls, counts)
  {
    forall k :: 0 <= k < |counts| && calls[k].WriteCall? && counts[k] < |calls[k].data| ==>
      |AcceptedBytes(calls, counts[..k + 1])| >= room
  }

  lemma ShortStep(calls: seq<Call>, counts: seq<nat>, n: nat, room: int)
    requires CountsFit(calls, counts) && |counts| < |calls| && CountsFit(calls, counts + [n])
    requires ShortOnlyWhenFull(calls, counts, room)
    requires calls[|counts|].WriteCall? && n < |calls[|counts|].data| ==>
               |AcceptedBytes(calls, counts + [n])| >= room
    ensures ShortOnlyWhenFull(calls, counts + [n], room)
  {
    hide AcceptedBytes, CountFits;
    var more := counts + [n];
    forall k | 0 <= k < |more| && calls[k].WriteCall? && more[k] < |calls[k].data|
      ensures |AcceptedBytes(calls, more[..k + 1])| >= room
    {
      if k < |counts| {
        assert more[..k + 1] == counts[..k + 1];
      } else {
        assert more[..k + 1] == more;
      }
    }
  }

  lemma NothingAccepted(calls: seq<Call>, room: int)
    ensures CountsFit(calls, []) && AcceptedBytes(calls, []) == [] && ShortOnlyWhenFull(calls, [], room)
  {
  }

  lemma AcceptedBytesStep(calls: seq<Call>, counts: seq<nat>, n: nat)
    requires CountsFit(calls, counts) && |counts| < |calls| && CountFits(calls[|counts|], n)
    ensures CountsFit(calls, counts + [n])
    ensures AcceptedBytes(calls, counts + [n]) == AcceptedBytes(calls, counts) + AcceptedBy(calls[|counts|], n)
  {
    hide CountFits, AcceptedBy;
    var more := counts + [n];
    assert more[..|counts|] == counts && more[|counts|] == n;
  }
}
