/**
 Alarms on a 32-bit tick counter that wraps.  The first half follows one alarm
 as a value and shows that its time and rollover flag simulate an unbounded
 clock; the second half is the circular doubly linked list the tick walks.
 */
module Alarms {

  const WORD := 0x1_0000_0000
  const EINVAL := 22
  const ENOTSUP := 134

  type word = x: int | 0 <= x < WORD

  // ---------------------------------------------------------------- One alarm

  datatype Timer = Timer(time: word, rollover: bool)

  /** `alt_alarm_start`: due one tick after `nticks` more have elapsed. */
  function Started(nticks: word, now: word): Timer {
    var time := (nticks + now + 1) % WORD;
    Timer(time, time < now)
  }

  /** The flag is cleared when the counter rolls over. */
  function Unrolled(t: Timer, now: word): Timer {
    if t.rollover && now == 0 then t.(rollover := false) else t
  }

  predicate Expired(t: Timer, now: word) {
    t.time <= now && !t.rollover
  }

  /** The next deadline after a callback asked for `next` more ticks. */
  function Rearmed(t: Timer, next: word, now: word): Timer {
    var time := (t.time + next) % WORD;
    Timer(time, time < now || t.rollover)
  }

  /**
   On an unbounded clock the alarm is due at `deadline`: the flag says that the
   deadline lies in a later epoch of 2^32 ticks than the present.
   */
  predicate Tracks(t: Timer, clock: nat, deadline: nat) {
    && clock < deadline < clock + WORD
    && t.time == deadline % WORD
    && (t.rollover <==> deadline / WORD > clock / WORD)
  }

  lemma Epoch(clock: nat, ahead: nat)
    requires ahead < WORD
    ensures var r := clock % WORD + ahead;
            && (clock + ahead) % WORD == (if r < WORD then r else r - WORD)
            && (clock + ahead) / WORD == clock / WORD + if r < WORD then 0 else 1
  {
  }

  lemma StartTracks(nticks: word, clock: nat)
    requires nticks < WORD - 1
    ensures Tracks(Started(nticks, clock % WORD), clock, clock + nticks + 1)
  {
    Epoch(clock, nticks + 1);
  }

  /** One tick: the alarm fires exactly at its deadline, and keeps tracking it, or the next one. */
  lemma TickExact(t: Timer, clock: nat, deadline: nat, next: word)
    requires Tracks(t, clock, deadline)
    ensures var now := (clock + 1) % WORD;
            var u := Unrolled(t, now);
            && (Expired(u, now) <==> deadline == clock + 1)
            && (deadline != clock + 1 ==> Tracks(u, clock + 1, deadline))
            && (deadline == clock + 1 && next > 0 ==> Tracks(Rearmed(u, next, now), clock + 1, deadline + next))
  {
    Epoch(clock, 1);
    Epoch(clock, deadline - clock);
    Epoch(clock + 1, deadline - clock - 1);
    if deadline == clock + 1 {
      Epoch(clock + 1, next);
    }
  }

  // ---------------------------------------------------------------- Alarms that are late

  /**
   The largest interval leaves the present tick as the stored time: such an
   alarm is one tick late, unless the counter is about to wrap.
   */
  predicate Late(t: Timer, clock: nat, deadline: nat) {
    deadline == clock && clock % WORD != WORD - 1 && t == Timer(clock % WORD, false)
  }

  predicate AtWrap(t: Timer, clock: nat, deadline: nat) {
    deadline == clock + WORD && clock % WORD == WORD - 1 && t == Timer(WORD - 1, false)
  }

  /** What every listed alarm keeps. */
  predicate Keeps(t: Timer, clock: nat, deadline: nat) {
    Tracks(t, clock, deadline) || Late(t, clock, deadline) || AtWrap(t, clock, deadline)
  }

  /** The tick at which an alarm that is to be due at `deadline` fires, seen from tick `clock`. */
  function FireTime(deadline: nat, clock: nat): nat {
    if deadline <= clock then clock + 1 else deadline
  }

  /** A deadline at the present tick is a whole epoch away when the counter is about to wrap. */
  function Due(deadline: nat, clock: nat): nat {
    if deadline == clock && clock % WORD == WORD - 1 then deadline + WORD else deadline
  }

  /** The deadline of an alarm started at tick `clock`. */
  function StartDeadline(nticks: word, clock: nat): nat {
    if nticks < WORD - 1 then clock + nticks + 1 else Due(clock, clock)
  }

  lemma StartKeeps(nticks: word, clock: nat)
    ensures Keeps(Started(nticks, clock % WORD), clock, StartDeadline(nticks, clock))
  {
    if nticks < WORD - 1 {
      StartTracks(nticks, clock);
    } else {
      assert (WORD - 1 + clock % WORD + 1) % WORD == clock % WORD;
    }
  }

  /** One tick: the alarm fires exactly when it is its time, and keeps its deadline, or the next one. */
  lemma TickKeeps(t: Timer, clock: nat, deadline: nat, next: word)
    requires Keeps(t, clock, deadline)
    ensures var now := (clock + 1) % WORD;
            var u := Unrolled(t, now);
            var f := FireTime(deadline, clock);
            && (Expired(u, now) <==> f == clock + 1)
            && (f != clock + 1 ==> Keeps(u, clock + 1, deadline))
            && (f == clock + 1 && next > 0 ==> Keeps(Rearmed(u, next, now), clock + 1, Due(deadline + next, clock + 1)))
  {
    if Tracks(t, clock, deadline) {
      TickExact(t, clock, deadline, next);
    } else {
      Epoch(clock, 1);
      if Late(t, clock, deadline) && next > 0 {
        Epoch(clock, next);
        Epoch(clock + 1, next - 1);
      }
    }
  }

  // ---------------------------------------------------------------- First firing

  /** The alarm after `k` ticks in which it did not fire. */
  function QuietAfter(t: Timer, clock: nat, k: nat): Timer {
    if k == 0 then t else Unrolled(QuietAfter(t, clock, k - 1), (clock + k) % WORD)
  }

  ghost predicate FiresAt(t: Timer, clock: nat, k: nat) {
    Expired(QuietAfter(t, clock, k), (clock + k) % WORD)
  }

  ghost predicate FirstFiresAt(t: Timer, clock: nat, k: nat) {
    k >= 1 && FiresAt(t, clock, k) && forall j: nat :: 1 <= j < k ==> !FiresAt(t, clock, j)
  }

  lemma {:induction false} QuietUntilDeadline(t: Timer, clock: nat, deadline: nat, k: nat)
    requires Tracks(t, clock, deadline) && clock + k <= deadline
    ensures k >= 1 ==> (FiresAt(t, clock, k) <==> clock + k == deadline)
    ensures clock + k < deadline ==> Tracks(QuietAfter(t, clock, k), clock + k, deadline)
  {
    if k > 0 {
      QuietUntilDeadline(t, clock, deadline, k - 1);
      TickExact(QuietAfter(t, clock, k - 1), clock + k - 1, deadline, 0);
    }
  }

  /** With the largest interval the stored time is the present tick and the flag is clear. */
  lemma {:induction false} LargestInterval(clock: nat, k: nat)
    requires 1 <= k <= WORD
    ensures QuietAfter(Started(WORD - 1, clock % WORD), clock, k) == Timer(clock % WORD, false)
    ensures FiresAt(Started(WORD - 1, clock % WORD), clock, k) <==> clock % WORD <= (clock + k) % WORD
  {
    assert (WORD - 1 + clock % WORD + 1) % WORD == clock % WORD;
    if k > 1 {
      LargestInterval(clock, k - 1);
    }
  }

  /**
   An alarm first fires exactly nticks + 1 ticks after it was started, however
   often the counter wraps in between, unless nticks is the largest word: then
   it fires on the next tick, or exactly when the counter is about to wrap.
   */
  lemma StartFiresExactlyIff(nticks: word, clock: nat)
    ensures FirstFiresAt(Started(nticks, clock % WORD), clock, nticks + 1)
            <==> nticks < WORD - 1 || clock % WORD == WORD - 1
  {
    var t := Started(nticks, clock % WORD);
    if nticks < WORD - 1 {
      StartTracks(nticks, clock);
      forall k: nat | 1 <= k <= nticks + 1
        ensures FiresAt(t, clock, k) <==> k == nticks + 1
      {
        QuietUntilDeadline(t, clock, clock + nticks + 1, k);
      }
    } else {
      LargestInterval(clock, 1);
      Epoch(clock, 1);
      if clock % WORD == WORD - 1 {
        forall k: nat | 1 <= k <= WORD
          ensures FiresAt(t, clock, k) <==> k == WORD
        {
          LargestInterval(clock, k);
          if k < WORD {
            Epoch(clock, k);
          }
        }
      }
    }
  }

  // ---------------------------------------------------------------- Every firing

  /** A callback's results in order; once they run out it returns zero. */
  function Result(plan: seq<word>): word {
    if plan == [] then 0 else plan[0]
  }

  function Rest(plan: seq<word>): seq<word> {
    if plan == [] then [] else plan[1..]
  }

  /** The ticks, on the unbounded clock, at which the 32-bit alarm fires within `ticks` ticks. */
  function Firings(t: Timer, clock: nat, plan: seq<word>, ticks: nat): seq<nat>
    decreases ticks
  {
    if ticks == 0 then []
    else
      var now := (clock + 1) % WORD;
      var u := Unrolled(t, now);
      if !Expired(u, now) then Firings(u, clock + 1, plan, ticks - 1)
      else if Result(plan) == 0 then [clock + 1]
      else [clock + 1] + Firings(Rearmed(u, Result(plan), now), clock + 1, Rest(plan), ticks - 1)
  }

  /** The ticks, from tick `clock` on, at which it should. */
  function Schedule(deadline: nat, clock: nat, plan: seq<word>, until: nat): seq<nat>
    decreases |plan|
  {
    var f := FireTime(deadline, clock);
    if f > until then []
    else if Result(plan) == 0 then [f]
    else [f] + Schedule(Due(deadline + Result(plan), f), f, Rest(plan), until)
  }

  /** The plain schedule: the deadline, then each callback's interval after the last firing. */
  function PlainSchedule(deadline: nat, plan: seq<word>, until: nat): seq<nat>
    decreases |plan|
  {
    if deadline > until then []
    else if Result(plan) == 0 then [deadline]
    else [deadline] + PlainSchedule(deadline + Result(plan), Rest(plan), until)
  }

  /** An alarm whose deadline lies ahead is never late again. */
  lemma {:induction false} ScheduleIsPlain(deadline: nat, clock: nat, plan: seq<word>, until: nat)
    requires clock < deadline
    ensures Schedule(deadline, clock, plan, until) == PlainSchedule(deadline, plan, until)
    decreases |plan|
  {
    if deadline <= until && Result(plan) != 0 {
      ScheduleIsPlain(deadline + Result(plan), deadline, Rest(plan), until);
    }
  }

  /** So only an alarm started with the largest interval can miss the plain schedule. */
  lemma StartedIsPlain(nticks: word, clock: nat, plan: seq<word>, until: nat)
    requires nticks < WORD - 1 || clock % WORD == WORD - 1
    ensures Schedule(StartDeadline(nticks, clock), clock, plan, until) == PlainSchedule(clock + nticks + 1, plan, until)
  {
    ScheduleIsPlain(clock + nticks + 1, clock, plan, until);
  }

  /** The 32-bit alarm keeps the unbounded schedule over any number of wraps. */
  lemma {:induction false} FiringsFollowSchedule(
    t: Timer, clock: nat, deadline: nat, plan: seq<word>, ticks: nat)
    requires Keeps(t, clock, deadline)
    ensures Firings(t, clock, plan, ticks) == Schedule(deadline, clock, plan, clock + ticks)
    decreases ticks
  {
    hide Keeps, Due, Rearmed;
    if ticks > 0 {
      var now := (clock + 1) % WORD;
      var u := Unrolled(t, now);
      TickKeeps(t, clock, deadline, Result(plan));
      if !Expired(u, now) {
        FiringsFollowSchedule(u, clock + 1, deadline, plan, ticks - 1);
      } else if Result(plan) != 0 {
        var next := Due(deadline + Result(plan), clock + 1);
        FiringsFollowSchedule(Rearmed(u, Result(plan), now), clock + 1, next, Rest(plan), ticks - 1);
      }
    }
  }

  // ---------------------------------------------------------------- What one tick does to one alarm

  /** An alarm with its callback's results to come, and its history. */
  datatype Alarm = Alarm(timer: Timer, plan: seq<word>, deadline: nat, fired: seq<nat>)

  predicate FiresNow(a: Alarm, now: word) {
    Expired(Unrolled(a.timer, now), now)
  }

  /** It fires and its callback returns zero. */
  predicate Expires(a: Alarm, now: word) {
    FiresNow(a, now) && Result(a.plan) == 0
  }

  /** The visit at tick `clock`; an alarm that expires is not armed again. */
  function Visited(a: Alarm, clock: nat): Alarm {
    var now := clock % WORD;
    var u := Unrolled(a.timer, now);
    if !FiresNow(a, now) then a.(timer := u)
    else
      var called := a.(plan := Rest(a.plan), fired := a.fired + [clock]);
      if Result(a.plan) == 0 then called.(timer := u)
      else called.(timer := Rearmed(u, Result(a.plan), now), deadline := Due(a.deadline + Result(a.plan), clock))
  }

  predicate Exact(a: Alarm, clock: nat) {
    Keeps(a.timer, clock, a.deadline)
  }

  /** A listed alarm fires when it is its time and at no other tick, and keeps its deadline on. */
  lemma VisitExact(a: Alarm, clock: nat)
    requires Exact(a, clock)
    ensures FiresNow(a, (clock + 1) % WORD) <==> FireTime(a.deadline, clock) == clock + 1
    ensures !Expires(a, (clock + 1) % WORD) ==> Exact(Visited(a, clock + 1), clock + 1)
  {
    TickKeeps(a.timer, clock, a.deadline, Result(a.plan));
  }

  /** The firings an alarm has had and, if it is still listed at tick `clock`, those due up to `end`. */
  function Fate(a: Alarm, listed: bool, clock: nat, end: nat): seq<nat> {
    if listed then a.fired + Schedule(a.deadline, clock, a.plan, end) else a.fired
  }

  /** A visit does not change the fate of an alarm, whether it stays listed or expires. */
  lemma VisitKeepsFate(a: Alarm, clock: nat, end: nat)
    requires Exact(a, clock) && clock < end
    ensures Fate(Visited(a, clock + 1), !Expires(a, (clock + 1) % WORD), clock + 1, end) == Fate(a, true, clock, end)
  {
    hide Keeps, Unrolled, Rearmed, FiresNow, Due;
    VisitExact(a, clock);
    if FireTime(a.deadline, clock) == clock + 1 && Result(a.plan) != 0 {
      var rest := Schedule(Due(a.deadline + Result(a.plan), clock + 1), clock + 1, Rest(a.plan), end);
      assert a.fired + [clock + 1] + rest == a.fired + ([clock + 1] + rest);
    }
  }

  // ---------------------------------------------------------------- The list

  /** A list element with its alarm; the list's head uses only the links. */
  class Link {
    var next: Link
    var previous: Link
    var time: word
    var rollover: bool
    /** The results the callback will return. */
    var plan: seq<word>

    // The deadline on the unbounded clock, and the ticks fired at so far.
    ghost var deadline: nat
    ghost var fired: seq<nat>

    constructor ()
      ensures next == this && previous == this
    {
      next, previous := this, this;
      time, rollover, plan := 0, false, [];
      deadline, fired := 0, [];
    }

    ghost function State(): Alarm
      reads this`time, this`rollover, this`plan, this`deadline, this`fired
    {
      Alarm(Timer(time, rollover), plan, deadline, fired)
    }

    method Callback() returns (result: word)
      modifies this`plan
      ensures result == Result(old(plan)) && plan == Rest(old(plan))
    {
      result := Result(plan);
      plan := Rest(plan);
    }
  }

  ghost predicate Distinct(s: seq<Link>) {
    forall i, j :: 0 <= i < j < |s| ==> s[i] != s[j]
  }

  /** As `Distinct`, but the first and the last element may be the same. */
  ghost predicate Circular(s: seq<Link>) {
    forall i, j :: 0 <= i < j < |s| && (i > 0 || j < |s| - 1) ==> s[i] != s[j]
  }

  /** Without its element `k`, or all of it for k == 0. */
  function Cut(s: seq<Link>, k: nat): (r: seq<Link>)
    requires k < |s|
    ensures |r| == if k == 0 then |s| else |s| - 1
    ensures forall i :: 0 <= i < |r| ==> r[i] == s[if i < k || k == 0 then i else i + 1]
  {
    if k == 0 then s else s[..k] + s[k + 1..]
  }

  lemma CutRing(h: Link, inner: seq<Link>, j: nat)
    requires j < |inner|
    ensures [h] + (inner[..j] + inner[j + 1..]) + [h] == Cut([h] + inner + [h], j + 1)
  {
    var s := [h] + inner + [h];
    assert s[..j + 1] == [h] + inner[..j];
    assert s[j + 2..] == inner[j + 1..] + [h];
  }

  lemma CutNothing(s: seq<Link>)
    requires s != []
    ensures Cut(s, 0) == s
  {
  }

  lemma RingIsCircular(h: Link, inner: seq<Link>)
    requires h !in inner && Distinct(inner)
    ensures Circular([h] + inner + [h])
  {
    var full := [h] + inner + [h];
    assert forall i :: 1 <= i < |full| - 1 ==> full[i] == inner[i - 1];
  }

  /** Each element and its successor point at each other. */
  ghost predicate Linked(s: seq<Link>)
    reads s`next, s`previous
  {
    && (forall i {:trigger s[i].next} :: 0 <= i < |s| - 1 ==> s[i].next == s[i + 1])
    && (forall i {:trigger s[i].previous} :: 1 <= i < |s| ==> s[i].previous == s[i - 1])
  }

  /** The sequence without the first occurrence of an element. */
  function Without(s: seq<Link>, x: Link): seq<Link> {
    if s == [] then [] else if s[0] == x then s[1..] else [s[0]] + Without(s[1..], x)
  }

  lemma {:induction false} WithoutAt(s: seq<Link>, k: nat)
    requires k < |s| && Distinct(s)
    ensures Without(s, s[k]) == s[..k] + s[k + 1..]
  {
    if k > 0 {
      assert s[0] != s[k];
      WithoutAt(s[1..], k - 1);
      assert s[1..][..k - 1] == s[1..k];
      assert s[1..][k..] == s[k + 1..];
    }
  }

  lemma {:induction false} WithoutAbsent(s: seq<Link>, x: Link)
    requires x !in s
    ensures Without(s, x) == s
  {
    if s != [] {
      WithoutAbsent(s[1..], x);
    }
  }

  lemma {:induction false} WithoutKeeps(s: seq<Link>, x: Link)
    requires Distinct(s)
    ensures Distinct(Without(s, x)) && x !in Without(s, x)
    ensures forall y :: y in Without(s, x) <==> y in s && y != x
  {
    if s != [] {
      WithoutKeeps(s[1..], x);
      assert forall y :: y in s <==> y == s[0] || y in s[1..];
      assert s[0] !in s[1..];
    }
  }

  lemma {:induction false} WithoutMiddle(a: seq<Link>, x: Link, b: seq<Link>)
    requires x !in a
    ensures Without(a + [x] + b, x) == a + b
  {
    if a == [] {
      assert a + [x] + b == [x] + b;
    } else {
      assert (a + [x] + b)[1..] == a[1..] + [x] + b;
      WithoutMiddle(a[1..], x, b);
    }
  }

  /** Of the first `i` alarms, as they were before the tick, those that do not expire at it. */
  function Survivors(alarms: seq<Link>, before: seq<Alarm>, now: word, i: nat): (r: seq<Link>)
    requires i <= |alarms| == |before|
    ensures forall k :: 0 <= k < |r| ==> r[k] in alarms
  {
    if i == 0 then []
    else Survivors(alarms, before, now, i - 1) + if Expires(before[i - 1], now) then [] else [alarms[i - 1]]
  }

  lemma {:induction false} SurvivorFrom(alarms: seq<Link>, before: seq<Alarm>, now: word, i: nat, x: Link)
    returns (j: nat)
    requires i <= |alarms| == |before| && x in Survivors(alarms, before, now, i)
    ensures j < i && alarms[j] == x && !Expires(before[j], now)
  {
    if x in Survivors(alarms, before, now, i - 1) {
      j := SurvivorFrom(alarms, before, now, i - 1, x);
    } else {
      j := i - 1;
    }
  }

  lemma {:induction false} SurvivorStays(alarms: seq<Link>, before: seq<Alarm>, now: word, i: nat, j: nat)
    requires j < i <= |alarms| == |before| && !Expires(before[j], now)
    ensures alarms[j] in Survivors(alarms, before, now, i)
  {
    if j < i - 1 {
      SurvivorStays(alarms, before, now, i - 1, j);
    }
  }

  /** The ring after one more visit: the alarm stays in its place, or is taken out. */
  lemma SurvivorsStep(alarms: seq<Link>, before: seq<Alarm>, now: word, i: nat)
    requires i < |alarms| == |before| && Distinct(alarms)
    ensures var ring := Survivors(alarms, before, now, i) + alarms[i..];
            (if Expires(before[i], now) then Without(ring, alarms[i]) else ring)
            == Survivors(alarms, before, now, i + 1) + alarms[i + 1..]
  {
    var kept := Survivors(alarms, before, now, i);
    assert alarms[i..] == [alarms[i]] + alarms[i + 1..];
    assert kept + alarms[i..] == kept + [alarms[i]] + alarms[i + 1..];
    if alarms[i] in kept {
      var j := SurvivorFrom(alarms, before, now, i, alarms[i]);
    }
    WithoutMiddle(kept, alarms[i], alarms[i + 1..]);
  }

  ghost function Snapshot(alarms: seq<Link>): (r: seq<Alarm>)
    reads alarms
    ensures |r| == |alarms| && forall i :: 0 <= i < |r| ==> r[i] == alarms[i].State()
  {
    seq(|alarms|, i requires 0 <= i < |alarms| reads alarms => alarms[i].State())
  }

  class AlarmList {
    const head: Link
    ghost var ring: seq<Link>
    var nticks: word
    ghost var clock: nat
    var tickRate: word

    /** The circular doubly linked list through the head holds `ring`, in order. */
    ghost predicate Shape()
      reads this, head`next, head`previous, ring`next, ring`previous
    {
      && head !in ring && Distinct(ring)
      && Linked([head] + ring + [head])
      && nticks == clock % WORD
    }

    ghost predicate Valid()
      reads this, head, ring
    {
      && Shape()
      && forall a :: a in ring ==> Exact(a.State(), clock)
    }

    ghost function Nodes(): set<Link>
      reads this
    {
      {head} + set a | a in ring
    }

    constructor (tickRate: word)
      ensures Valid() && ring == [] && clock == 0 && fresh(head) && this.tickRate == tickRate
    {
      head := new Link();
      ring := [];
      nticks, clock := 0, 0;
      this.tickRate := tickRate;
    }

    /** `alt_llist_insert`: the new entry becomes the first. */
    method Insert(entry: Link)
      requires Shape() && entry !in Nodes()
      modifies this`ring, head`next, head`previous, ring`next, ring`previous, entry`next, entry`previous
      ensures Shape() && ring == [entry] + old(ring)
    {
      ghost var was := [head] + ring + [head];
      assert was[0] == head && was[1] == head.next;
      entry.previous := head;
      entry.next := head.next;
      head.next.previous := entry;
      head.next := entry;
      ring := [entry] + ring;
      ghost var now := [head] + ring + [head];
      assert forall i :: 2 <= i < |now| ==> now[i] == was[i - 1];
    }

    /** `alt_llist_remove`: an entry not in the list points at itself and stays as it is. */
    method Remove(entry: Link)
      requires Shape() && entry != head
      requires entry in ring || (entry.next == entry && entry.previous == entry)
      modifies this`ring, head`next, head`previous, ring`next, ring`previous, entry`next, entry`previous
      ensures Shape() && ring == Without(old(ring), entry)
      ensures entry.next == entry && entry.previous == entry
    {
      hide Linked, Without;
      ghost var was := [head] + ring + [head];
      ghost var rest := Without(ring, entry);
      ghost var k := Position(entry);
      WithoutKeeps(ring, entry);
      Unlink(entry, was, k);
      ring := rest;
    }

    /** Where an entry stands in the ring with its head at both ends; 0 if it is not listed. */
    lemma Position(entry: Link) returns (k: nat)
      requires Shape() && entry != head
      ensures var full := [head] + ring + [head];
              && k < |full| - 1 && Circular(full)
              && (if k == 0 then entry !in full else full[k] == entry)
              && [head] + Without(ring, entry) + [head] == Cut(full, k)
    {
      hide Linked, Circular, Cut, Without;
      RingIsCircular(head, ring);
      if entry in ring {
        var j :| 0 <= j < |ring| && ring[j] == entry;
        WithoutAt(ring, j);
        CutRing(head, ring, j);
        k := j + 1;
      } else {
        WithoutAbsent(ring, entry);
        CutNothing([head] + ring + [head]);
        k := 0;
      }
    }

    /** The four assignments take element `k` out of the circle, or do nothing for k == 0. */
    method Unlink(entry: Link, ghost full: seq<Link>, ghost k: nat)
      requires Linked(full) && Circular(full) && k < |full| - 1
      requires if k == 0 then entry !in full && entry.next == entry && entry.previous == entry else full[k] == entry
      modifies full`next, full`previous, entry`next, entry`previous
      ensures entry.next == entry && entry.previous == entry
      ensures Linked(Cut(full, k))
    {
      hide Cut;
      ghost var rest := Cut(full, k);
      assert k > 0 ==> full[k - 1].next == entry && entry.next == full[k + 1] && entry.previous == full[k - 1];
      entry.next.previous := entry.previous;
      entry.previous.next := entry.next;
      entry.previous := entry;
      entry.next := entry;
      forall i | 0 <= i < |rest| - 1
        ensures rest[i].next == rest[i + 1]
      {
        var m := if i < k || k == 0 then i else i + 1;
        assert rest[i] == full[m] && full[m] != entry;
        assert k > 0 && m != k - 1 ==> full[m] != full[k - 1];
      }
      forall i | 1 <= i < |rest|
        ensures rest[i].previous == rest[i - 1]
      {
        var m := if i < k || k == 0 then i else i + 1;
        assert rest[i] == full[m] && full[m] != entry;
        assert k > 0 && m != k + 1 ==> full[m] != full[k + 1];
      }
    }

    /** `alt_alarm_stop`, harmless on an alarm that is not listed. */
    method Stop(alarm: Link)
      requires Valid() && alarm != head
      requires alarm in ring || (alarm.next == alarm && alarm.previous == alarm)
      modifies this`ring, head`next, head`previous, ring`next, ring`previous, alarm`next, alarm`previous
      ensures Valid() && ring == Without(old(ring), alarm)
      ensures alarm.next == alarm && alarm.previous == alarm
    {
      hide Linked;
      ghost var was := ring;
      Remove(alarm);
      WithoutKeeps(was, alarm);
    }

    /** `alt_alarm_start`; an alarm already listed must not be started again. */
    method Start(alarm: Link?, interval: word, plan: seq<word>) returns (rc: int)
      requires Valid()
      requires alarm != null ==> alarm !in Nodes()
      modifies this`ring, head`next, head`previous, ring`next, ring`previous
      modifies if alarm == null then {} else {alarm}
      ensures Valid()
      ensures rc == if tickRate == 0 then -ENOTSUP else if alarm == null then -EINVAL else 0
      ensures rc != 0 ==> ring == old(ring)
      ensures rc == 0 ==>
              && ring == [alarm] + old(ring)
              && alarm.State() == Alarm(Started(interval, nticks), plan, StartDeadline(interval, clock), [])
    {
      hide Linked, Shape, Keeps, StartDeadline;
      if tickRate != 0 {
        if alarm != null {
          alarm.plan := plan;
          var current := nticks;
          alarm.time := (interval + current + 1) % WORD;
          if alarm.time < current {
            alarm.rollover := true;
          } else {
            alarm.rollover := false;
          }
          alarm.deadline, alarm.fired := StartDeadline(interval, clock), [];
          StartKeeps(interval, clock);
          Insert(alarm);
          return 0;
        } else {
          return -EINVAL;
        }
      } else {
        return -ENOTSUP;
      }
    }

    /** The body of the tick's loop for one alarm. */
    method Visit(alarm: Link, ghost alarms: seq<Link>)
      requires Shape() && alarm in ring && forall k :: 0 <= k < |ring| ==> ring[k] in alarms
      modifies this`ring, head`next, head`previous, alarms`next, alarms`previous
      modifies alarm`time, alarm`rollover, alarm`plan, alarm`deadline, alarm`fired
      ensures Shape()
      ensures alarm.State() == Visited(old(alarm.State()), clock)
      ensures ring == if Expires(old(alarm.State()), nticks) then Without(old(ring), alarm) else old(ring)
    {
      assert nticks == clock % WORD;
      hide Linked, Shape, Without;
      if alarm.rollover && nticks == 0 {
        alarm.rollover := false;
      }
      if alarm.time <= nticks && !alarm.rollover {
        Fire(alarm, alarms);
      }
    }

    /** The callback, and what its result asks for. */
    method Fire(alarm: Link, ghost alarms: seq<Link>)
      requires Shape() && alarm in ring && forall k :: 0 <= k < |ring| ==> ring[k] in alarms
      modifies this`ring, head`next, head`previous, alarms`next, alarms`previous
      modifies alarm`time, alarm`rollover, alarm`plan, alarm`deadline, alarm`fired
      ensures Shape()
      ensures var a := old(alarm.State());
              && ring == (if Result(a.plan) == 0 then Without(old(ring), alarm) else old(ring))
              && alarm.State() ==
                 var called := a.(plan := Rest(a.plan), fired := a.fired + [clock]);
                 if Result(a.plan) == 0 then called
                 else called.(timer := Rearmed(a.timer, Result(a.plan), nticks),
                              deadline := Due(a.deadline + Result(a.plan), clock))
    {
      assert alarm != head;
      hide Linked, Shape, Without;
      alarm.fired := alarm.fired + [clock];
      var nextCallback := alarm.Callback();
      if nextCallback == 0 {
        Remove(alarm);
      } else {
        alarm.time := (alarm.time + nextCallback) % WORD;
        if alarm.time < nticks {
          alarm.rollover := true;
        }
        alarm.deadline := Due(alarm.deadline + nextCallback, clock);
      }
    }

    /** Element `i` of the walk, which ends at the head. */
    ghost function Walk(alarms: seq<Link>, i: nat): Link {
      if i < |alarms| then alarms[i] else head
    }

    lemma NextInRing(kept: seq<Link>, alarms: seq<Link>, i: nat)
      requires Shape() && i <= |alarms| && ring == kept + alarms[i..]
      ensures kept == [] ==> head.next == Walk(alarms, i)
      ensures i < |alarms| ==> alarms[i].next == Walk(alarms, i + 1)
    {
      var full := [head] + ring + [head];
      assert full[|kept| + 1] == Walk(alarms, i);
      assert full[|kept|].next == full[|kept| + 1];
      if i < |alarms| {
        assert full[|kept| + 2] == Walk(alarms, i + 1);
        assert full[|kept| + 1].next == full[|kept| + 2];
      }
    }

    /** In the middle of a tick the first `i` alarms have been visited, and those that expired are gone. */
    ghost predicate Midway(alarms: seq<Link>, before: seq<Alarm>, i: nat)
      reads this, head`next, head`previous, ring`next, ring`previous, alarms
    {
      && Shape() && Distinct(alarms) && i <= |alarms| == |before|
      && ring == Survivors(alarms, before, nticks, i) + alarms[i..]
      && forall j :: 0 <= j < |alarms| ==>
           alarms[j].State() == if j < i then Visited(before[j], clock) else before[j]
    }

    lemma RingWithin(alarms: seq<Link>, before: seq<Alarm>, i: nat)
      requires Midway(alarms, before, i)
      ensures forall k :: 0 <= k < |ring| ==> ring[k] in alarms
    {
    }

    /** One turn of the tick's loop: the successor is read before the callback can unlink the alarm. */
    method VisitNth(alarm: Link, ghost alarms: seq<Link>, ghost before: seq<Alarm>, ghost i: nat) returns (next: Link)
      requires Midway(alarms, before, i) && i < |alarms| && alarm == alarms[i]
      modifies this`ring, head`next, head`previous, alarms
      ensures Midway(alarms, before, i + 1) && next == Walk(alarms, i + 1)
    {
      hide Linked, Shape, Without, Survivors, Visited, Expires;
      NextInRing(Survivors(alarms, before, nticks, i), alarms, i);
      SurvivorsStep(alarms, before, nticks, i);
      RingWithin(alarms, before, i);
      next := alarm.next;
      Visit(alarm, alarms);
      forall j | 0 <= j < |alarms|
        ensures alarms[j].State() == if j < i + 1 then Visited(before[j], clock) else before[j]
      {
        assert j == i || alarms[j] != alarm;
      }
    }

    /** The tick's loop: from the first element until it is back at the head. */
    method VisitAll(first: Link, ghost alarms: seq<Link>, ghost before: seq<Alarm>)
      requires Midway(alarms, before, 0) && first == Walk(alarms, 0)
      modifies this`ring, head`next, head`previous, alarms
      ensures Midway(alarms, before, |alarms|)
    {
      hide Midway;
      var alarm := first;
      ghost var i := 0;
      while alarm != head
        invariant 0 <= i <= |alarms| && alarm == Walk(alarms, i)
        invariant Midway(alarms, before, i)
        decreases |alarms| - i
      {
        alarm := VisitNth(alarm, alarms, before, i);
        i := i + 1;
      }
      StillListed(alarms, before, i);
    }

    /** The alarms still to be visited are in the ring, so the walk reaches the head only at its end. */
    lemma StillListed(alarms: seq<Link>, before: seq<Alarm>, i: nat)
      requires Midway(alarms, before, i)
      ensures i < |alarms| ==> alarms[i] in ring && alarms[i] != head
    {
      if i < |alarms| {
        assert ring[|Survivors(alarms, before, nticks, i)|] == alarms[i];
      }
    }

    /** `alt_tick`: every listed alarm is visited once, in order; those that expire leave the list. */
    method Tick() returns (ghost before: seq<Alarm>)
      requires Valid()
      modifies this`nticks, this`clock, this`ring, head`next, head`previous, ring
      ensures Valid() && clock == old(clock) + 1
      ensures before == old(Snapshot(ring))
      ensures forall i :: 0 <= i < |before| ==> old(ring)[i].State() == Visited(before[i], clock)
      ensures forall i :: 0 <= i < |before| ==>
                (FiresNow(before[i], nticks) <==> FireTime(before[i].deadline, clock - 1) == clock)
      ensures ring == Survivors(old(ring), before, nticks, |before|)
    {
      hide Linked, Midway, Visited, Expires, FiresNow, Survivors, Exact, FireTime, Valid, Shape;
      ghost var alarms := ring;
      before := Snapshot(ring);
      AllExact(before);
      var alarm := head.next;
      CountTick();
      StartOfWalk(before);
      VisitAll(alarm, alarms, before);
      EndOfWalk(alarms, before);
    }

    lemma AllExact(before: seq<Alarm>)
      requires Valid() && before == Snapshot(ring)
      ensures Shape() && forall i :: 0 <= i < |before| ==> Exact(before[i], clock)
    {
    }

    method CountTick()
      requires Shape()
      modifies this`nticks, this`clock
      ensures Shape() && clock == old(clock) + 1
    {
      hide Linked;
      nticks := (nticks + 1) % WORD;
      clock := clock + 1;
    }

    lemma StartOfWalk(before: seq<Alarm>)
      requires Shape() && before == Snapshot(ring)
      ensures Midway(ring, before, 0) && head.next == Walk(ring, 0)
    {
      assert ring[0..] == ring;
      NextInRing([], ring, 0);
    }

    lemma EndOfWalk(alarms: seq<Link>, before: seq<Alarm>)
      requires Midway(alarms, before, |alarms|) && clock > 0
      requires forall i :: 0 <= i < |before| ==> Exact(before[i], clock - 1)
      ensures Valid() && ring == Survivors(alarms, before, nticks, |alarms|)
      ensures |alarms| == |before| && forall i :: 0 <= i < |before| ==> alarms[i].State() == Visited(before[i], clock)
      ensures forall i :: 0 <= i < |before| ==>
                (FiresNow(before[i], nticks) <==> FireTime(before[i].deadline, clock - 1) == clock)
    {
      hide Keeps, FiresNow, Visited;
      assert alarms[|alarms|..] == [];
      SurvivorsExact(alarms, before);
    }

    lemma SurvivorsExact(alarms: seq<Link>, before: seq<Alarm>)
      requires |before| == |alarms| && clock > 0 && nticks == clock % WORD
      requires forall i :: 0 <= i < |before| ==> Exact(before[i], clock - 1)
      requires forall i :: 0 <= i < |before| ==> alarms[i].State() == Visited(before[i], clock)
      ensures forall a :: a in Survivors(alarms, before, nticks, |alarms|) ==> Exact(a.State(), clock)
      ensures forall i :: 0 <= i < |before| ==>
                (FiresNow(before[i], nticks) <==> FireTime(before[i].deadline, clock - 1) == clock)
    {
      hide Keeps, FiresNow, Expires, Survivors, Visited, FireTime;
      forall i | 0 <= i < |before|
        ensures FiresNow(before[i], nticks) <==> FireTime(before[i].deadline, clock - 1) == clock
        ensures !Expires(before[i], nticks) ==> Exact(alarms[i].State(), clock)
      {
        VisitExact(before[i], clock - 1);
      }
      forall a | a in Survivors(alarms, before, nticks, |alarms|)
        ensures Exact(a.State(), clock)
      {
        var j := SurvivorFrom(alarms, before, nticks, |alarms|, a);
      }
    }

    /** Every alarm will have fired as scheduled from tick `since` on by `end`. */
    ghost predicate OnSchedule(alarms: seq<Link>, start: seq<Alarm>, since: nat, end: nat)
      reads this, alarms
    {
      && |alarms| == |start|
      && (forall k :: 0 <= k < |ring| ==> ring[k] in alarms)
      && forall i :: 0 <= i < |alarms| ==>
           Fate(alarms[i].State(), alarms[i] in ring, clock, end) == Fate(start[i], true, since, end)
    }

    method TickOnSchedule(ghost alarms: seq<Link>, ghost start: seq<Alarm>, ghost since: nat, ghost end: nat)
      requires Valid() && head !in alarms && OnSchedule(alarms, start, since, end) && clock < end
      modifies this`nticks, this`clock, this`ring, head`next, head`previous, alarms
      ensures Valid() && OnSchedule(alarms, start, since, end) && clock == old(clock) + 1
    {
      hide Linked, Fate, Visited, Expires, FiresNow, Survivors, Exact;
      ghost var was := ring;
      ghost var before := Tick();
      forall i | 0 <= i < |alarms|
        ensures Fate(alarms[i].State(), alarms[i] in ring, clock, end) == Fate(start[i], true, since, end)
      {
        if alarms[i] in was {
          var j :| 0 <= j < |was| && was[j] == alarms[i];
          StaysIff(was, before, j);
          VisitKeepsFate(before[j], clock - 1, end);
        } else {
          GoneForGood(alarms[i].State(), clock - 1, clock, end);
        }
      }
    }

    lemma GoneForGood(a: Alarm, clock: nat, clock': nat, end: nat)
      ensures Fate(a, false, clock, end) == Fate(a, false, clock', end)
    {
    }

    lemma StaysIff(was: seq<Link>, before: seq<Alarm>, j: nat)
      requires |was| == |before| && Distinct(was) && j < |was|
      ensures was[j] in Survivors(was, before, nticks, |was|) <==> !Expires(before[j], nticks)
    {
      if !Expires(before[j], nticks) {
        SurvivorStays(was, before, nticks, |was|, j);
      } else if was[j] in Survivors(was, before, nticks, |was|) {
        var k := SurvivorFrom(was, before, nticks, |was|, was[j]);
      }
    }

    /**
     Any number of ticks, over any number of wraps of the counter: each listed
     alarm has fired exactly at its deadline and then at each interval its
     callback asked for; one started with the largest interval as its schedule
     says.
     */
    method Run(ticks: nat)
      requires Valid()
      modifies this`nticks, this`clock, this`ring, head`next, head`previous, ring
      ensures Valid() && clock == old(clock) + ticks
      ensures forall i :: 0 <= i < |old(ring)| ==>
                old(ring)[i].fired ==
                old(ring[i].fired) + Schedule(old(ring[i].deadline), old(clock), old(ring[i].plan), clock)
    {
      hide Linked, Fate;
      ghost var alarms, start, since, end := ring, Snapshot(ring), clock, clock + ticks;
      for t := 0 to ticks
        invariant Valid() && OnSchedule(alarms, start, since, end) && clock == old(clock) + t
      {
        TickOnSchedule(alarms, start, since, end);
      }
      FateSettled(alarms, start, since);
    }

    lemma FateSettled(alarms: seq<Link>, start: seq<Alarm>, since: nat)
      requires Valid() && OnSchedule(alarms, start, since, clock)
      ensures forall i :: 0 <= i < |alarms| ==>
                alarms[i].fired == start[i].fired + Schedule(start[i].deadline, since, start[i].plan, clock)
    {
      forall i | 0 <= i < |alarms|
        ensures alarms[i].fired == start[i].fired + Schedule(start[i].deadline, since, start[i].plan, clock)
      {
        if alarms[i] in ring {
          assert alarms[i].fired + [] == alarms[i].fired;
        }
      }
    }
  }
}
