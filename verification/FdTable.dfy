/**
 The file-descriptor pool of the HAL: allocation under a high-water mark, and
 exclusive locking of devices through two bits of each descriptor's flags.
 */
module FdTable {

  const EACCES := 13
  const ENODEV := 19
  const EINVAL := 22
  const EMFILE := 24
  const EBADFD := 81

  // ---------------------------------------------------------------- Flag bits

  const FD_EXCL: bv32 := 0x8000_0000
  const FD_DEV: bv32 := 0x4000_0000
  const FD_FLAGS_MASK: bv32 := 0xC000_0000

  /** O_APPEND | O_NONBLOCK, the only bits `fcntl` may change. */
  const FCNTL_FLAGS_MASK: bv32 := 0x4008

  predicate IsExcl(flags: bv32) {
    flags & FD_EXCL != 0
  }

  predicate IsDev(flags: bv32) {
    flags & FD_DEV != 0
  }

  lemma NoFlags()
    ensures !IsExcl(0) && !IsDev(0)
  {
  }

  /** What `open` stores: the caller cannot forge the two bits. */
  function OpenFlags(flags: bv32): (r: bv32)
    ensures !IsExcl(r) && !IsDev(r)
  {
    flags & !FD_FLAGS_MASK
  }

  function MarkDev(flags: bv32): (r: bv32)
    ensures IsDev(r) && (IsExcl(r) <==> IsExcl(flags))
  {
    flags | FD_DEV
  }

  function Lock(flags: bv32): (r: bv32)
    ensures IsExcl(r) && (IsDev(r) <==> IsDev(flags))
  {
    flags | FD_EXCL
  }

  function Unlock(flags: bv32): (r: bv32)
    ensures !IsExcl(r) && (IsDev(r) <==> IsDev(flags))
  {
    flags & !FD_EXCL
  }

  /** What `fcntl(F_SETFL)` stores: the two bits are out of its reach. */
  function SetStatus(flags: bv32, arg: bv32): (r: bv32)
    ensures IsExcl(r) <==> IsExcl(flags)
    ensures IsDev(r) <==> IsDev(flags)
  {
    (flags & !FCNTL_FLAGS_MASK) | (arg & FCNTL_FLAGS_MASK)
  }

  /** The bits apart from `mask` are the same. */
  predicate AgreeOutside(mask: bv32, a: bv32, b: bv32) {
    a & !mask == b & !mask
  }

  /** Each of these changes its own bits only. */
  lemma OpenFlagsOtherBits(flags: bv32)
    ensures AgreeOutside(FD_FLAGS_MASK, OpenFlags(flags), flags)
  {
    hide IsDev, IsExcl;
  }

  lemma MarkDevOtherBits(flags: bv32)
    ensures AgreeOutside(FD_DEV, MarkDev(flags), flags)
  {
    hide IsDev, IsExcl;
  }

  lemma LockOtherBits(flags: bv32)
    ensures AgreeOutside(FD_EXCL, Lock(flags), flags)
  {
    hide IsDev, IsExcl;
  }

  lemma UnlockOtherBits(flags: bv32)
    ensures AgreeOutside(FD_EXCL, Unlock(flags), flags)
  {
    hide IsDev, IsExcl;
  }

  lemma SetStatusOtherBits(flags: bv32, arg: bv32)
    ensures AgreeOutside(FCNTL_FLAGS_MASK, SetStatus(flags, arg), flags)
  {
    hide IsDev, IsExcl;
  }

  /** And `fcntl` takes its bits from the argument. */
  lemma SetStatusOwnBits(flags: bv32, arg: bv32)
    ensures AgreeOutside(!FCNTL_FLAGS_MASK, SetStatus(flags, arg), arg)
  {
    hide IsDev, IsExcl;
  }

  // ---------------------------------------------------------------- The pool as a value

  /** What a name resolves to; devices and file systems are registered in separate lists. */
  datatype Target = Nothing | Device(id: nat) | FileSystem(id: nat)

  datatype Fd = Fd(dev: Target, flags: bv32)

  const FREE := Fd(Nothing, 0)

  /** The descriptors and the high-water mark `alt_max_fd`. */
  datatype Pool = Pool(fds: seq<Fd>, maxFd: int)

  datatype Response = Response(rc: int, errno: int)

  datatype Request = Tiocexcl | Tiocnxcl | OtherRequest

  datatype Command = GetFl | SetFl(arg: bv32) | OtherCommand

  /** System calls; `driver` is the result of the driver's own callback, if the call reaches it. */
  datatype Op =
    | Open(dev: Target, flags: bv32, driver: int)
    | Close(fd: int, driver: int)
    | Ioctl(fd: int, request: Request, driver: int)
    | Fcntl(fd: int, command: Command)
    | Redirect(slot: nat, dev: Target, flags: bv32, driver: int)

  /** At reset the three standard streams refer to the null device and nothing was allocated. */
  function Boot(size: nat): Pool
    requires size >= 3
  {
    Pool(seq(size, i => if 0 <= i < 3 then Fd(Device(0), 0) else FREE), -1)
  }

  // ---------------------------------------------------------------- The operations as functions

  /** The lowest free slot, or the size of the pool. */
  function FirstFree(fds: seq<Fd>): (i: nat)
    ensures i <= |fds|
    ensures i < |fds| ==> fds[i].dev == Nothing
    ensures forall j :: 0 <= j < i ==> fds[j].dev != Nothing
  {
    if fds == [] || fds[0].dev == Nothing then 0
    else
      var i := FirstFree(fds[1..]);
      assert forall j :: 1 <= j < i + 1 ==> fds[j] == fds[1..][j - 1];
      i + 1
  }

  /** `open`'s scan, up to and including the high-water mark. */
  predicate LockedByOther(p: Pool, index: nat)
    requires index < |p.fds|
  {
    exists i :: 0 <= i < |p.fds| && i <= p.maxFd && Conflicts(p, i, index) && IsExcl(p.fds[i].flags)
  }

  /** The lock's scan, which stops short of the high-water mark. */
  predicate SharedBelowMark(p: Pool, index: nat)
    requires index < |p.fds|
  {
    exists i :: 0 <= i < |p.fds| && i < p.maxFd && Conflicts(p, i, index)
  }

  /** Another descriptor on the same device. */
  predicate Conflicts(p: Pool, i: nat, index: nat)
    requires i < |p.fds| && index < |p.fds|
  {
    i != index && p.fds[i].dev == p.fds[index].dev
  }

  function Release(p: Pool, index: nat): Pool
    requires index < |p.fds|
  {
    if index > 2 then p.(fds := p.fds[index := FREE]) else p
  }

  function Allocate(p: Pool, index: nat, fd: Fd): Pool
    requires index < |p.fds|
  {
    Pool(p.fds[index := fd], if index > p.maxFd then index else p.maxFd)
  }

  /** The pool while `open` decides: the slot is claimed and, for a device, marked. */
  function Claimed(p: Pool, dev: Target, flags: bv32): Pool
    requires FirstFree(p.fds) < |p.fds|
  {
    Allocate(p, FirstFree(p.fds), Fd(dev, if dev.Device? then MarkDev(OpenFlags(flags)) else OpenFlags(flags)))
  }

  function OpenStatus(p: Pool, dev: Target, flags: bv32, driver: int): int
    requires FirstFree(p.fds) < |p.fds|
  {
    if dev.Device? && LockedByOther(Claimed(p, dev, flags), FirstFree(p.fds)) then -EACCES else driver
  }

  function OpenStep(p: Pool, dev: Target, flags: bv32, driver: int): (Pool, Response) {
    var index := FirstFree(p.fds);
    if dev == Nothing then (p, Response(-1, ENODEV))
    else if index == |p.fds| then (p, Response(-1, EMFILE))
    else
      var status := OpenStatus(p, dev, flags, driver);
      if status < 0 then (Release(Claimed(p, dev, flags), index), Response(-1, -status))
      else (Claimed(p, dev, flags), Response(index, 0))
  }

  function CloseStep(p: Pool, fd: int, driver: int): (Pool, Response)
    requires fd < |p.fds|
  {
    if fd < 0 then (p, Response(-1, EBADFD))
    else (Release(p, fd), if driver < 0 then Response(-1, -driver) else Response(0, 0))
  }

  function Failed(rc: int): Response {
    Response(rc, if rc < 0 then -rc else 0)
  }

  function IoctlStep(p: Pool, fd: int, request: Request, driver: int): (Pool, Response)
    requires fd < |p.fds|
  {
    if fd < 0 then (p, Failed(-EBADFD))
    else if IsDev(p.fds[fd].flags) && request == Tiocexcl then
      if SharedBelowMark(p, fd) then (p, Failed(-EACCES))
      else (SetFlags(p, fd, Lock(p.fds[fd].flags)), Response(0, 0))
    else if IsDev(p.fds[fd].flags) && request == Tiocnxcl then
      (SetFlags(p, fd, Unlock(p.fds[fd].flags)), Response(0, 0))
    else (p, Failed(driver))
  }

  function SetFlags(p: Pool, fd: nat, flags: bv32): Pool
    requires fd < |p.fds|
  {
    p.(fds := p.fds[fd := p.fds[fd].(flags := flags)])
  }

  function FcntlStep(p: Pool, fd: int, command: Command): (Pool, Response)
    requires fd < |p.fds|
  {
    if fd < 0 then (p, Response(-1, EBADFD))
    else match command
      case GetFl => (p, Response(OpenFlags(p.fds[fd].flags) as int, 0))
      case SetFl(arg) => (SetFlags(p, fd, SetStatus(p.fds[fd].flags, arg)), Response(0, 0))
      case OtherCommand => (p, Response(-1, EINVAL))
  }

  /** Boot redirection: open, copy the descriptor over a standard stream, release the original. */
  function RedirectStep(p: Pool, slot: nat, dev: Target, flags: bv32, driver: int): (Pool, Response)
    requires slot < |p.fds|
  {
    var (after, r) := OpenStep(p, dev, flags, driver);
    if 0 <= r.rc < |after.fds| then
      (Release(after.(fds := after.fds[slot := after.fds[r.rc]]), r.rc), Response(0, 0))
    else (after, r)
  }

  /** What the source needs of its callers: an index inside the array, and an open descriptor to dereference. */
  predicate Legal(p: Pool, op: Op) {
    match op
    case Open(_, _, _) => true
    case Close(fd, _) => fd < |p.fds| && (fd >= 0 ==> p.fds[fd].dev != Nothing)
    case Ioctl(fd, _, _) => fd < |p.fds| && (fd >= 0 ==> p.fds[fd].dev != Nothing)
    case Fcntl(fd, _) => fd < |p.fds|
    case Redirect(slot, _, _, _) => slot < 3 && slot < |p.fds|
  }

  function Step(p: Pool, op: Op): (Pool, Response)
    requires Legal(p, op)
  {
    match op
    case Open(dev, flags, driver) => OpenStep(p, dev, flags, driver)
    case Close(fd, driver) => CloseStep(p, fd, driver)
    case Ioctl(fd, request, driver) => IoctlStep(p, fd, request, driver)
    case Fcntl(fd, command) => FcntlStep(p, fd, command)
    case Redirect(slot, dev, flags, driver) => RedirectStep(p, slot, dev, flags, driver)
  }

  // ---------------------------------------------------------------- The invariant

  predicate Holds(p: Pool, h: nat) {
    h < |p.fds| && IsExcl(p.fds[h].flags)
  }

  /** The part of the invariant that concerns one descriptor. */
  predicate FdInvariant(p: Pool, i: nat)
    requires i < |p.fds|
  {
    var fd := p.fds[i];
    && (i < 3 ==> fd.dev != Nothing)
    && (i >= 3 && fd.dev != Nothing ==> i <= p.maxFd)
    && (IsDev(fd.flags) ==> fd.dev.Device? && p.maxFd >= 3)
    && (IsExcl(fd.flags) ==> IsDev(fd.flags))
  }

  /** Any other descriptor on a locked device has a larger index than the holder. */
  predicate HolderIsFirst(p: Pool, h: nat, i: nat)
    requires h < |p.fds| && i < |p.fds|
  {
    IsExcl(p.fds[h].flags) && Conflicts(p, i, h) ==> i > h
  }

  ghost predicate PoolInvariant(p: Pool) {
    && |p.fds| >= 3 && -1 <= p.maxFd < |p.fds|
    && (forall i: nat :: i < |p.fds| ==> FdInvariant(p, i))
    && (forall h: nat, i: nat :: h < |p.fds| && i < |p.fds| ==> HolderIsFirst(p, h, i))
  }

  lemma BootInvariant(size: nat)
    requires size >= 3
    ensures PoolInvariant(Boot(size))
  {
    NoFlags();
    hide IsDev, IsExcl;
  }

  /** At most one descriptor per device carries the exclusive flag. */
  lemma SingleHolder(p: Pool, g: nat, h: nat)
    requires PoolInvariant(p) && Holds(p, g) && Holds(p, h) && p.fds[g].dev == p.fds[h].dev
    ensures g == h
  {
    hide IsDev, IsExcl;
    assert HolderIsFirst(p, g, h) && HolderIsFirst(p, h, g);
  }

  /** The scan of `open` reaches every holder. */
  lemma HolderIsSeen(p: Pool, h: nat, index: nat)
    requires PoolInvariant(p) && Holds(p, h) && index < |p.fds| && Conflicts(p, h, index)
    ensures LockedByOther(p, index)
  {
    hide IsDev, IsExcl;
    assert FdInvariant(p, h);
  }

  // ---------------------------------------------------------------- Every operation keeps it

  lemma ReleaseKeeps(p: Pool, index: nat)
    requires PoolInvariant(p) && index < |p.fds|
    ensures PoolInvariant(Release(p, index))
  {
    NoFlags();
    hide IsDev, IsExcl;
    var r := Release(p, index);
    forall i: nat | i < |r.fds|
      ensures FdInvariant(r, i)
    {
      assert FdInvariant(p, i);
    }
    forall h: nat, i: nat | h < |r.fds| && i < |r.fds|
      ensures HolderIsFirst(r, h, i)
    {
      assert HolderIsFirst(p, h, i) && FdInvariant(p, h);
    }
  }

  /** Rewriting the flags of a descriptor keeps the invariant if it does not lock or mark it. */
  lemma SetFlagsKeeps(p: Pool, fd: nat, flags: bv32)
    requires PoolInvariant(p) && fd < |p.fds|
    requires IsDev(flags) <==> IsDev(p.fds[fd].flags)
    requires IsExcl(flags) ==> IsExcl(p.fds[fd].flags)
    ensures PoolInvariant(SetFlags(p, fd, flags))
  {
    hide IsDev, IsExcl;
    var r := SetFlags(p, fd, flags);
    forall i: nat | i < |r.fds|
      ensures FdInvariant(r, i)
    {
      assert FdInvariant(p, i);
    }
    forall h: nat, i: nat | h < |r.fds| && i < |r.fds|
      ensures HolderIsFirst(r, h, i)
    {
      assert HolderIsFirst(p, h, i);
    }
  }

  /** The lock keeps it although its scan misses the descriptor at the high-water mark. */
  lemma LockKeeps(p: Pool, fd: nat)
    requires PoolInvariant(p) && fd < |p.fds| && IsDev(p.fds[fd].flags)
    requires !SharedBelowMark(p, fd)
    ensures PoolInvariant(SetFlags(p, fd, Lock(p.fds[fd].flags)))
  {
    hide IsDev, IsExcl, Lock;
    var r := SetFlags(p, fd, Lock(p.fds[fd].flags));
    assert FdInvariant(p, fd);
    forall i: nat | i < |r.fds|
      ensures FdInvariant(r, i)
    {
      assert FdInvariant(p, i);
    }
    forall h: nat, i: nat | h < |r.fds| && i < |r.fds|
      ensures HolderIsFirst(r, h, i)
    {
      assert HolderIsFirst(p, h, i) && FdInvariant(p, i);
      if h == fd && Conflicts(r, i, h) {
        assert Conflicts(p, i, fd);
        assert i >= p.maxFd;
      }
    }
  }

  /** A descriptor put on an unlocked device, or on a file system, keeps it. */
  lemma AllocateKeeps(p: Pool, index: nat, fd: Fd)
    requires PoolInvariant(p) && 3 <= index < |p.fds| && p.fds[index].dev == Nothing
    requires fd.dev != Nothing && !IsExcl(fd.flags) && (IsDev(fd.flags) ==> fd.dev.Device?)
    requires fd.dev.Device? ==> !LockedByOther(Allocate(p, index, fd), index)
    ensures PoolInvariant(Allocate(p, index, fd))
  {
    hide IsDev, IsExcl;
    var r := Allocate(p, index, fd);
    forall i: nat | i < |r.fds|
      ensures FdInvariant(r, i)
    {
      assert FdInvariant(p, i);
    }
    forall h: nat, i: nat | h < |r.fds| && i < |r.fds|
      ensures HolderIsFirst(r, h, i)
    {
      assert HolderIsFirst(p, h, i) && FdInvariant(r, h);
    }
  }

  lemma FreeSlotAboveStreams(p: Pool)
    requires PoolInvariant(p)
    ensures FirstFree(p.fds) >= 3
  {
    hide IsDev, IsExcl;
    assert FdInvariant(p, 0) && FdInvariant(p, 1) && FdInvariant(p, 2);
  }

  /** A failed open only clears the slot it had claimed, and may have raised the mark. */
  lemma FailedOpenKeeps(p: Pool, index: nat, fd: Fd)
    requires PoolInvariant(p) && 3 <= index < |p.fds| && p.fds[index].dev == Nothing
    ensures PoolInvariant(Release(Allocate(p, index, fd), index))
  {
    NoFlags();
    hide IsDev, IsExcl;
    var r := Release(Allocate(p, index, fd), index);
    assert r.fds == p.fds[index := FREE];
    forall i: nat | i < |r.fds|
      ensures FdInvariant(r, i)
    {
      assert FdInvariant(p, i);
    }
    forall h: nat, i: nat | h < |r.fds| && i < |r.fds|
      ensures HolderIsFirst(r, h, i)
    {
      assert HolderIsFirst(p, h, i);
    }
  }

  lemma OpenKeeps(p: Pool, dev: Target, flags: bv32, driver: int)
    requires PoolInvariant(p)
    ensures PoolInvariant(OpenStep(p, dev, flags, driver).0)
  {
    hide IsDev, IsExcl, MarkDev, OpenFlags;
    FreeSlotAboveStreams(p);
    var index := FirstFree(p.fds);
    if dev != Nothing && index < |p.fds| {
      var fd := Claimed(p, dev, flags).fds[index];
      if OpenStatus(p, dev, flags, driver) < 0 {
        FailedOpenKeeps(p, index, fd);
      } else {
        AllocateKeeps(p, index, fd);
      }
    }
  }

  /** Copying a fresh descriptor over a standard stream keeps it: its device has no holder. */
  lemma CopyKeeps(p: Pool, slot: nat, old_: nat)
    requires PoolInvariant(p) && slot < 3 <= old_ < |p.fds|
    requires p.fds[old_].dev != Nothing && !IsExcl(p.fds[old_].flags)
    requires p.fds[old_].dev.Device? ==> !LockedByOther(p, old_)
    ensures PoolInvariant(p.(fds := p.fds[slot := p.fds[old_]]))
  {
    hide IsDev, IsExcl;
    var r := p.(fds := p.fds[slot := p.fds[old_]]);
    forall i: nat | i < |r.fds|
      ensures FdInvariant(r, i)
    {
      assert FdInvariant(p, i) && FdInvariant(p, old_);
    }
    forall h: nat, i: nat | h < |r.fds| && i < |r.fds|
      ensures HolderIsFirst(r, h, i)
    {
      assert HolderIsFirst(p, h, i) && FdInvariant(p, h);
      if Holds(p, h) && h != slot && Conflicts(p, h, old_) {
        HolderIsSeen(p, h, old_);
      }
    }
  }

  lemma RedirectKeeps(p: Pool, slot: nat, dev: Target, flags: bv32, driver: int)
    requires PoolInvariant(p) && slot < 3
    ensures PoolInvariant(RedirectStep(p, slot, dev, flags, driver).0)
  {
    hide IsDev, IsExcl, MarkDev, OpenFlags;
    var (after, r) := OpenStep(p, dev, flags, driver);
    OpenKeeps(p, dev, flags, driver);
    if r.rc >= 0 {
      FreeSlotAboveStreams(p);
      CopyKeeps(after, slot, r.rc);
      ReleaseKeeps(after.(fds := after.fds[slot := after.fds[r.rc]]), r.rc);
    }
  }

  lemma StepKeeps(p: Pool, op: Op)
    requires PoolInvariant(p) && Legal(p, op)
    ensures PoolInvariant(Step(p, op).0) && |Step(p, op).0.fds| == |p.fds|
  {
    hide IsDev, IsExcl, MarkDev, OpenFlags, Lock, Unlock, SetStatus, PoolInvariant;
    match op
    case Open(dev, flags, driver) => OpenKeeps(p, dev, flags, driver);
    case Close(fd, driver) => if fd >= 0 { ReleaseKeeps(p, fd); }
    case Ioctl(fd, request, driver) =>
      if fd >= 0 && IsDev(p.fds[fd].flags) {
        if request == Tiocexcl && !SharedBelowMark(p, fd) {
          LockKeeps(p, fd);
        } else if request == Tiocnxcl {
          SetFlagsKeeps(p, fd, Unlock(p.fds[fd].flags));
        }
      }
    case Fcntl(fd, command) =>
      if fd >= 0 && command.SetFl? { SetFlagsKeeps(p, fd, SetStatus(p.fds[fd].flags, command.arg)); }
    case Redirect(slot, dev, flags, driver) => RedirectKeeps(p, slot, dev, flags, driver);
  }

  // ---------------------------------------------------------------- Runs

  ghost predicate LegalRun(p: Pool, ops: seq<Op>)
    decreases |ops|
  {
    ops == [] || (Legal(p, ops[0]) && LegalRun(Step(p, ops[0]).0, ops[1..]))
  }

  ghost function PoolAfter(p: Pool, ops: seq<Op>): Pool
    requires LegalRun(p, ops)
    decreases |ops|
  {
    if ops == [] then p else PoolAfter(Step(p, ops[0]).0, ops[1..])
  }

  ghost function ResponseAt(p: Pool, ops: seq<Op>, k: nat): Response
    requires LegalRun(p, ops) && k < |ops|
    decreases |ops|
  {
    if k == 0 then Step(p, ops[0]).1 else ResponseAt(Step(p, ops[0]).0, ops[1..], k - 1)
  }

  lemma RunCons(p: Pool, op: Op, rest: seq<Op>)
    requires Legal(p, op) && LegalRun(Step(p, op).0, rest)
    ensures LegalRun(p, [op] + rest)
    ensures PoolAfter(p, [op] + rest) == PoolAfter(Step(p, op).0, rest)
    ensures forall k: nat {:trigger ResponseAt(Step(p, op).0, rest, k)} ::
              k < |rest| ==> ResponseAt(p, [op] + rest, k + 1) == ResponseAt(Step(p, op).0, rest, k)
  {
    hide Step;
    assert ([op] + rest)[1..] == rest;
  }

  /** A run of three operations, from state to state. */
  lemma RunThree(p: Pool, a: Op, b: Op, c: Op)
    requires Legal(p, a) && Legal(Step(p, a).0, b) && Legal(Step(Step(p, a).0, b).0, c)
    ensures LegalRun(p, [a, b, c])
    ensures PoolAfter(p, [a, b, c]) == Step(Step(Step(p, a).0, b).0, c).0
    ensures ResponseAt(p, [a, b, c], 2) == Step(Step(Step(p, a).0, b).0, c).1
  {
    hide Step;
    var q, r := Step(p, a).0, Step(Step(p, a).0, b).0;
    assert [c] + [] == [c] && [b] + [c] == [b, c] && [a] + [b, c] == [a, b, c];
    assert ResponseAt(r, [c], 0) == Step(r, c).1;
    RunCons(r, c, []);
    RunCons(q, b, [c]);
    RunCons(p, a, [b, c]);
    assert ResponseAt(q, [b, c], 1) == ResponseAt(r, [c], 0);
    assert ResponseAt(p, [a, b, c], 2) == ResponseAt(q, [b, c], 1);
  }

  lemma {:induction false} RunKeeps(p: Pool, ops: seq<Op>)
    requires PoolInvariant(p) && LegalRun(p, ops)
    ensures PoolInvariant(PoolAfter(p, ops)) && |PoolAfter(p, ops).fds| == |p.fds|
    decreases |ops|
  {
    hide Step, PoolInvariant;
    if ops != [] {
      StepKeeps(p, ops[0]);
      RunKeeps(Step(p, ops[0]).0, ops[1..]);
    }
  }

  /** In every state reachable from reset, a device has at most one exclusive holder. */
  lemma ReachableSingleHolder(size: nat, ops: seq<Op>, g: nat, h: nat)
    requires size >= 3 && LegalRun(Boot(size), ops)
    ensures var p := PoolAfter(Boot(size), ops);
            Holds(p, g) && Holds(p, h) && p.fds[g].dev == p.fds[h].dev ==> g == h
  {
    hide Step;
    BootInvariant(size);
    RunKeeps(Boot(size), ops);
    var p := PoolAfter(Boot(size), ops);
    if Holds(p, g) && Holds(p, h) && p.fds[g].dev == p.fds[h].dev {
      SingleHolder(p, g, h);
    }
  }

  // ---------------------------------------------------------------- A lock keeps others out

  /** The operations that take the lock away from `h`. */
  predicate Frees(op: Op, h: nat) {
    || (op.Ioctl? && op.fd == h && op.request == Tiocnxcl)
    || (op.Close? && op.fd == h && h > 2)
    || (op.Redirect? && op.slot == h)
  }

  /** The operation tries to get a descriptor on `dev`. */
  predicate Opens(op: Op, dev: Target) {
    (op.Open? || op.Redirect?) && op.dev == dev
  }

  lemma OpenRefused(p: Pool, dev: Target, flags: bv32, driver: int, h: nat)
    requires PoolInvariant(p) && Holds(p, h) && p.fds[h].dev == dev
    ensures OpenStep(p, dev, flags, driver).1.rc == -1
  {
    hide IsDev, IsExcl, MarkDev, OpenFlags;
    FreeSlotAboveStreams(p);
    assert FdInvariant(p, h);
    var index := FirstFree(p.fds);
    if index < |p.fds| {
      var c := Claimed(p, dev, flags);
      assert c.fds[h] == p.fds[h] && Conflicts(c, h, index);
    }
  }

  lemma HolderSurvives(p: Pool, op: Op, h: nat)
    requires PoolInvariant(p) && Legal(p, op) && Holds(p, h) && !Frees(op, h)
    ensures Holds(Step(p, op).0, h) && Step(p, op).0.fds[h].dev == p.fds[h].dev
    ensures Opens(op, p.fds[h].dev) ==> Step(p, op).1.rc == -1
  {
    hide IsDev, IsExcl, MarkDev, OpenFlags, Lock, Unlock, SetStatus, OpenStep;
    assert FdInvariant(p, h);
    if op.Open? || op.Redirect? {
      OpenTouchesOnlyFree(p, op.dev, op.flags, op.driver, h);
      if op.dev == p.fds[h].dev {
        OpenRefused(p, op.dev, op.flags, op.driver, h);
      }
    }
  }

  /** An open leaves every descriptor in use as it was, and returns a slot that was free. */
  lemma OpenTouchesOnlyFree(p: Pool, dev: Target, flags: bv32, driver: int, i: nat)
    requires PoolInvariant(p) && i < |p.fds| && p.fds[i].dev != Nothing
    ensures var (after, r) := OpenStep(p, dev, flags, driver);
            && |after.fds| == |p.fds| && after.fds[i] == p.fds[i]
            && r.rc != i && -1 <= r.rc < |p.fds|
  {
    hide IsDev, IsExcl, MarkDev, OpenFlags, LockedByOther;
    FreeSlotAboveStreams(p);
  }

  /**
   While a device has an exclusive holder, every open of it fails, on every run
   in which the holder is neither unlocked, nor closed, nor redirected over.
   */
  lemma {:induction false} LockExcludes(p: Pool, ops: seq<Op>, h: nat)
    requires PoolInvariant(p) && LegalRun(p, ops) && Holds(p, h)
    requires forall k :: 0 <= k < |ops| ==> !Frees(ops[k], h)
    ensures Holds(PoolAfter(p, ops), h) && PoolAfter(p, ops).fds[h].dev == p.fds[h].dev
    ensures forall k: nat :: k < |ops| && Opens(ops[k], p.fds[h].dev) ==> ResponseAt(p, ops, k).rc == -1
    decreases |ops|
  {
    hide Step, PoolInvariant;
    if ops != [] {
      StepKeeps(p, ops[0]);
      HolderSurvives(p, ops[0], h);
      var next := Step(p, ops[0]).0;
      LockExcludes(next, ops[1..], h);
      forall k: nat | k < |ops| && Opens(ops[k], p.fds[h].dev)
        ensures ResponseAt(p, ops, k).rc == -1
      {
        if k > 0 {
          assert ops[1..][k - 1] == ops[k];
          assert ResponseAt(next, ops[1..], k - 1).rc == -1;
        }
      }
    }
  }

  // ---------------------------------------------------------------- What a granted lock means

  /** No other descriptor refers to the device of `h`. */
  predicate SoleUser(p: Pool, h: nat)
    requires h < |p.fds|
  {
    forall i: nat :: i < |p.fds| ==> !Conflicts(p, i, h)
  }

  /**
   The scan of the lock stops one short of the high-water mark, so a grant makes
   its holder the sole user exactly when the descriptor at the mark is its own
   or belongs to another device.
   */
  lemma GrantMeansSoleUserIff(p: Pool, h: nat)
    requires PoolInvariant(p) && h < |p.fds| && IsDev(p.fds[h].flags)
    requires IoctlStep(p, h, Tiocexcl, 0).1.rc == 0
    ensures p.maxFd >= 3
    ensures SoleUser(p, h) <==> p.maxFd == h || p.fds[p.maxFd].dev != p.fds[h].dev
  {
    hide IsDev, IsExcl;
    assert FdInvariant(p, h);
    if p.maxFd == h || p.fds[p.maxFd].dev != p.fds[h].dev {
      forall i: nat | i < |p.fds|
        ensures !Conflicts(p, i, h)
      {
        assert FdInvariant(p, i);
      }
    } else {
      assert Conflicts(p, p.maxFd, h);
    }
  }

  /** A lock granted while another descriptor uses the device: two opens, then a lock of the first. */
  lemma GrantedLockIsShared()
    ensures var ops := [Open(Device(1), 0, 0), Open(Device(1), 0, 0), Ioctl(3, Tiocexcl, 0)];
            && LegalRun(Boot(32), ops)
            && ResponseAt(Boot(32), ops, 2).rc == 0
            && Holds(PoolAfter(Boot(32), ops), 3) && !SoleUser(PoolAfter(Boot(32), ops), 3)
  {
    NoFlags();
    hide IsDev, IsExcl, MarkDev, OpenFlags, Lock;
    var ops := [Open(Device(1), 0, 0), Open(Device(1), 0, 0), Ioctl(3, Tiocexcl, 0)];
    var p0 := Boot(32);
    FirstFreeIs(p0.fds, 3);
    var p1 := Step(p0, ops[0]).0;
    assert p1 == Pool(p0.fds[3 := Fd(Device(1), MarkDev(OpenFlags(0)))], 3);
    FirstFreeIs(p1.fds, 4);
    var p2 := Step(p1, ops[1]).0;
    assert p2 == Pool(p1.fds[4 := Fd(Device(1), MarkDev(OpenFlags(0)))], 4);
    assert !SharedBelowMark(p2, 3);
    var p3 := Step(p2, ops[2]).0;
    assert Conflicts(p3, 4, 3);
    RunThree(p0, ops[0], ops[1], ops[2]);
  }

  lemma FirstFreeIs(fds: seq<Fd>, i: nat)
    requires i < |fds| && fds[i].dev == Nothing && forall j :: 0 <= j < i ==> fds[j].dev != Nothing
    ensures FirstFree(fds) == i
  {
  }

  // ---------------------------------------------------------------- What an open leaves behind

  /**
   A successful open takes the lowest free slot for a device nobody holds, and
   touches no other descriptor.
   */
  lemma OpenTakesLowestFree(p: Pool, dev: Target, flags: bv32, driver: int)
    requires PoolInvariant(p) && OpenStep(p, dev, flags, driver).1.rc >= 0
    ensures var (after, r) := OpenStep(p, dev, flags, driver);
            && r.rc == FirstFree(p.fds) && 3 <= r.rc < |p.fds|
            && after.fds == p.fds[r.rc := after.fds[r.rc]] && after.fds[r.rc].dev == dev
            && (IsDev(after.fds[r.rc].flags) <==> dev.Device?) && !IsExcl(after.fds[r.rc].flags)
            && (forall h: nat :: Holds(p, h) ==> p.fds[h].dev != dev)
  {
    hide IsDev, IsExcl, MarkDev, OpenFlags;
    FreeSlotAboveStreams(p);
    forall h: nat | Holds(p, h)
      ensures p.fds[h].dev != dev
    {
      if p.fds[h].dev == dev {
        OpenRefused(p, dev, flags, driver, h);
      }
    }
  }

  /**
   A failed open may raise the high-water mark.  It leaves every descriptor as
   it was exactly when the slot it tried, if any, carried no flags.
   */
  lemma FailedOpenRestoresIff(p: Pool, dev: Target, flags: bv32, driver: int)
    requires PoolInvariant(p) && OpenStep(p, dev, flags, driver).1.rc < 0
    ensures var after := OpenStep(p, dev, flags, driver).0;
            var index := FirstFree(p.fds);
            && after.maxFd >= p.maxFd
            && (after.fds == p.fds <==> dev == Nothing || index == |p.fds| || p.fds[index].flags == 0)
            && (forall i :: 0 <= i < |p.fds| && i != index ==> after.fds[i] == p.fds[i])
  {
    hide IsDev, IsExcl, MarkDev, OpenFlags;
    FreeSlotAboveStreams(p);
    var after := OpenStep(p, dev, flags, driver).0;
    var index := FirstFree(p.fds);
    if dev != Nothing && index < |p.fds| {
      assert after.fds == p.fds[index := FREE];
      if p.fds[index].flags == 0 {
        assert p.fds[index] == FREE;
      } else {
        assert after.fds[index] != p.fds[index];
      }
    }
  }

  /** Free slots carry no flags at all. */
  predicate Clean(p: Pool) {
    forall i :: 0 <= i < |p.fds| && p.fds[i].dev == Nothing ==> p.fds[i].flags == 0
  }

  /** Setting flags of a descriptor that is not open is what the source does not guard against. */
  predicate SetsFlagsOfFreeSlot(p: Pool, op: Op)
    requires Legal(p, op)
  {
    op.Fcntl? && op.command.SetFl? && op.fd >= 0 && p.fds[op.fd].dev == Nothing
  }

  lemma StepKeepsClean(p: Pool, op: Op)
    requires PoolInvariant(p) && Legal(p, op) && Clean(p) && !SetsFlagsOfFreeSlot(p, op)
    ensures Clean(Step(p, op).0)
  {
    hide IsDev, IsExcl, MarkDev, OpenFlags, Lock, Unlock, SetStatus;
    FreeSlotAboveStreams(p);
  }

  ghost predicate NeverSetsFlagsOfFreeSlot(p: Pool, ops: seq<Op>)
    requires LegalRun(p, ops)
    decreases |ops|
  {
    ops == [] ||
    (!SetsFlagsOfFreeSlot(p, ops[0]) && NeverSetsFlagsOfFreeSlot(Step(p, ops[0]).0, ops[1..]))
  }

  lemma {:induction false} RunKeepsClean(p: Pool, ops: seq<Op>)
    requires PoolInvariant(p) && Clean(p) && LegalRun(p, ops) && NeverSetsFlagsOfFreeSlot(p, ops)
    ensures PoolInvariant(PoolAfter(p, ops)) && Clean(PoolAfter(p, ops))
    decreases |ops|
  {
    hide Step, PoolInvariant, Clean, SetsFlagsOfFreeSlot;
    if ops != [] {
      StepKeeps(p, ops[0]);
      StepKeepsClean(p, ops[0]);
      RunKeepsClean(Step(p, ops[0]).0, ops[1..]);
    }
  }

  /** After any run in which `fcntl` was used on open descriptors only, a failed open changes no descriptor. */
  lemma FailedOpenRestores(size: nat, ops: seq<Op>, dev: Target, flags: bv32, driver: int)
    requires size >= 3 && LegalRun(Boot(size), ops) && NeverSetsFlagsOfFreeSlot(Boot(size), ops)
    ensures var p := PoolAfter(Boot(size), ops);
            var (after, r) := OpenStep(p, dev, flags, driver);
            r.rc < 0 ==> after.fds == p.fds && after.maxFd >= p.maxFd
  {
    hide Step;
    BootInvariant(size);
    RunKeepsClean(Boot(size), ops);
    var p := PoolAfter(Boot(size), ops);
    if OpenStep(p, dev, flags, driver).1.rc < 0 {
      FailedOpenRestoresIff(p, dev, flags, driver);
    }
  }

  /** Otherwise a failed open can clear flags: those `fcntl` gave to a descriptor that was not open. */
  lemma FailedOpenClearsFlags()
    ensures var ops := [Fcntl(3, SetFl(0x4000))];
            && LegalRun(Boot(32), ops)
            && OpenStep(PoolAfter(Boot(32), ops), Device(1), 0, -5).1 == Response(-1, 5)
            && OpenStep(PoolAfter(Boot(32), ops), Device(1), 0, -5).0.fds != PoolAfter(Boot(32), ops).fds
  {
    var ops := [Fcntl(3, SetFl(0x4000))];
    var p := Step(Boot(32), ops[0]).0;
    assert PoolAfter(Boot(32), ops) == p;
    assert SetStatus(0, 0x4000) == 0x4000;
    FirstFreeIs(p.fds, 3);
    var c := Claimed(p, Device(1), 0);
    assert forall i :: 0 <= i < 3 ==> c.fds[i].flags == 0;
    assert !LockedByOther(c, 3);
    assert OpenStep(p, Device(1), 0, -5).0.fds[3] == FREE;
  }

  // ---------------------------------------------------------------- When calls succeed

  /** Some descriptor holds the device exclusively. */
  ghost predicate Held(p: Pool, dev: Target) {
    exists h: nat :: Holds(p, h) && p.fds[h].dev == dev
  }

  /**
   An open succeeds exactly for a registered name, with a free slot, a device
   nobody holds, and a willing driver; which of these fails is the error.
   */
  lemma OpenSucceedsIff(p: Pool, dev: Target, flags: bv32, driver: int)
    requires PoolInvariant(p)
    ensures var r := OpenStep(p, dev, flags, driver).1;
            var free := exists i :: 0 <= i < |p.fds| && p.fds[i].dev == Nothing;
            && (r.rc >= 0 <==> dev != Nothing && free && !(dev.Device? && Held(p, dev)) && driver >= 0)
            && (r.rc < 0 ==>
                  r == Response(-1, if dev == Nothing then 19 else if !free then 24
                                    else if dev.Device? && Held(p, dev) then 13 else -driver))
  {
    hide IsDev, IsExcl, MarkDev, OpenFlags;
    FreeSlotAboveStreams(p);
    var index := FirstFree(p.fds);
    if dev != Nothing && index < |p.fds| {
      var c := Claimed(p, dev, flags);
      assert c.fds[index].dev == dev;
      if LockedByOther(c, index) {
        var i :| 0 <= i < |c.fds| && i <= c.maxFd && Conflicts(c, i, index) && IsExcl(c.fds[i].flags);
        assert Holds(p, i) && p.fds[i].dev == dev;
      }
      if Held(p, dev) {
        var h: nat :| Holds(p, h) && p.fds[h].dev == dev;
        OpenRefused(p, dev, flags, driver, h);
        assert FdInvariant(p, h);
        assert c.fds[h] == p.fds[h] && Conflicts(c, h, index);
      }
    }
  }

  /** What an open does to the high-water mark: it is raised to the slot tried, if that is higher. */
  lemma OpenMarks(p: Pool, dev: Target, flags: bv32, driver: int)
    requires PoolInvariant(p)
    ensures var i := FirstFree(p.fds);
            OpenStep(p, dev, flags, driver).0.maxFd ==
            if dev == Nothing || i == |p.fds| || i <= p.maxFd then p.maxFd else i
  {
    hide IsDev, IsExcl, MarkDev, OpenFlags;
  }

  /**
   A close, whether the driver succeeds or not, frees the descriptor and
   touches nothing else; the standard streams stay open.
   */
  lemma CloseFrees(p: Pool, fd: int, driver: int)
    requires PoolInvariant(p) && Legal(p, Close(fd, driver))
    ensures var (after, r) := CloseStep(p, fd, driver);
            && |after.fds| == |p.fds| && after.maxFd == p.maxFd
            && (forall i :: 0 <= i < |p.fds| && i != fd ==> after.fds[i] == p.fds[i])
            && (fd >= 3 ==> after.fds[fd].dev == Nothing && after.fds[fd].flags == 0)
            && (0 <= fd < 3 ==> after.fds[fd] == p.fds[fd])
            && r == (if fd < 0 then Response(-1, 81) else if driver < 0 then Response(-1, -driver) else Response(0, 0))
  {
    hide IsDev, IsExcl;
  }

  /** The freed slot is available again: the next open takes it or a lower one. */
  lemma ClosedSlotIsReused(p: Pool, fd: nat, driver: int, dev: Target, flags: bv32, driver': int)
    requires PoolInvariant(p) && Legal(p, Close(fd, driver)) && fd >= 3
    requires dev != Nothing && driver' >= 0
    requires dev.Device? ==> forall h: nat :: Holds(p, h) && p.fds[h].dev == dev ==> h == fd
    ensures 0 <= OpenStep(CloseStep(p, fd, driver).0, dev, flags, driver').1.rc <= fd
  {
    NoFlags();
    hide IsDev, IsExcl, MarkDev, OpenFlags, OpenStep;
    var after := CloseStep(p, fd, driver).0;
    CloseFrees(p, fd, driver);
    ReleaseKeeps(p, fd);
    assert after.fds[fd].dev == Nothing;
    OpenSucceedsIff(after, dev, flags, driver');
    OpenTakesLowestFree(after, dev, flags, driver');
    FirstFreeAtMost(after.fds, fd);
  }

  lemma FirstFreeAtMost(fds: seq<Fd>, i: nat)
    requires i < |fds| && fds[i].dev == Nothing
    ensures FirstFree(fds) <= i
  {
  }

  /** A lock is granted exactly when no other descriptor below the mark is on the device, and then held. */
  lemma LockHolds(p: Pool, fd: nat, driver: int)
    requires PoolInvariant(p) && fd < |p.fds| && IsDev(p.fds[fd].flags)
    ensures var (after, r) := IoctlStep(p, fd, Tiocexcl, driver);
            && (r.rc == 0 <==> forall i :: 0 <= i < p.maxFd && i != fd ==> p.fds[i].dev != p.fds[fd].dev)
            && (r.rc == 0 ==> Holds(after, fd) && after.fds[fd].dev == p.fds[fd].dev
                              && after == p.(fds := p.fds[fd := after.fds[fd]]))
            && (r.rc != 0 ==> r == Response(-13, 13) && after == p)
  {
    hide IsExcl, Lock;
    assert FdInvariant(p, fd);
    hide IsDev;
    if SharedBelowMark(p, fd) {
      var i :| 0 <= i < |p.fds| && i < p.maxFd && Conflicts(p, i, fd);
      assert p.fds[i].dev == p.fds[fd].dev;
    } else {
      forall i | 0 <= i < p.maxFd && i != fd
        ensures p.fds[i].dev != p.fds[fd].dev
      {
        assert !Conflicts(p, i, fd);
      }
    }
  }

  /** An unlock by the holder frees the device for others: nobody holds it, and an open succeeds again. */
  lemma UnlockFrees(p: Pool, fd: nat, driver: int, flags: bv32, driver': int)
    requires PoolInvariant(p) && Holds(p, fd)
    ensures var (after, r) := IoctlStep(p, fd, Tiocnxcl, driver);
            && r == Response(0, 0) && !Holds(after, fd) && !Held(after, p.fds[fd].dev)
            && after.fds[fd].dev == p.fds[fd].dev && after == p.(fds := p.fds[fd := after.fds[fd]])
            && (driver' >= 0 && FirstFree(p.fds) < |p.fds| ==>
                  OpenStep(after, p.fds[fd].dev, flags, driver').1.rc >= 0)
  {
    hide IsDev, IsExcl, MarkDev, OpenFlags, Unlock, OpenStep;
    assert FdInvariant(p, fd);
    var (after, r) := IoctlStep(p, fd, Tiocnxcl, driver);
    SetFlagsKeeps(p, fd, Unlock(p.fds[fd].flags));
    if Held(after, p.fds[fd].dev) {
      var h: nat :| Holds(after, h) && after.fds[h].dev == p.fds[fd].dev;
      SingleHolder(p, fd, h);
    }
    OpenSucceedsIff(after, p.fds[fd].dev, flags, driver');
    if FirstFree(p.fds) < |p.fds| {
      assert after.fds[FirstFree(p.fds)].dev == Nothing;
    }
  }

  /** Every other request goes to the driver, and locks nothing. */
  lemma OtherIoctlsPass(p: Pool, fd: int, request: Request, driver: int)
    requires PoolInvariant(p) && fd < |p.fds|
    requires fd >= 0 ==> request == OtherRequest || !IsDev(p.fds[fd].flags)
    ensures IoctlStep(p, fd, request, driver).0 == p
    ensures IoctlStep(p, fd, request, driver).1 ==
            if fd < 0 then Response(-81, 81) else Response(driver, if driver < 0 then -driver else 0)
  {
    hide IsExcl, Lock, Unlock;
  }

  /** After a redirection the stream has the opened device, and the descriptor it was opened on is free again. */
  lemma RedirectMoves(p: Pool, slot: nat, dev: Target, flags: bv32, driver: int)
    requires PoolInvariant(p) && slot < 3
    ensures var (after, r) := RedirectStep(p, slot, dev, flags, driver);
            var (newer, o) := OpenStep(p, dev, flags, driver);
            && |after.fds| == |p.fds| && after.maxFd == newer.maxFd
            && (r.rc >= 0 <==> o.rc >= 0)
            && (r.rc >= 0 ==> after.fds[slot].dev == dev && after.fds[slot].flags == newer.fds[o.rc].flags)
            && (r.rc < 0 ==> after.fds[slot] == p.fds[slot])
            && (forall i :: 0 <= i < |p.fds| && i != slot && p.fds[i].dev != Nothing ==> after.fds[i] == p.fds[i])
            && (forall i :: 0 <= i < |p.fds| ==> (after.fds[i].dev == Nothing <==> p.fds[i].dev == Nothing))
  {
    hide IsDev, IsExcl, MarkDev, OpenFlags;
    FreeSlotAboveStreams(p);
    assert FdInvariant(p, 0) && FdInvariant(p, 1) && FdInvariant(p, 2);
  }

  /** `F_GETFL` returns what open was given, and what `F_SETFL` has changed since; the two bits never show. */
  lemma FlagsRoundTrip(p: Pool, dev: Target, flags: bv32, driver: int, arg: bv32)
    requires PoolInvariant(p) && OpenStep(p, dev, flags, driver).1.rc >= 0
    ensures var (newer, r) := OpenStep(p, dev, flags, driver);
            var seen := FcntlStep(newer, r.rc, GetFl).1;
            var (changed, done) := FcntlStep(newer, r.rc, SetFl(arg));
            var after := FcntlStep(changed, r.rc, GetFl).1;
            && done == Response(0, 0) && seen.errno == after.errno == 0
            && FcntlStep(newer, r.rc, GetFl).0 == newer && FcntlStep(changed, r.rc, GetFl).0 == changed
            && seen.rc == (flags & 0x3FFF_FFFF) as int
            && after.rc == ((flags & 0x3FFF_BFF7) | (arg & 0x4008)) as int
            && changed == newer.(fds := newer.fds[r.rc := newer.fds[r.rc].(flags := changed.fds[r.rc].flags)])
  {
    hide IsDev, IsExcl, OpenFlags, MarkDev, SetStatus;
    FreeSlotAboveStreams(p);
    ShownFlags(flags);
    ShownStatus(flags, arg);
    ShownMarkedStatus(flags, arg);
  }

  lemma ShownFlags(f: bv32)
    ensures OpenFlags(OpenFlags(f)) == f & 0x3FFF_FFFF
    ensures OpenFlags(MarkDev(OpenFlags(f))) == f & 0x3FFF_FFFF
  {
    hide IsDev, IsExcl;
  }

  lemma ShownStatus(f: bv32, arg: bv32)
    ensures OpenFlags(SetStatus(OpenFlags(f), arg)) == (f & 0x3FFF_BFF7) | (arg & 0x4008)
  {
    hide IsDev, IsExcl;
  }

  lemma ShownMarkedStatus(f: bv32, arg: bv32)
    ensures OpenFlags(SetStatus(MarkDev(OpenFlags(f)), arg)) == (f & 0x3FFF_BFF7) | (arg & 0x4008)
  {
    hide IsDev, IsExcl;
  }

  /** The refused `fcntl` calls change nothing. */
  lemma FcntlRefuses(p: Pool, fd: int, command: Command)
    requires fd < |p.fds| && (fd < 0 || command == OtherCommand)
    ensures FcntlStep(p, fd, command) == (p, Response(-1, if fd < 0 then 81 else 22))
  {
  }

  // ---------------------------------------------------------------- The pool in place

  /** The array `alt_fd_list`, the mark `alt_max_fd` and the calls that update them. */
  class FdList {
    const size: nat
    const fds: array<Fd>
    var maxFd: int
    var errno: int

    ghost predicate Valid()
      reads this, fds
    {
      fds.Length == size && PoolInvariant(Contents())
    }

    ghost function Contents(): Pool
      reads this, fds
    {
      Pool(fds[..], maxFd)
    }

    constructor (size: nat)
      requires size >= 3
      ensures Valid() && fresh(fds) && Contents() == Boot(size) && this.size == size
    {
      this.size := size;
      fds := new Fd[size](i => if 0 <= i < 3 then Fd(Device(0), 0) else FREE);
      maxFd := -1;
      errno := 0;
      new;
      assert fds[..] == Boot(size).fds;
      BootInvariant(size);
    }

    method GetFd(dev: Target) returns (rc: int)
      modifies this`maxFd, fds
      ensures var old_ := old(Contents());
              var i := FirstFree(old_.fds);
              if i == |old_.fds| then rc == -EMFILE && Contents() == old_
              else rc == i && Contents() == Allocate(old_, i, old_.fds[i].(dev := dev))
    {
      for i := 0 to fds.Length
        invariant Contents() == old(Contents())
        invariant forall j :: 0 <= j < i ==> fds[j].dev != Nothing
      {
        if fds[i].dev == Nothing {
          FirstFreeIs(fds[..], i);
          fds[i] := fds[i].(dev := dev);
          if i > maxFd {
            maxFd := i;
          }
          return i;
        }
      }
      return -EMFILE;
    }

    method ReleaseFd(fd: int)
      requires fd < fds.Length
      modifies fds
      ensures Contents() == if fd >= 0 then Release(old(Contents()), fd) else old(Contents())
    {
      if fd > 2 {
        fds[fd] := fds[fd].(flags := 0);
        fds[fd] := fds[fd].(dev := Nothing);
      }
    }

    method FileLocked(index: nat) returns (status: int)
      requires index < fds.Length && index <= maxFd < fds.Length
      modifies fds
      ensures Contents() == SetFlags(old(Contents()), index, MarkDev(old(fds[index].flags)))
      ensures status == if LockedByOther(Contents(), index) then -EACCES else 0
    {
      hide IsExcl, MarkDev;
      fds[index] := fds[index].(flags := MarkDev(fds[index].flags));
      ghost var p := Contents();
      var i := 0;
      while i <= maxFd
        invariant 0 <= i <= maxFd + 1
        invariant forall j :: 0 <= j < i ==> !(Conflicts(p, j, index) && IsExcl(p.fds[j].flags))
      {
        if fds[i].dev == fds[index].dev && IsExcl(fds[i].flags) && i != index {
          assert Conflicts(p, i, index);
          return -EACCES;
        }
        i := i + 1;
      }
      return 0;
    }

    method OpenFile(dev: Target, flags: bv32, driver: int) returns (rc: int)
      requires Valid()
      modifies this, fds
      ensures Valid()
      ensures (Contents(), rc) == (OpenStep(old(Contents()), dev, flags, driver).0, OpenStep(old(Contents()), dev, flags, driver).1.rc)
      ensures rc == -1 ==> errno == OpenStep(old(Contents()), dev, flags, driver).1.errno
    {
      hide PoolInvariant, IsDev, IsExcl, MarkDev, OpenFlags, LockedByOther;
      ghost var before := Contents();
      OpenKeeps(before, dev, flags, driver);
      MarkBounded(before);
      var index := -1;
      var status := -ENODEV;
      if dev != Nothing {
        index := GetFd(dev);
        if index < 0 {
          status := index;
        } else {
          fds[index] := fds[index].(flags := OpenFlags(flags));
          status := 0;
          if dev.Device? {
            status := FileLocked(index);
          }
          assert Contents() == Claimed(before, dev, flags);
          if status >= 0 {
            status := driver;
          }
        }
      }
      if status < 0 {
        ReleaseFd(index);
        errno := -status;
        return -1;
      }
      return index;
    }

    method CloseFile(fd: int, driver: int) returns (rc: int)
      requires Valid() && Legal(Contents(), Close(fd, driver))
      modifies this, fds
      ensures Valid()
      ensures var (after, r) := CloseStep(old(Contents()), fd, driver);
              Contents() == after && rc == r.rc && (rc == -1 ==> errno == r.errno)
    {
      hide PoolInvariant, IsDev, IsExcl;
      StepKeeps(Contents(), Close(fd, driver));
      if fd >= 0 {
        ReleaseFd(fd);
        if driver < 0 {
          errno := -driver;
          return -1;
        }
        return 0;
      } else {
        errno := EBADFD;
        return -1;
      }
    }

    method FdLock(fd: nat) returns (rc: int)
      requires fd < fds.Length && maxFd < fds.Length
      modifies fds
      ensures if SharedBelowMark(old(Contents()), fd) then rc == -EACCES && Contents() == old(Contents())
              else rc == 0 && Contents() == SetFlags(old(Contents()), fd, Lock(old(fds[fd].flags)))
    {
      ghost var p := Contents();
      var i := 0;
      while i < maxFd
        invariant 0 <= i < fds.Length && (maxFd >= 0 ==> i <= maxFd)
        invariant forall j :: 0 <= j < i ==> !Conflicts(p, j, fd)
      {
        if i != fd && fds[i].dev == fds[fd].dev {
          assert Conflicts(p, i, fd);
          return -EACCES;
        }
        i := i + 1;
      }
      assert forall j :: 0 <= j < |p.fds| && j < p.maxFd ==> !Conflicts(p, j, fd);
      fds[fd] := fds[fd].(flags := Lock(fds[fd].flags));
      return 0;
    }

    method FdUnlock(fd: nat) returns (rc: int)
      requires fd < fds.Length
      modifies fds
      ensures rc == 0 && Contents() == SetFlags(old(Contents()), fd, Unlock(old(fds[fd].flags)))
    {
      fds[fd] := fds[fd].(flags := Unlock(fds[fd].flags));
      return 0;
    }

    method IoctlFile(fd: int, request: Request, driver: int) returns (rc: int)
      requires Valid() && Legal(Contents(), Ioctl(fd, request, driver))
      modifies this, fds
      ensures Valid()
      ensures var (after, r) := IoctlStep(old(Contents()), fd, request, driver);
              Contents() == after && rc == r.rc && (rc < 0 ==> errno == r.errno)
    {
      hide PoolInvariant, IsDev, IsExcl, Lock, Unlock, SharedBelowMark;
      ghost var before := Contents();
      StepKeeps(before, Ioctl(fd, request, driver));
      MarkBounded(before);
      if fd >= 0 {
        if IsDev(fds[fd].flags) && request == Tiocexcl {
          rc := FdLock(fd);
        } else if IsDev(fds[fd].flags) && request == Tiocnxcl {
          rc := FdUnlock(fd);
        } else {
          rc := driver;
        }
      } else {
        rc := -EBADFD;
      }
      if rc < 0 {
        errno := -rc;
      }
    }

    method FcntlFile(fd: int, command: Command) returns (rc: int)
      requires Valid() && Legal(Contents(), Fcntl(fd, command))
      modifies this, fds
      ensures Valid()
      ensures var (after, r) := FcntlStep(old(Contents()), fd, command);
              Contents() == after && rc == r.rc && (rc == -1 ==> errno == r.errno)
    {
      hide PoolInvariant, IsDev, IsExcl, SetStatus, OpenFlags;
      StepKeeps(Contents(), Fcntl(fd, command));
      if fd >= 0 {
        match command {
          case GetFl => return OpenFlags(fds[fd].flags) as int;
          case SetFl(arg) =>
            fds[fd] := fds[fd].(flags := SetStatus(fds[fd].flags, arg));
            return 0;
          case OtherCommand =>
            errno := EINVAL;
            return -1;
        }
      }
      errno := EBADFD;
      return -1;
    }

    /** Redirects a standard stream; a device that cannot be opened leaves it as it was. */
    method OpenFd(slot: nat, dev: Target, flags: bv32, driver: int)
      requires Valid() && slot < 3
      modifies this, fds
      ensures Valid() && Contents() == RedirectStep(old(Contents()), slot, dev, flags, driver).0
    {
      hide PoolInvariant, IsDev, IsExcl, MarkDev, OpenFlags, LockedByOther;
      MarkBounded(Contents());
      StepKeeps(Contents(), Redirect(slot, dev, flags, driver));
      var index := OpenFile(dev, flags, driver);
      if index >= 0 {
        fds[slot] := fds[index];
        ReleaseFd(index);
      }
    }

    /** The boot step: standard output, input and error in that order. */
    method IoRedirect(out: Target, in_: Target, err: Target, flags: bv32, driver: int)
      requires Valid()
      modifies this, fds
      ensures Valid()
      ensures var ops := [Redirect(1, out, flags, driver), Redirect(0, in_, flags, driver), Redirect(2, err, flags, driver)];
              LegalRun(old(Contents()), ops) && Contents() == PoolAfter(old(Contents()), ops)
    {
      hide PoolInvariant, RedirectStep;
      ghost var p0 := Contents();
      MarkBounded(p0);
      OpenFd(1, out, flags, driver);
      MarkBounded(Contents());
      OpenFd(0, in_, flags, driver);
      MarkBounded(Contents());
      OpenFd(2, err, flags, driver);
      RunThree(p0, Redirect(1, out, flags, driver), Redirect(0, in_, flags, driver), Redirect(2, err, flags, driver));
    }
  }

  lemma MarkBounded(p: Pool)
    requires PoolInvariant(p)
    ensures 3 <= |p.fds| && -1 <= p.maxFd < |p.fds|
  {
  }
}
