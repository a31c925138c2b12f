/** The file-descriptor pool as a state machine: what each system call does to the slots. */
module FdModel {
  import opened Errno
  import opened Arithmetic

  const ALT_FD_EXCL: bv32 := 0x8000_0000
  const ALT_FD_DEV: bv32 := 0x4000_0000
  const FD_FLAGS_MASK: bv32 := 0xC000_0000
  const FCNTL_FLAGS_MASK: bv32 := 0x4008 // O_NONBLOCK | O_APPEND

  const TIOCEXCL := 0x740d
  const TIOCNXCL := 0x740e
  const F_GETFL := 3
  const F_SETFL := 4

  /** What a slot points to.  A driver is registered as a device or as a filesystem. */
  datatype Dev = Null | Device(id: nat) | FileSystem(id: nat)

  datatype Pool = Pool(dev: seq<Dev>, flags: seq<bv32>, maxFd: int)

  /** A call's effect: the pool, the value returned, and what errno is set to (0 for not at all). */
  datatype Result = Result(pool: Pool, ret: int, errno: int)

  predicate Excl(f: bv32) { f & ALT_FD_EXCL != 0 }

  predicate IsDev(f: bv32) { f & ALT_FD_DEV != 0 }

  // the flag words that the calls write

  function LockFlags(f: bv32): bv32 { f | ALT_FD_EXCL }

  function UnlockFlags(f: bv32): bv32 { f & !ALT_FD_EXCL }

  function OpenFlags(flags: bv32, device: bool): bv32 {
    if device then (flags & !FD_FLAGS_MASK) | ALT_FD_DEV else flags & !FD_FLAGS_MASK
  }

  function FcntlFlags(f: bv32, flags: bv32): bv32 {
    (f & !FCNTL_FLAGS_MASK) | (flags & FCNTL_FLAGS_MASK)
  }

  function VisibleFlags(f: bv32): int { (f & !FD_FLAGS_MASK) as int }

  /** Standard in, out and error on the null device, everything else free. */
  function Init(size: nat): Pool
    requires size >= 3
  {
    Pool(seq(size, i => if i < 3 then Device(0) else Null), seq(size, i => 0), -1)
  }

  predicate Shaped(p: Pool) {
    |p.dev| == |p.flags| >= 3 && -1 <= p.maxFd < |p.dev|
  }

  /** The lowest free slot from i on, or the size of the pool. */
  function FirstFree(dev: seq<Dev>, i: nat): (k: nat)
    requires i <= |dev|
    ensures i <= k <= |dev|
    ensures k < |dev| ==> dev[k] == Null
    ensures forall j :: i <= j < k ==> dev[j] != Null
    decreases |dev| - i
  {
    if i == |dev| || dev[i] == Null then i else FirstFree(dev, i + 1)
  }

  function Release(p: Pool, fd: int): Pool
    requires Shaped(p) && fd < |p.dev|
  {
    if fd > 2 then Pool(p.dev[fd := Null], p.flags[fd := 0], p.maxFd) else p
  }

  /** Some other slot, up to and including the mark, holds the device of slot fd. */
  predicate FileLocked(p: Pool, fd: nat)
    requires Shaped(p) && fd < |p.dev|
  {
    exists i :: 0 <= i <= p.maxFd && i != fd && p.dev[i] == p.dev[fd] && Excl(p.flags[i])
  }

  /** The slot that an open takes, before the device is asked. */
  function Taken(p: Pool, k: nat, target: Dev, flags: bv32): (q: Pool)
    requires Shaped(p) && k < |p.dev|
    ensures Shaped(q)
  {
    Pool(p.dev[k := target], p.flags[k := OpenFlags(flags, target.Device?)], Max(p.maxFd, k))
  }

  /** open(): `target` is what the name stands for, `status` what the driver's open returns. */
  function Open(p: Pool, target: Dev, flags: bv32, status: int): Result
    requires Shaped(p)
  {
    if target == Null then Result(p, -1, ENODEV)
    else
      var k := FirstFree(p.dev, 0);
      if k == |p.dev| then Result(p, -1, EMFILE)
      else
        var q := Taken(p, k, target, flags);
        if target.Device? && FileLocked(q, k) then Result(Release(q, k), -1, EACCES)
        else if status < 0 then Result(Release(q, k), -1, -status)
        else Result(q, k, 0)
  }

  /** close(): `status` is what the driver's close returns. */
  function Close(p: Pool, fd: int, status: int): Result
    requires Shaped(p) && fd < |p.dev|
  {
    if fd < 0 then Result(p, -1, EBADFD)
    else if status < 0 then Result(Release(p, fd), -1, -status)
    else Result(Release(p, fd), 0, 0)
  }

  function WithFlags(p: Pool, fd: nat, f: bv32): (q: Pool)
    requires Shaped(p) && fd < |p.dev|
    ensures Shaped(q)
  {
    Pool(p.dev, p.flags[fd := f], p.maxFd)
  }

  /** Some other slot, below the mark, is open on the device of slot fd. */
  predicate SharedBelow(p: Pool, fd: nat, mark: int)
    requires Shaped(p) && fd < |p.dev| && mark <= |p.dev|
  {
    exists i :: 0 <= i < mark && i != fd && p.dev[i] == p.dev[fd]
  }

  /** ioctl(): `status` is what the driver's ioctl returns, -ENOTTY if it has none. */
  function Ioctl(p: Pool, fd: int, req: int, status: int): Result
    requires Shaped(p) && fd < |p.dev|
  {
    if fd < 0 then Result(p, -EBADFD, EBADFD)
    else if IsDev(p.flags[fd]) && req == TIOCEXCL then
      if SharedBelow(p, fd, p.maxFd) then Result(p, -EACCES, EACCES)
      else Result(WithFlags(p, fd, LockFlags(p.flags[fd])), 0, 0)
    else if IsDev(p.flags[fd]) && req == TIOCNXCL then
      Result(WithFlags(p, fd, UnlockFlags(p.flags[fd])), 0, 0)
    else Result(p, status, if status < 0 then -status else 0)
  }

  function Fcntl(p: Pool, fd: int, cmd: int, flags: bv32): Result
    requires Shaped(p) && fd < |p.dev|
  {
    if fd < 0 then Result(p, -1, EBADFD)
    else if cmd == F_GETFL then Result(p, VisibleFlags(p.flags[fd]), 0)
    else if cmd == F_SETFL then Result(WithFlags(p, fd, FcntlFlags(p.flags[fd], flags)), 0, 0)
    else Result(p, -1, EINVAL)
  }

  /** Redirection of a standard stream: the new descriptor moves to the stream's slot. */
  function OpenFd(p: Pool, std: nat, target: Dev, flags: bv32, status: int): Pool
    requires Shaped(p) && std < 3
  {
    var r := Open(p, target, flags, status);
    if r.ret < 0 then r.pool
    else
      var q := r.pool;
      var moved := Pool(q.dev[std := q.dev[r.ret]], q.flags[std := q.flags[r.ret]], q.maxFd);
      Release(moved, r.ret)
  }

  datatype Call =
    | OpenCall(target: Dev, flags: bv32, status: int)
    | CloseCall(fd: int, status: int)
    | IoctlCall(fd: int, req: int, status: int)
    | FcntlCall(fd: int, cmd: int, flags: bv32)
    | RedirectCall(std: nat, target: Dev, flags: bv32, status: int)

  /** What the code takes for granted of its callers: descriptors inside the pool, and open ones
      where the driver is asked. */
  predicate Legal(p: Pool, c: Call) {
    match c
    case OpenCall(_, _, _) => true
    case CloseCall(fd, _) => fd < |p.dev| && (fd >= 0 ==> p.dev[fd] != Null)
    case IoctlCall(fd, _, _) => fd < |p.dev| && (fd >= 0 ==> p.dev[fd] != Null)
    case FcntlCall(fd, _, _) => fd < |p.dev|
    case RedirectCall(std, _, _, _) => std < 3
  }

  function Apply(p: Pool, c: Call): (q: Pool)
    requires Shaped(p) && Legal(p, c)
    ensures Shaped(q)
  {
    match c
    case OpenCall(target, flags, status) => Open(p, target, flags, status).pool
    case CloseCall(fd, status) => Close(p, fd, status).pool
    case IoctlCall(fd, req, status) => Ioctl(p, fd, req, status).pool
    case FcntlCall(fd, cmd, flags) => Fcntl(p, fd, cmd, flags).pool
    case RedirectCall(std, target, flags, status) => OpenFd(p, std, target, flags, status)
  }

  // -----------------------------------------------------------------------------------------
  // What every call keeps
  // -----------------------------------------------------------------------------------------

  // the bits of the flag words that the calls write

  lemma NoBits()
    ensures !Excl(0) && !IsDev(0)
  {
  }

  lemma LockBit(f: bv32)
    ensures Excl(LockFlags(f)) && (IsDev(LockFlags(f)) <==> IsDev(f))
  {
  }

  lemma UnlockBit(f: bv32)
    ensures !Excl(UnlockFlags(f)) && (IsDev(UnlockFlags(f)) <==> IsDev(f))
  {
  }

  lemma OpenBits(f: bv32, device: bool)
    ensures !Excl(OpenFlags(f, device)) && (IsDev(OpenFlags(f, device)) <==> device)
  {
  }

  lemma FcntlBits(f: bv32, g: bv32)
    ensures Excl(FcntlFlags(f, g)) <==> Excl(f)
    ensures IsDev(FcntlFlags(f, g)) <==> IsDev(f)
  {
  }

  /** Some other slot is open on the device of slot i, at a lower index. */
  predicate SharesLower(p: Pool, i: nat)
    requires Shaped(p) && i < |p.dev|
  {
    SharedBelow(p, i, i)
  }

  ghost predicate Inv(p: Pool) {
    && Shaped(p)
    && (p.maxFd == -1 || p.maxFd >= 3)
    && (forall i :: 0 <= i < 3 ==> p.dev[i] != Null)
    && (forall i :: 0 <= i < |p.dev| && Max(2, p.maxFd) < i ==> p.dev[i] == Null)
    && (forall i :: 0 <= i < |p.dev| && IsDev(p.flags[i]) ==> p.dev[i].Device? && p.maxFd >= 3)
    && (forall i :: 0 <= i < |p.dev| && Excl(p.flags[i]) ==> IsDev(p.flags[i]) && !SharesLower(p, i))
  }

  lemma InitInv(size: nat)
    requires size >= 3
    ensures Inv(Init(size)) && |Init(size).dev| == size && forall i :: 0 <= i < size ==> Init(size).flags[i] == 0
    ensures forall i :: 0 <= i < size ==> Init(size).dev[i] == if i < 3 then Init(size).dev[0] else Null
  {
    NoBits();
  }

  lemma ReleaseInv(p: Pool, fd: int)
    requires Inv(p) && fd < |p.dev|
    ensures Inv(Release(p, fd))
  {
    hide Excl, IsDev, LockFlags, UnlockFlags, OpenFlags, FcntlFlags, VisibleFlags;
    NoBits();
    var q := Release(p, fd);
    forall i | 0 <= i < |q.dev| && Excl(q.flags[i])
      ensures IsDev(q.flags[i]) && !SharesLower(q, i)
    {
      assert !SharesLower(p, i);
    }
  }

  lemma NotLocked(p: Pool, k: nat)
    requires Shaped(p) && k < |p.dev| && !FileLocked(p, k)
    ensures forall i :: 0 <= i <= p.maxFd && i != k && Excl(p.flags[i]) ==> p.dev[i] != p.dev[k]
  {
  }

  /** A slot that is taken for a device that nobody has locked carries no lock itself. */
  lemma TakenInv(p: Pool, k: nat, target: Dev, flags: bv32)
    requires Inv(p) && 3 <= k < |p.dev| && p.dev[k] == Null && target != Null
    requires target.Device? ==> !FileLocked(Taken(p, k, target, flags), k)
    ensures Inv(Taken(p, k, target, flags))
  {
    hide Excl, IsDev, LockFlags, UnlockFlags, OpenFlags, FcntlFlags, VisibleFlags;
    OpenBits(flags, target.Device?);
    var q := Taken(p, k, target, flags);
    if target.Device? { NotLocked(q, k); }
    forall i | 0 <= i < |q.dev| && Excl(q.flags[i])
      ensures IsDev(q.flags[i]) && !SharesLower(q, i)
    {
      assert i != k && !SharesLower(p, i) && q.dev[i].Device?;
    }
  }

  lemma RefusedRelease(p: Pool, k: nat, target: Dev, flags: bv32)
    requires Inv(p) && 3 <= k < |p.dev| && p.dev[k] == Null
    ensures var q := Release(Taken(p, k, target, flags), k);
            q.dev == p.dev && q.flags == p.flags[k := 0] && q.maxFd == Max(p.maxFd, k) && Inv(q)
  {
    hide Excl, IsDev, LockFlags, UnlockFlags, OpenFlags, FcntlFlags, VisibleFlags;
    NoBits();
    var q := Release(Taken(p, k, target, flags), k);
    assert q.dev == p.dev;
    forall i | 0 <= i < |q.dev| && Excl(q.flags[i])
      ensures IsDev(q.flags[i]) && !SharesLower(q, i)
    {
      assert !SharesLower(p, i);
    }
  }

  lemma OpenInv(p: Pool, target: Dev, flags: bv32, status: int)
    requires Inv(p)
    ensures Inv(Open(p, target, flags, status).pool)
  {
    hide Inv, FileLocked, Release;
    FreeSlotsAreHigh(p);
    var k := FirstFree(p.dev, 0);
    if target != Null && k < |p.dev| {
      RefusedRelease(p, k, target, flags);
      if !(target.Device? && FileLocked(Taken(p, k, target, flags), k)) {
        TakenInv(p, k, target, flags);
      }
    }
  }

  /** The standard streams are never free. */
  lemma FreeSlotsAreHigh(p: Pool)
    requires Inv(p)
    ensures Shaped(p) && FirstFree(p.dev, 0) >= 3
  {
  }

  lemma LockInv(p: Pool, fd: nat)
    requires Inv(p) && fd < |p.dev| && IsDev(p.flags[fd]) && !SharedBelow(p, fd, p.maxFd)
    ensures Inv(WithFlags(p, fd, LockFlags(p.flags[fd])))
  {
    hide Excl, IsDev, LockFlags, UnlockFlags, OpenFlags, FcntlFlags, VisibleFlags;
    LockBit(p.flags[fd]);
    var q := WithFlags(p, fd, LockFlags(p.flags[fd]));
    forall i | 0 <= i < |q.dev| && Excl(q.flags[i])
      ensures IsDev(q.flags[i]) && !SharesLower(q, i)
    {
      if i != fd {
        assert !SharesLower(p, i);
      }
    }
  }

  /** Other flag updates leave the lock and device bits, or clear the lock. */
  lemma FlagsInv(p: Pool, fd: nat, f: bv32)
    requires Inv(p) && fd < |p.dev|
    requires (Excl(f) ==> Excl(p.flags[fd])) && (IsDev(f) <==> IsDev(p.flags[fd]))
    ensures Inv(WithFlags(p, fd, f))
  {
    hide Excl, IsDev, LockFlags, UnlockFlags, OpenFlags, FcntlFlags, VisibleFlags;
    var q := WithFlags(p, fd, f);
    forall i | 0 <= i < |q.dev| && Excl(q.flags[i])
      ensures IsDev(q.flags[i]) && !SharesLower(q, i)
    {
      assert !SharesLower(p, i);
    }
  }

  lemma IoctlInv(p: Pool, fd: int, req: int, status: int)
    requires Inv(p) && fd < |p.dev|
    ensures Inv(Ioctl(p, fd, req, status).pool)
  {
    InvShaped(p);
    hide Inv, WithFlags, Excl, IsDev, LockFlags, UnlockFlags;
    if fd >= 0 && IsDev(p.flags[fd]) {
      UnlockBit(p.flags[fd]);
      FlagsInv(p, fd, UnlockFlags(p.flags[fd]));
      if !SharedBelow(p, fd, p.maxFd) {
        LockInv(p, fd);
      }
    }
  }

  lemma InvShaped(p: Pool)
    requires Inv(p)
    ensures Shaped(p)
  {
  }

  lemma FcntlInv(p: Pool, fd: int, cmd: int, flags: bv32)
    requires Inv(p) && fd < |p.dev|
    ensures Inv(Fcntl(p, fd, cmd, flags).pool)
  {
    InvShaped(p);
    hide Inv, WithFlags, Excl, IsDev, FcntlFlags, VisibleFlags;
    if fd >= 0 {
      FcntlBits(p.flags[fd], flags);
      FlagsInv(p, fd, FcntlFlags(p.flags[fd], flags));
    }
  }

  /** A new descriptor holds no lock, so it can move to a lower slot. */
  lemma MoveInv(p: Pool, std: nat, k: nat)
    requires Inv(p) && std < 3 <= k < |p.dev| && p.dev[k] != Null && !Excl(p.flags[k])
    requires p.dev[k].Device? ==> !FileLocked(p, k)
    ensures Inv(Pool(p.dev[std := p.dev[k]], p.flags[std := p.flags[k]], p.maxFd))
  {
    hide Excl, IsDev, LockFlags, UnlockFlags, OpenFlags, FcntlFlags, VisibleFlags;
    var q := Pool(p.dev[std := p.dev[k]], p.flags[std := p.flags[k]], p.maxFd);
    if p.dev[k].Device? { NotLocked(p, k); }
    forall i | 0 <= i < |q.dev| && Excl(q.flags[i])
      ensures IsDev(q.flags[i]) && !SharesLower(q, i)
    {
      assert i != std && !SharesLower(p, i);
    }
  }

  lemma OpenFdInv(p: Pool, std: nat, target: Dev, flags: bv32, status: int)
    requires Inv(p) && std < 3
    ensures Inv(OpenFd(p, std, target, flags, status))
  {
    OpenInv(p, target, flags, status);
    var r := Open(p, target, flags, status);
    if r.ret >= 0 {
      var q := r.pool;
      FreeSlotsAreHigh(p);
      OpenBits(flags, target.Device?);
      MoveInv(q, std, r.ret);
      ReleaseInv(Pool(q.dev[std := q.dev[r.ret]], q.flags[std := q.flags[r.ret]], q.maxFd), r.ret);
    }
  }

  lemma ApplyInv(p: Pool, c: Call)
    requires Inv(p) && Legal(p, c)
    ensures Inv(Apply(p, c))
  {
    hide Inv;
    InvShaped(p);
    match c
    case OpenCall(target, flags, status) => OpenInv(p, target, flags, status);
    case CloseCall(fd, status) => ReleaseInv(p, fd);
    case IoctlCall(fd, req, status) => IoctlInv(p, fd, req, status);
    case FcntlCall(fd, cmd, flags) => FcntlInv(p, fd, cmd, flags);
    case RedirectCall(std, target, flags, status) => OpenFdInv(p, std, target, flags, status);
  }
}
