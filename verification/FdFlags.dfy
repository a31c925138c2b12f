/** What the calls do to the flags of a descriptor, bit by bit, and what callers see of them. */
module FdFlags {
  import opened Errno
  import opened Arithmetic
  import opened FdModel
  import opened FdTheorems

  // the bits of O_APPEND and O_NONBLOCK, of the device mark and of the lock
  const APPEND: bv6 := 3
  const NONBLOCK: bv6 := 14
  const DEVICE: bv6 := 30
  const LOCK: bv6 := 31

  lemma OpenBit(flags: bv32, device: bool, i: bv6)
    requires i < 32
    ensures Bit(OpenFlags(flags, device), i) <==> if i < DEVICE then Bit(flags, i) else i == DEVICE && device
  {
  }

  lemma FcntlBit(f: bv32, flags: bv32, i: bv6)
    requires i < 32
    ensures Bit(FcntlFlags(f, flags), i) <==> Bit(if i in {APPEND, NONBLOCK} then flags else f, i)
  {
  }

  lemma LockingBit(f: bv32, i: bv6)
    requires i < 32
    ensures Bit(LockFlags(f), i) <==> i == LOCK || Bit(f, i)
  {
  }

  lemma UnlockingBit(f: bv32, i: bv6)
    requires i < 32
    ensures Bit(UnlockFlags(f), i) <==> i != LOCK && Bit(f, i)
  {
  }

  lemma MarkBits(f: bv32)
    ensures Excl(f) <==> Bit(f, LOCK)
    ensures IsDev(f) <==> Bit(f, DEVICE)
  {
  }

  /** The flags that F_GETFL reports: the low 30 bits of the word. */
  function Reported(f: bv32): bv32 { f & 0x3fff_ffff }

  lemma ReportedBit(f: bv32, i: bv6)
    requires i < 32
    ensures Bit(Reported(f), i) <==> i < DEVICE && Bit(f, i)
  {
  }

  lemma VisibleIsReported(f: bv32)
    ensures VisibleFlags(f) == Reported(f) as int
  {
    SameWord(f);
  }

  lemma SameWord(f: bv32)
    ensures f & !FD_FLAGS_MASK == Reported(f)
  {
  }

  /** After a successful open F_GETFL reports the flags that the caller gave, but for the two top
      bits, for devices and files alike; the two top bits of the word are the device mark and no lock. */
  lemma OpenKeepsFlags(p: Pool, target: Dev, flags: bv32, status: int, arg: bv32, i: bv6)
    requires Inv(p) && Open(p, target, flags, status).ret >= 0 && i < 32
    ensures var r := Open(p, target, flags, status);
            && Shaped(r.pool) && r.ret < |r.pool.dev|
            && Fcntl(r.pool, r.ret, F_GETFL, arg) == Result(r.pool, Reported(flags) as int, 0)
            && (Bit(Reported(flags), i) <==> i < DEVICE && Bit(flags, i))
            && (Bit(r.pool.flags[r.ret], i) <==> if i < DEVICE then Bit(flags, i) else i == DEVICE && target.Device?)
  {
    hide Open, OpenFlags, VisibleFlags, Bit, Inv, Reported;
    InvShaped(p);
    OpenInv(p, target, flags, status);
    InvShaped(Open(p, target, flags, status).pool);
    OpenExactly(p, target, flags, status);
    OpenBit(flags, target.Device?, i);
    OpenVisible(flags, target.Device?);
    ReportedBit(flags, i);
  }

  lemma OpenVisible(flags: bv32, device: bool)
    ensures VisibleFlags(OpenFlags(flags, device)) == Reported(flags) as int
  {
    hide OpenFlags, Reported;
    OpenWord(flags, device);
  }

  lemma OpenWord(flags: bv32, device: bool)
    ensures OpenFlags(flags, device) & !FD_FLAGS_MASK == Reported(flags)
  {
  }

  /** fcntl(): F_SETFL takes O_APPEND and O_NONBLOCK from its argument and leaves all other bits, and
      all other descriptors; F_GETFL reports the flags; anything else is refused, as is a descriptor
      below zero, and changes nothing. */
  lemma FcntlExactly(p: Pool, fd: int, cmd: int, flags: bv32, i: bv6)
    requires Shaped(p) && fd < |p.dev| && i < 32
    ensures var r := Fcntl(p, fd, cmd, flags);
            && (fd < 0 ==> r == Result(p, -1, EBADFD))
            && (fd >= 0 && cmd == F_GETFL ==> r == Result(p, Reported(p.flags[fd]) as int, 0))
            && (fd >= 0 && cmd == F_SETFL ==>
                  && r.ret == 0 && r.errno == 0 && r.pool.dev == p.dev && r.pool.maxFd == p.maxFd
                  && |r.pool.flags| == |p.flags|
                  && (forall k :: 0 <= k < |p.flags| && k != fd ==> r.pool.flags[k] == p.flags[k])
                  && (Bit(r.pool.flags[fd], i) <==> Bit(if i in {APPEND, NONBLOCK} then flags else p.flags[fd], i)))
            && (fd >= 0 && cmd !in {F_GETFL, F_SETFL} ==> r == Result(p, -1, EINVAL))
  {
    hide FcntlFlags, VisibleFlags, Bit, Reported;
    if fd >= 0 {
      FcntlBit(p.flags[fd], flags, i);
      VisibleIsReported(p.flags[fd]);
    }
  }

  /** ioctl() on a device: TIOCNXCL clears the lock and a granted TIOCEXCL sets it, and neither changes
      another bit or another descriptor; a refused one changes nothing.  Every other request, and
      every one on a file, is the driver's.  A descriptor below zero is refused. */
  lemma IoctlExactly(p: Pool, fd: int, req: int, status: int, i: bv6)
    requires Inv(p) && fd < |p.dev| && i < 32
    ensures Shaped(p)
    ensures fd < 0 ==> Ioctl(p, fd, req, status) == Result(p, -EBADFD, EBADFD)
    ensures fd >= 0 ==>
            var r, locking := Ioctl(p, fd, req, status), IsDev(p.flags[fd]) && req in {TIOCEXCL, TIOCNXCL};
            && (!locking ==> r == Result(p, status, if status < 0 then -status else 0))
            && (locking && r.ret != 0 ==> req == TIOCEXCL && r == Result(p, -EACCES, EACCES))
            && (locking && r.ret == 0 ==>
                  && r.errno == 0 && r.pool.dev == p.dev && r.pool.maxFd == p.maxFd && |r.pool.flags| == |p.flags|
                  && (forall k :: 0 <= k < |p.flags| && k != fd ==> r.pool.flags[k] == p.flags[k])
                  && (Bit(r.pool.flags[fd], i) <==> if i == LOCK then req == TIOCEXCL else Bit(p.flags[fd], i)))
            && (locking && req == TIOCNXCL ==> r.ret == 0)
  {
    hide LockFlags, UnlockFlags, Bit, IsDev, SharedBelow;
    if fd >= 0 {
      LockingBit(p.flags[fd], i);
      UnlockingBit(p.flags[fd], i);
    }
  }

  /** close(): reports what the driver said, and frees the slot either way, unless it is that of a
      standard stream. */
  lemma CloseExactly(p: Pool, fd: int, status: int)
    requires Shaped(p) && fd < |p.dev|
    ensures var r := Close(p, fd, status);
            && (fd < 0 ==> r == Result(p, -1, EBADFD))
            && (fd >= 0 ==> r.ret == (if status < 0 then -1 else 0) && r.errno == (if status < 0 then -status else 0))
            && (fd <= 2 ==> r.pool == p)
            && (fd > 2 ==>
                  && |r.pool.dev| == |r.pool.flags| == |p.dev| && r.pool.maxFd == p.maxFd
                  && r.pool.dev[fd] == Null && r.pool.flags[fd] == 0
                  && forall k :: 0 <= k < |p.dev| && k != fd ==> r.pool.dev[k] == p.dev[k] && r.pool.flags[k] == p.flags[k])
  {
  }

  /** Redirecting a standard stream: if the open succeeds, the stream gets its device and flags, and
      the slot that the open took is free again; no other descriptor changes.  If it fails, no stream
      changes. */
  lemma RedirectExactly(p: Pool, std: nat, target: Dev, flags: bv32, status: int)
    requires Inv(p) && std < 3
    ensures var k, r, q := FirstFree(p.dev, 0), Open(p, target, flags, status), OpenFd(p, std, target, flags, status);
            && |q.dev| == |q.flags| == |p.dev| == |p.flags|
            && (r.ret >= 0 ==>
                  && q.dev[std] == target && q.flags[std] == r.pool.flags[k]
                  && k < |p.dev| && q.dev[k] == Null && q.flags[k] == 0
                  && forall i :: 0 <= i < |p.dev| && i != std && i != k ==> q.dev[i] == p.dev[i] && q.flags[i] == p.flags[i])
            && (r.ret < 0 ==> q.dev == p.dev && forall i :: 0 <= i < 3 ==> q.flags[i] == p.flags[i])
  {
    hide OpenFlags, Excl, IsDev, FileLocked, Open, Inv;
    InvShaped(p);
    FreeSlotsAreHigh(p);
    OpenExactly(p, target, flags, status);
    OpenInv(p, target, flags, status);
    InvShaped(Open(p, target, flags, status).pool);
    if Open(p, target, flags, status).ret < 0 {
      FailedOpen(p, target, flags, status);
    }
  }
}
