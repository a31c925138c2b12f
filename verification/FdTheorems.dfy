/** What holds of the descriptor pool over every run of open, close, ioctl, fcntl and redirection. */
module FdTheorems {
  import opened Errno
  import opened Arithmetic
  import opened FdModel

  // -----------------------------------------------------------------------------------------
  // open
  // -----------------------------------------------------------------------------------------

  /** A descriptor other than k, anywhere in the pool, holds the lock on a device. */
  predicate LockedElsewhere(p: Pool, k: nat, dev: Dev)
    requires Shaped(p)
  {
    exists i :: 0 <= i < |p.dev| && i != k && p.dev[i] == dev && Excl(p.flags[i])
  }

  /** The scan up to the high-water mark sees what a scan of the whole pool would see. */
  lemma MarkScanIsFullScan(p: Pool, k: nat, target: Dev, flags: bv32)
    requires Inv(p) && 3 <= k < |p.dev| && p.dev[k] == Null && target != Null
    ensures var q := Taken(p, k, target, flags);
            && 0 <= q.maxFd < |q.dev|
            && (forall i :: q.maxFd < i < |q.dev| ==> q.dev[i] == Null)
            && (FileLocked(q, k) <==> LockedElsewhere(p, k, target))
  {
    hide Excl, IsDev, OpenFlags;
    var q := Taken(p, k, target, flags);
    if LockedElsewhere(p, k, target) {
      var i :| 0 <= i < |p.dev| && i != k && p.dev[i] == target && Excl(p.flags[i]);
      assert q.dev[i] == q.dev[k] && Excl(q.flags[i]) && i <= q.maxFd;
    }
    if FileLocked(q, k) {
      var i :| 0 <= i <= q.maxFd && i != k && q.dev[i] == q.dev[k] && Excl(q.flags[i]);
      assert p.dev[i] == target && Excl(p.flags[i]);
    }
  }

  /** An open succeeds exactly when the name stands for something, a slot is free, no descriptor
      in the whole pool has a lock on the device, and the driver agrees.  The descriptor was
      free, is none of the standard streams, and everything else stays as it was. */
  lemma OpenExactly(p: Pool, target: Dev, flags: bv32, status: int)
    requires Inv(p)
    ensures var k, r := FirstFree(p.dev, 0), Open(p, target, flags, status);
            && (r.ret >= 0 <==> target != Null && k < |p.dev| && status >= 0 &&
                                !(target.Device? && LockedElsewhere(p, k, target)))
            && (r.ret >= 0 ==>
                  && r.ret == k >= 3 && p.dev[k] == Null && r.errno == 0
                  && r.pool.dev == p.dev[k := target] && r.pool.flags == p.flags[k := OpenFlags(flags, target.Device?)]
                  && r.pool.maxFd == Max(p.maxFd, k)
                  && (target.Device? ==> !LockedElsewhere(r.pool, k, target)))
  {
    hide Inv, OpenFlags, Excl, Release, FileLocked;
    FreeSlotsAreHigh(p);
    var k := FirstFree(p.dev, 0);
    if target != Null && k < |p.dev| {
      MarkScanIsFullScan(p, k, target, flags);
      var q := Taken(p, k, target, flags);
      SameLocks(p, q, k, target);
    }
  }

  lemma SameLocks(p: Pool, q: Pool, k: nat, dev: Dev)
    requires Shaped(p) && Shaped(q) && |p.dev| == |q.dev| > k
    requires q.dev == p.dev[k := q.dev[k]] && q.flags == p.flags[k := q.flags[k]]
    ensures LockedElsewhere(p, k, dev) <==> LockedElsewhere(q, k, dev)
  {
    hide Excl;
    if LockedElsewhere(p, k, dev) {
      var i :| 0 <= i < |p.dev| && i != k && p.dev[i] == dev && Excl(p.flags[i]);
      assert q.dev[i] == dev && Excl(q.flags[i]);
    }
    if LockedElsewhere(q, k, dev) {
      var i :| 0 <= i < |q.dev| && i != k && q.dev[i] == dev && Excl(q.flags[i]);
      assert p.dev[i] == dev && Excl(p.flags[i]);
    }
  }

  /** Which error an open reports. */
  function OpenError(p: Pool, target: Dev, status: int): int
    requires Shaped(p)
  {
    var k := FirstFree(p.dev, 0);
    if target == Null then ENODEV
    else if k == |p.dev| then EMFILE
    else if target.Device? && LockedElsewhere(p, k, target) then EACCES
    else -status
  }

  /** An open that fails leaves the devices of all slots alone.  It leaves the flags alone too,
      exactly if the slot it tried had no flags: fcntl() writes flags to free slots. */
  lemma FailedOpen(p: Pool, target: Dev, flags: bv32, status: int)
    requires Inv(p) && Open(p, target, flags, status).ret < 0
    ensures var k, r := FirstFree(p.dev, 0), Open(p, target, flags, status);
            var tried := target != Null && k < |p.dev|;
            && r.ret == -1 && r.errno == OpenError(p, target, status)
            && r.pool.dev == p.dev
            && (r.pool.flags == p.flags <==> tried ==> p.flags[k] == 0)
            && (tried ==> r.pool.flags == p.flags[k := 0])
  {
    hide Inv, OpenFlags, Excl, FileLocked;
    FreeSlotsAreHigh(p);
    var k := FirstFree(p.dev, 0);
    if target != Null && k < |p.dev| {
      MarkScanIsFullScan(p, k, target, flags);
      RefusedRelease(p, k, target, flags);
      assert p.flags[k := 0][k] == 0;
    }
  }

  // -----------------------------------------------------------------------------------------
  // locks
  // -----------------------------------------------------------------------------------------

  /** Some other descriptor, anywhere in the pool, is open on the device of slot fd. */
  predicate Shared(p: Pool, fd: nat)
    requires Shaped(p) && fd < |p.dev|
  {
    SharedBelow(p, fd, |p.dev|)
  }

  /** The slot at the high-water mark, which the lock does not look at. */
  predicate SharedAtMark(p: Pool, fd: nat)
    requires Shaped(p) && fd < |p.dev|
  {
    0 <= p.maxFd != fd && p.dev[p.maxFd] == p.dev[fd]
  }

  /** A lock is granted exactly if no descriptor but the one at the high-water mark shares the
      device.  So it is granted on a device that nobody else has open, as documented, except that
      the slot at the mark is overlooked, and exactly there. */
  lemma LockExactly(p: Pool, fd: nat, status: int)
    requires Inv(p) && fd < |p.dev| && IsDev(p.flags[fd])
    ensures var granted := Ioctl(p, fd, TIOCEXCL, status).ret == 0;
            && (granted <==> forall i :: 0 <= i < |p.dev| && i != fd && p.dev[i] == p.dev[fd] ==> i == p.maxFd)
            && (!Shared(p, fd) ==> granted)
            && (granted ==> (Shared(p, fd) <==> SharedAtMark(p, fd)))
            && (Ioctl(p, fd, TIOCEXCL, status).ret < 0 <==> !granted)
  {
    hide Excl, IsDev, LockFlags;
    if !SharedBelow(p, fd, p.maxFd) {
      assert forall i :: 0 <= i < |p.dev| && i != fd && p.dev[i] == p.dev[fd] ==> i == p.maxFd;
    }
    if SharedAtMark(p, fd) {
      assert p.dev[p.maxFd] == p.dev[fd];
    }
  }

  /** With the bound that open() uses, a granted lock would mean that nobody else is there. */
  lemma InclusiveBoundWouldDo(p: Pool, fd: nat)
    requires Inv(p) && fd < |p.dev| && IsDev(p.flags[fd])
    ensures SharedBelow(p, fd, p.maxFd + 1) <==> Shared(p, fd)
  {
    hide Excl, IsDev;
    if Shared(p, fd) {
      var i :| 0 <= i < |p.dev| && i != fd && p.dev[i] == p.dev[fd];
      assert i <= p.maxFd;
    }
  }

  lemma OpenUnlocked(p: Pool, dev: Dev, flags: bv32, k: nat)
    requires Inv(p) && dev.Device? && k < |p.dev| && FirstFree(p.dev, 0) == k
    requires forall i :: 0 <= i < |p.dev| ==> !Excl(p.flags[i])
    ensures var q := Open(p, dev, flags, 0).pool;
            && Inv(q) && q.dev == p.dev[k := dev] && q.maxFd == Max(p.maxFd, k)
            && q.flags == p.flags[k := OpenFlags(flags, true)] && IsDev(q.flags[k])
            && forall i :: 0 <= i < |q.dev| ==> !Excl(q.flags[i])
  {
    hide Excl, IsDev, OpenFlags, Inv;
    InvShaped(p);
    OpenBits(flags, true);
    OpenExactly(p, dev, flags, 0);
    OpenInv(p, dev, flags, 0);
  }

  /** Two opens of one device, then a lock on the first: granted. */
  lemma SharedLockGranted(flags: bv32)
    ensures var p0 := Init(5);
            var p1 := Open(p0, Device(1), flags, 0).pool;
            var p2 := Open(p1, Device(1), flags, 0).pool;
            && p2.dev[3] == Device(1) && p2.dev[4] == Device(1)
            && Ioctl(p2, 3, TIOCEXCL, 0).ret == 0 && Shared(p2, 3)
  {
    var p0 := Init(5);
    InitInv(5);
    NoBits();
    hide Excl, IsDev, Open, Ioctl, Inv, FirstFree;
    FirstFreeAt(p0.dev, 3);
    OpenUnlocked(p0, Device(1), flags, 3);
    var p1 := Open(p0, Device(1), flags, 0).pool;
    InvShaped(p1);
    FirstFreeAt(p1.dev, 4);
    OpenUnlocked(p1, Device(1), flags, 4);
    var p2 := Open(p1, Device(1), flags, 0).pool;
    InvShaped(p2);
    LockExactly(p2, 3, 0);
    assert p2.dev[4] == p2.dev[3];
  }

  lemma FirstFreeAt(dev: seq<Dev>, k: nat)
    requires k < |dev| && dev[k] == Null && forall i :: 0 <= i < k ==> dev[i] != Null
    ensures FirstFree(dev, 0) == k
  {
    var f := FirstFree(dev, 0);
    assert f <= k;
  }

  lemma LowestHolds(p: Pool, i: nat, j: nat)
    requires Inv(p) && i < |p.dev| && j < |p.dev| && p.dev[i] == p.dev[j] && Excl(p.flags[i]) && Excl(p.flags[j])
    ensures i == j
  {
    hide Excl, IsDev;
    assert !SharesLower(p, i) && !SharesLower(p, j);
  }

  /** Closing a descriptor drops its lock, unless it is a standard stream. */
  lemma CloseDropsLock(p: Pool, fd: nat, status: int)
    requires Inv(p) && fd < |p.dev| && Excl(p.flags[fd])
    ensures var q := Close(p, fd, status).pool; Excl(q.flags[fd]) <==> fd <= 2
  {
    NoBits();
  }

  // -----------------------------------------------------------------------------------------
  // whole runs
  // -----------------------------------------------------------------------------------------

  ghost predicate IsRun(p: Pool, calls: seq<Call>)
    requires Shaped(p)
    decreases |calls|
  {
    calls == [] || (Legal(p, calls[0]) && IsRun(Apply(p, calls[0]), calls[1..]))
  }

  ghost function After(p: Pool, calls: seq<Call>): (q: Pool)
    requires Shaped(p) && IsRun(p, calls)
    ensures Shaped(q)
    decreases |calls|
  {
    if calls == [] then p else After(Apply(p, calls[0]), calls[1..])
  }

  lemma {:induction false} RunInv(p: Pool, calls: seq<Call>)
    requires Inv(p) && IsRun(p, calls)
    ensures Inv(After(p, calls))
    decreases |calls|
  {
    if calls != [] {
      ApplyInv(p, calls[0]);
      RunInv(Apply(p, calls[0]), calls[1..]);
    }
  }

  /** For all that a lock can be granted too freely, no two descriptors ever hold the lock on
      one device, whatever calls are made. */
  lemma OneHolder(size: nat, calls: seq<Call>, i: nat, j: nat)
    requires size >= 3 && IsRun(Init(size), calls)
    ensures var p := After(Init(size), calls);
            i < |p.dev| && j < |p.dev| && p.dev[i] == p.dev[j] && Excl(p.flags[i]) && Excl(p.flags[j]) ==> i == j
  {
    InitInv(size);
    RunInv(Init(size), calls);
    var p := After(Init(size), calls);
    if i < |p.dev| && j < |p.dev| && p.dev[i] == p.dev[j] && Excl(p.flags[i]) && Excl(p.flags[j]) {
      LowestHolds(p, i, j);
    }
  }

  /** The call does not unlock descriptor h, and does not close it or, if h is a standard stream,
      redirect it.  Closing a standard stream counts as sparing it. */
  predicate Spares(c: Call, h: nat) {
    match c
    case CloseCall(fd, _) => fd != h || h <= 2
    case IoctlCall(fd, req, _) => !(fd == h && req == TIOCNXCL)
    case RedirectCall(std, _, _, _) => std != h
    case _ => true
  }

  predicate Holds(p: Pool, h: nat, dev: Dev)
    requires Shaped(p)
  {
    h < |p.dev| && p.dev[h] == dev && Excl(p.flags[h])
  }

  lemma KeepsHolding(p: Pool, c: Call, h: nat, dev: Dev)
    requires Inv(p) && Legal(p, c) && Spares(c, h) && dev != Null && Holds(p, h, dev)
    ensures Shaped(Apply(p, c)) && Holds(Apply(p, c), h, dev)
  {
    hide Excl, IsDev, LockFlags, UnlockFlags, OpenFlags, FcntlFlags, VisibleFlags, FileLocked, SharedBelow;
    LockBit(p.flags[h]);
    match c
    case FcntlCall(fd, cmd, flags) =>
      FcntlBits(p.flags[h], flags);
    case RedirectCall(std, target, flags, status) =>
      OpenKeepsOthers(p, target, flags, status, h);
    case OpenCall(target, flags, status) =>
      OpenKeepsOthers(p, target, flags, status, h);
    case _ =>
  }

  lemma OpenKeepsOthers(p: Pool, target: Dev, flags: bv32, status: int, h: nat)
    requires Inv(p) && h < |p.dev| && p.dev[h] != Null
    ensures var r := Open(p, target, flags, status);
            && Shaped(r.pool) && |r.pool.dev| == |p.dev| && r.ret != h
            && r.pool.dev[h] == p.dev[h] && r.pool.flags[h] == p.flags[h]
  {
    hide Excl, IsDev, OpenFlags, FileLocked;
    FreeSlotsAreHigh(p);
  }

  /** While a descriptor holds the lock on a device, no open of that device succeeds, whatever calls
      are made in between, until it is unlocked or closed; and for a standard stream, even after
      it has been closed. */
  lemma {:induction false} LockHoldsOverRuns(p: Pool, calls: seq<Call>, h: nat, dev: Dev, flags: bv32, status: int)
    requires Inv(p) && IsRun(p, calls) && dev.Device? && Holds(p, h, dev)
    requires forall c :: c in calls ==> Spares(c, h)
    ensures var q := After(p, calls); Inv(q) && Holds(q, h, dev) && Open(q, dev, flags, status).ret < 0
    decreases |calls|
  {
    hide Inv, Apply, Legal, Spares, Open, Excl;
    InvShaped(p);
    if calls == [] {
      OpenExactly(p, dev, flags, status);
      LockedFrom(p, h, dev);
    } else {
      KeepsHolding(p, calls[0], h, dev);
      ApplyInv(p, calls[0]);
      LockHoldsOverRuns(Apply(p, calls[0]), calls[1..], h, dev, flags, status);
    }
  }

  lemma LockedFrom(p: Pool, h: nat, dev: Dev)
    requires Inv(p) && dev != Null && Holds(p, h, dev)
    ensures Shaped(p)
    ensures FirstFree(p.dev, 0) < |p.dev| ==> LockedElsewhere(p, FirstFree(p.dev, 0), dev)
  {
    hide Excl, IsDev;
    var k := FirstFree(p.dev, 0);
    if k < |p.dev| {
      assert h != k && p.dev[h] == dev && Excl(p.flags[h]);
    }
  }

  // -----------------------------------------------------------------------------------------
  // runs that break what the documentation says
  // -----------------------------------------------------------------------------------------

  /** Standard output redirected to a device and locked. */
  lemma StreamLocked(flags: bv32)
    ensures var p1 := OpenFd(Init(5), 1, Device(1), flags, 0);
            && Shaped(p1) && |p1.dev| == 5
            && var r := Ioctl(p1, 1, TIOCEXCL, 0);
               r.ret == 0 && Inv(r.pool) && |r.pool.dev| == 5 && Holds(r.pool, 1, Device(1))
  {
    var p0 := Init(5);
    InitInv(5);
    NoBits();
    OpenBits(flags, true);
    OpenFdInv(p0, 1, Device(1), flags, 0);
    hide Excl, IsDev, OpenFlags, LockFlags, Open, Inv, FirstFree;
    FirstFreeAt(p0.dev, 3);
    OpenUnlocked(p0, Device(1), flags, 3);
    OpenExactly(p0, Device(1), flags, 0);
    assert !LockedElsewhere(p0, 3, Device(1));
    var p1 := OpenFd(p0, 1, Device(1), flags, 0);
    assert p1.dev == [Device(0), Device(1), Device(0), Null, Null] && p1.maxFd == 3;
    assert p1.flags[1] == OpenFlags(flags, true);
    LockExactly(p1, 1, 0);
    LockBit(p1.flags[1]);
    IoctlInv(p1, 1, TIOCEXCL, 0);
  }

  /** After the stream has been closed the device still cannot be opened. */
  lemma ClosedStreamLocksOut(flags: bv32, status: int)
    ensures var calls := [RedirectCall(1, Device(1), flags, 0), IoctlCall(1, TIOCEXCL, 0), CloseCall(1, 0)];
            && IsRun(Init(5), calls)
            && var p := After(Init(5), calls);
               Holds(p, 1, Device(1)) && Open(p, Device(1), flags, status).ret < 0
  {
    StreamLocked(flags);
    var calls := [RedirectCall(1, Device(1), flags, 0), IoctlCall(1, TIOCEXCL, 0), CloseCall(1, 0)];
    var p1 := OpenFd(Init(5), 1, Device(1), flags, 0);
    var p2 := Ioctl(p1, 1, TIOCEXCL, 0).pool;
    hide Excl, IsDev, OpenFlags, LockFlags, Open, Inv, FirstFree, OpenFd;
    assert p2.dev == p1.dev;
    assert Legal(p2, calls[2]) && IsRun(Apply(p2, calls[2]), []);
    assert calls[2..] == [calls[2]] && [calls[2]][1..] == [];
    assert calls[1..][1..] == calls[2..];
    assert IsRun(p2, calls[2..]) && IsRun(p1, calls[1..]);
    LockHoldsOverRuns(p2, calls[2..], 1, Device(1), flags, status);
    assert After(Init(5), calls) == After(p2, calls[2..]);
  }

  /** Flags set on a free slot are lost when an open fails in it. */
  lemma FailedOpenLosesFlags(flags: bv32)
    ensures var calls := [FcntlCall(3, F_SETFL, 0x4000)];
            && IsRun(Init(5), calls)
            && var p := After(Init(5), calls);
               var r := Open(p, Device(1), flags, -ENODEV);
               r.ret < 0 && |p.flags| == 5 && p.flags[3] == 0x4000 && r.pool.flags != p.flags
  {
    var p0 := Init(5);
    var calls := [FcntlCall(3, F_SETFL, 0x4000)];
    InitInv(5);
    FcntlInv(p0, 3, F_SETFL, 0x4000);
    var p := Fcntl(p0, 3, F_SETFL, 0x4000).pool;
    InvShaped(p);
    assert p.flags[3] == 0x4000 by { SetNonblock(); }
    hide Excl, IsDev, OpenFlags, FcntlFlags, Open, Inv, FirstFree;
    assert calls[1..] == [] && IsRun(p, []);
    FirstFreeAt(p.dev, 3);
    OpenExactly(p, Device(1), flags, -ENODEV);
    FailedOpen(p, Device(1), flags, -ENODEV);
  }

  lemma SetNonblock()
    ensures FcntlFlags(0, 0x4000) == 0x4000
  {
  }
}
