/** The descriptor pool as it is coded: arrays updated in place and the scans over them. */
module FdPool {
  import opened Errno
  import opened Arithmetic
  import opened FdModel

  class Descriptors {
    const dev: array<Dev>
    const flags: array<bv32>
    var maxFd: int
    var errno: int

    ghost predicate Valid()
      reads this
    {
      dev.Length == flags.Length >= 3 && -1 <= maxFd < dev.Length && (dev as object) != flags
    }

    ghost function View(): (p: Pool)
      reads this, dev, flags
      requires Valid()
      ensures Shaped(p) && |p.dev| == dev.Length
    {
      Pool(dev[..], flags[..], maxFd)
    }

    /** errno after a call: zero leaves it alone. */
    function Errno(code: int): int
      reads this
    {
      if code == 0 then errno else code
    }

    constructor (size: nat)
      requires size >= 3
      ensures Valid() && View() == Init(size) && fresh(dev) && fresh(flags)
    {
      dev := new Dev[size](i => if i < 3 then Device(0) else Null);
      flags := new bv32[size](i => 0);
      maxFd, errno := -1, 0;
      new;
      assert dev[..] == Init(size).dev && flags[..] == Init(size).flags;
    }

    /** Takes the first free slot and raises the high-water mark. */
    method GetFd(target: Dev) returns (rc: int)
      requires Valid()
      modifies `maxFd, dev
      ensures Valid() && flags[..] == old(flags[..])
      ensures var k := old(FirstFree(dev[..], 0));
              if k == dev.Length then rc == -EMFILE && View() == old(View())
              else rc == k && dev[..] == old(dev[..])[k := target] && maxFd == Max(old(maxFd), k)
    {
      rc := -EMFILE;
      var i := 0;
      while i < dev.Length
        invariant 0 <= i <= dev.Length && rc == -EMFILE && View() == old(View())
        invariant FirstFree(dev[..], 0) == FirstFree(dev[..], i)
      {
        if dev[i] == Null {
          dev[i] := target;
          assert dev[..] == old(dev[..])[i := target];
          if i > maxFd {
            maxFd := i;
          }
          rc := i;
          return;
        }
        i := i + 1;
      }
    }

    /** Everything but the standard streams can go back to the pool. */
    method ReleaseFd(fd: int)
      requires Valid() && fd < dev.Length
      modifies dev, flags
      ensures Valid() && View() == Release(old(View()), fd)
    {
      if fd > 2 {
        flags[fd] := 0;
        dev[fd] := Null;
        assert flags[..] == old(flags[..])[fd := 0] && dev[..] == old(dev[..])[fd := Null];
      }
    }

    /** Marks the slot as a device and looks for a lock on it.  The scan compares as unsigned, so
        it needs a mark that is not -1; the slot that was just taken has raised it. */
    method IsFileLocked(fd: nat) returns (status: int)
      requires Valid() && fd < dev.Length && maxFd >= 0
      modifies flags
      ensures dev[..] == old(dev[..]) && flags[..] == old(flags[..])[fd := old(flags[fd]) | ALT_FD_DEV]
      ensures status == if FileLocked(View(), fd) then -EACCES else 0
    {
      flags[fd] := flags[fd] | ALT_FD_DEV;
      assert flags[..] == old(flags[..])[fd := old(flags[fd]) | ALT_FD_DEV];
      ghost var p := View();
      hide Excl;
      var i := 0;
      while i <= maxFd
        invariant 0 <= i <= maxFd + 1 && View() == p
        invariant forall j :: 0 <= j < i && j != fd && p.dev[j] == p.dev[fd] ==> !Excl(p.flags[j])
      {
        if dev[i] == dev[fd] && Excl(flags[i]) && i != fd {
          assert p.dev[i] == p.dev[fd] && Excl(p.flags[i]);
          return -EACCES;
        }
        assert p.dev[i] == dev[i] && p.flags[i] == flags[i];
        i := i + 1;
      }
      return 0;
    }

    method OpenFile(target: Dev, openFlags: bv32, driver: int) returns (ret: int)
      requires Valid()
      modifies this, dev, flags
      ensures Valid()
      ensures var r := Open(old(View()), target, openFlags, driver);
              View() == r.pool && ret == r.ret && errno == old(Errno(r.errno))
    {
      DeviceFlags(openFlags);
      hide OpenFlags, Excl, IsDev, FileLocked;
      var index, status := -1, -ENODEV;
      ghost var p := View();
      if target != Null {
        index := GetFd(target);
        if index < 0 {
          status := index;
        } else {
          flags[index] := OpenFlags(openFlags, false);
          status := 0;
          if target.Device? {
            status := IsFileLocked(index);
          }
          assert View() == Taken(p, index, target, openFlags);
          if status >= 0 {
            status := driver;
          }
        }
      }
      if status < 0 {
        ReleaseFd(index);
        errno := -status;
        return -1;
      }
      return index;
    }

    method CloseFile(fd: int, driver: int) returns (ret: int)
      requires Valid() && fd < dev.Length && (fd >= 0 ==> dev[fd] != Null)
      modifies this, dev, flags
      ensures Valid()
      ensures var r := Close(old(View()), fd, driver);
              View() == r.pool && ret == r.ret && errno == old(Errno(r.errno))
    {
      if fd >= 0 {
        ReleaseFd(fd);
        if driver < 0 {
          errno := -driver;
          return -1;
        }
        return 0;
      }
      errno := EBADFD;
      return -1;
    }

    /** The scan of the lock stops short of the mark. */
    method FdLock(fd: nat) returns (rc: int)
      requires Valid() && fd < dev.Length
      modifies flags
      ensures Valid()
      ensures var p := old(View());
              if SharedBelow(p, fd, p.maxFd) then rc == -EACCES && View() == p
              else rc == 0 && View() == WithFlags(p, fd, LockFlags(p.flags[fd]))
    {
      ghost var p := View();
      var i := 0;
      while i < maxFd
        invariant 0 <= i && (i <= maxFd || i == 0) && View() == p
        invariant forall j :: 0 <= j < i && j != fd ==> p.dev[j] != p.dev[fd]
      {
        if i != fd && dev[i] == dev[fd] {
          assert p.dev[i] == p.dev[fd];
          return -EACCES;
        }
        assert p.dev[i] == dev[i];
        i := i + 1;
      }
      flags[fd] := LockFlags(flags[fd]);
      assert flags[..] == p.flags[fd := LockFlags(p.flags[fd])];
      return 0;
    }

    method FdUnlock(fd: nat) returns (rc: int)
      requires Valid() && fd < dev.Length
      modifies flags
      ensures Valid() && rc == 0
      ensures var p := old(View()); View() == WithFlags(p, fd, UnlockFlags(p.flags[fd]))
    {
      flags[fd] := UnlockFlags(flags[fd]);
      assert flags[..] == old(flags[..])[fd := UnlockFlags(old(flags[fd]))];
      return 0;
    }

    method IoctlFile(fd: int, req: int, driver: int) returns (ret: int)
      requires Valid() && fd < dev.Length && (fd >= 0 ==> dev[fd] != Null)
      modifies this, flags
      ensures Valid()
      ensures var r := Ioctl(old(View()), fd, req, driver);
              View() == r.pool && ret == r.ret && errno == old(Errno(r.errno))
    {
      hide IsDev, LockFlags, UnlockFlags, SharedBelow;
      if fd >= 0 {
        if IsDev(flags[fd]) && req == TIOCEXCL {
          ret := FdLock(fd);
        } else if IsDev(flags[fd]) && req == TIOCNXCL {
          ret := FdUnlock(fd);
        } else {
          ret := driver;
        }
      } else {
        ret := -EBADFD;
      }
      if ret < 0 {
        errno := -ret;
      }
    }

    method FcntlFile(fd: int, cmd: int, newFlags: bv32) returns (ret: int)
      requires Valid() && fd < dev.Length
      modifies this, flags
      ensures Valid()
      ensures var r := Fcntl(old(View()), fd, cmd, newFlags);
              View() == r.pool && ret == r.ret && errno == old(Errno(r.errno))
    {
      hide VisibleFlags, FcntlFlags;
      if fd >= 0 {
        if cmd == F_GETFL {
          return VisibleFlags(flags[fd]);
        } else if cmd == F_SETFL {
          flags[fd] := FcntlFlags(flags[fd], newFlags);
          assert flags[..] == old(flags[..])[fd := FcntlFlags(old(flags[fd]), newFlags)];
          return 0;
        } else {
          errno := EINVAL;
          return -1;
        }
      }
      errno := EBADFD;
      return -1;
    }

    method MoveSlot(std: nat, fd: nat)
      requires Valid() && std < dev.Length && fd < dev.Length
      modifies dev, flags
      ensures Valid()
      ensures var q := old(View()); View() == Pool(q.dev[std := q.dev[fd]], q.flags[std := q.flags[fd]], q.maxFd)
    {
      dev[std] := dev[fd];
      flags[std] := flags[fd];
      assert dev[..] == old(dev[..])[std := old(dev[fd])] && flags[..] == old(flags[..])[std := old(flags[fd])];
    }

    /** The new descriptor is copied over the stream's slot, and given back. */
    method RedirectStream(std: nat, target: Dev, openFlags: bv32, driver: int)
      requires Valid() && std < 3
      modifies this, dev, flags
      ensures Valid() && View() == OpenFd(old(View()), std, target, openFlags, driver)
    {
      hide OpenFlags, FileLocked, Taken;
      var fd := OpenFile(target, openFlags, driver);
      if fd >= 0 {
        MoveSlot(std, fd);
        ReleaseFd(fd);
      }
    }

    /** Standard output, input and error, in that order. */
    method IoRedirect(targets: seq<Dev>, drivers: seq<int>, wronly: bv32, rdonly: bv32)
      requires Valid() && |targets| == |drivers| == 3
      modifies this, dev, flags
      ensures Valid()
      ensures var p1 := OpenFd(old(View()), 1, targets[0], wronly, drivers[0]);
              && Shaped(p1)
              && var p2 := OpenFd(p1, 0, targets[1], rdonly, drivers[1]);
                 Shaped(p2) && View() == OpenFd(p2, 2, targets[2], wronly, drivers[2])
    {
      hide OpenFd;
      RedirectStream(1, targets[0], wronly, drivers[0]);
      RedirectStream(0, targets[1], rdonly, drivers[1]);
      RedirectStream(2, targets[2], wronly, drivers[2]);
    }
  }

  lemma DeviceFlags(f: bv32)
    ensures OpenFlags(f, false) | ALT_FD_DEV == OpenFlags(f, true)
  {
  }
}
