/** The descriptor pool as the program keeps it: an array of entries and the high-water
    mark, updated in place.  Every call is the step of the same name in FdTable. */
module FdPool {
  import opened FdTable
  import opened Words
  import FdRuns

  const O_RDONLY: bv32 := 0
  const O_WRONLY: bv32 := 1

  class Pool {
    const list: array<Fd>
    var max: int

    ghost function Value(): Table
      reads this, list
    {
      Table(list[..], max)
    }

    ghost predicate Valid()
      reads this, list
    {
      Inv(Value())
    }

    constructor (size: nat)
      requires size >= 3
      ensures Valid() && Value() == Initial(size) && fresh(list)
    {
      list := new Fd[size](i => Fd(if i <= 2 then Some(NULL_DEV) else None, 0, 0));
      max := -1;
      new;
      InitialInv(size);
      assert list[..] == Initial(size).list;
    }

    /** alt_get_fd */
    method GetFd(dev: Dev) returns (r: Outcome)
      modifies `max, list
      ensures (Value(), r) == Allocated(old(Value()), dev)
    {
      r := Failed(EMFILE);
      var i := 0;
      while i < list.Length
        invariant 0 <= i <= list.Length && FirstFree(list[..], 0) == FirstFree(list[..], i)
        invariant Value() == old(Value()) && r == Failed(EMFILE)
      {
        if list[i].dev.None? {
          list[i] := list[i].(dev := Some(dev));
          if i > max {
            max := i;
          }
          r := Index(i);
          return;
        }
        i := i + 1;
      }
    }

    /** alt_release_fd */
    method ReleaseFd(fd: int)
      requires fd < list.Length
      modifies list
      ensures Value() == if fd < 0 then old(Value()) else Released(old(Value()), fd)
    {
      if fd > 2 {
        list[fd] := list[fd].(flags := 0);
        list[fd] := list[fd].(dev := None);
      }
    }

    /** alt_file_locked */
    method FileLocked(fd: nat) returns (locked: bool)
      requires fd < list.Length && 0 <= max < list.Length
      modifies list
      ensures Value()
              == old(Value()).(list := old(list[..])[fd := old(list[fd]).(flags := MarkDev(old(list[fd].flags)))])
      ensures locked == LockedFrom(Value(), fd, 0)
    {
      list[fd] := list[fd].(flags := MarkDev(list[fd].flags));
      hide MarkDev, Excl;
      ghost var marked := list[..];
      var i := 0;
      while i <= max
        invariant 0 <= i <= max + 1 && list[..] == marked && max == old(max)
        invariant LockedFrom(Value(), fd, 0) == LockedFrom(Value(), fd, i)
      {
        if list[i].dev == list[fd].dev && Excl(list[i].flags) && i != fd {
          assert Value().list[i] == list[i];
          return true;
        }
        assert Value().list[i] == list[i] && Value().list[fd] == list[fd];
        i := i + 1;
      }
      return false;
    }

    /** The part of open() from the allocated entry to the driver's answer. */
    method OpenEntry(index: nat, q: Request, ghost before: Table) returns (r: Outcome)
      requires q.dev.Some? && index == FirstFree(before.list, 0) < |before.list| == list.Length
      requires Value() == Allocated(before, q.dev.value).0 && 0 <= max < list.Length
      modifies list
      ensures var refused := q.dev.value.Device? && LockedFrom(Ready(before, q), index, 0);
        && Value() == (if refused then Ready(before, q) else DriverOpened(Ready(before, q), index, q.priv))
        && r == if refused then Failed(EACCES) else if q.verdict < 0 then Failed(Driver(-q.verdict)) else Index(index)
    {
      hide LockedFrom, FirstFree, Plain, MarkDev;
      list[index] := list[index].(flags := Plain(q.flags));
      var isafs, locked := q.dev.value.FileSystem?, false;
      if !isafs {
        locked := FileLocked(index);
      }
      assert Value() == Ready(before, q);
      if locked {
        return Failed(EACCES);
      }
      list[index] := list[index].(priv := q.priv);
      return if q.verdict < 0 then Failed(Driver(-q.verdict)) else Index(index);
    }

    /** open(): `q.dev` is what the name lookup found, the rest is the driver's part. */
    method Open(q: Request) returns (r: Outcome)
      requires Valid()
      modifies `max, list
      ensures Valid() && Value() == After(old(Value()), Call.Open(q)) && r == Opened(old(Value()), q).1
    {
      FdRuns.OpenKeepsInv(Value(), q);
      assert max < list.Length;
      hide Inv, LockedFrom, FirstFree, OpenFlags;
      r := Failed(ENODEV);
      var index: int := -1;
      if q.dev.Some? {
        r := GetFd(q.dev.value);
        if r.Index? {
          index := r.index;
          r := OpenEntry(index, q, old(Value()));
        }
      }
      if r.Failed? {
        ReleaseFd(index);
      }
    }

    /** close() of a descriptor that is bound, or negative. */
    method Close(fd: int, verdict: int) returns (r: Outcome)
      requires Valid() && Legal(Value(), Call.Close(fd, verdict))
      modifies list
      ensures Valid() && Value() == After(old(Value()), Call.Close(fd, verdict))
      ensures r == Closed(old(Value()), fd, verdict).1
    {
      FdRuns.CallKeepsInv(Value(), Call.Close(fd, verdict));
      hide Inv;
      if fd < 0 {
        return Failed(EBADFD);
      }
      ReleaseFd(fd);
      if verdict < 0 {
        return Failed(Driver(-verdict));
      }
      return Ok;
    }

    /** The update of F_SETFL. */
    method UpdateFlags(file: nat, arg: bv32)
      requires file < list.Length
      modifies list
      ensures list[..] == old(list[..])[file := old(list[file]).(flags := SetFlags(old(list[file].flags), arg))]
    {
      list[file] := list[file].(flags := list[file].flags & !ALT_FCNTL_FLAGS_MASK);
      list[file] := list[file].(flags := list[file].flags | (arg & ALT_FCNTL_FLAGS_MASK));
    }

    /** fcntl() */
    method Fcntl(file: int, c: Command) returns (r: Outcome)
      requires Valid() && Legal(Value(), Call.Fcntl(file, c))
      modifies list
      ensures Valid() && Value() == After(old(Value()), Call.Fcntl(file, c))
      ensures r == Controlled(old(Value()), file, c).1
    {
      FdRuns.CallKeepsInv(Value(), Call.Fcntl(file, c));
      hide Inv, SetFlags;
      if file < 0 {
        return Failed(EBADFD);
      }
      match c
      case GetFl =>
        return Flags(list[file].flags & !ALT_FD_FLAGS_MASK);
      case SetFl(arg) =>
        UpdateFlags(file, arg);
        return Ok;
      case OtherCommand =>
        return Failed(EINVAL);
    }

    /** alt_fd_lock */
    method FdLock(fd: nat) returns (r: Outcome)
      requires fd < list.Length && max <= list.Length
      modifies list
      ensures (Value(), r) == Locked(old(Value()), fd)
    {
      hide MarkExcl;
      var i := 0;
      while i < max
        invariant 0 <= i && (0 < i ==> i <= max) && Value() == old(Value())
        invariant SharedFrom(Value(), fd, 0) == SharedFrom(Value(), fd, i)
      {
        assert Value().list[i] == list[i] && Value().list[fd] == list[fd];
        if i != fd && list[i].dev == list[fd].dev {
          return Failed(EACCES);
        }
        i := i + 1;
      }
      list[fd] := list[fd].(flags := MarkExcl(list[fd].flags));
      return Ok;
    }

    /** alt_fd_unlock */
    method FdUnlock(fd: nat)
      requires fd < list.Length
      modifies list
      ensures Value() == Unlocked(old(Value()), fd)
    {
      list[fd] := list[fd].(flags := ClearExcl(list[fd].flags));
    }

    /** ioctl() */
    method Ioctl(file: int, request: Ioctl, verdict: int) returns (r: Outcome)
      requires Valid() && Legal(Value(), IoctlCall(file, request, verdict))
      modifies list
      ensures Valid() && Value() == After(old(Value()), IoctlCall(file, request, verdict))
      ensures r == Requested(old(Value()), file, request, verdict).1
    {
      FdRuns.CallKeepsInv(Value(), IoctlCall(file, request, verdict));
      assert max < list.Length;
      hide Inv, IsDev, Locked, Unlocked;
      if file < 0 {
        return Failed(EBADFD);
      }
      if IsDev(list[file].flags) {
        if request.Exclusive? {
          r := FdLock(file);
          return;
        } else if request.NonExclusive? {
          FdUnlock(file);
          return Ok;
        }
      }
      return if verdict < 0 then Failed(Driver(-verdict)) else Ok;
    }

    /** alt_open_fd, for a standard descriptor */
    method OpenFd(slot: nat, q: Request)
      requires Valid() && slot <= 2
      modifies `max, list
      ensures Valid() && Value() == After(old(Value()), Redirect(slot, q))
    {
      OpenCases(Value(), q, Opened(Value(), q).0, Opened(Value(), q).1, FirstFree(Value().list, 0));
      FdRuns.RedirectCases(Value(), slot, q, Redirected(Value(), slot, q));
      hide Inv, Opened, Excl, OpenFlags;
      var got := Open(q);
      if got.Index? {
        list[slot] := list[got.index];
        ReleaseFd(got.index);
      }
    }

    /** alt_io_redirect: standard output, then input, then error. */
    method IoRedirect(stdout: Request, stdin: Request, stderr: Request)
      requires Valid() && stdout.flags == O_WRONLY && stdin.flags == O_RDONLY && stderr.flags == O_WRONLY
      modifies `max, list
      ensures Valid()
      ensures Run(old(Value()), [Redirect(1, stdout), Redirect(0, stdin), Redirect(2, stderr)]) == Some(Value())
    {
      assert list.Length >= 3;
      hide Inv, After, Run;
      ghost var t := Value();
      OpenFd(1, stdout);
      ghost var u := Value();
      OpenFd(0, stdin);
      ghost var v := Value();
      OpenFd(2, stderr);
      FdRuns.RunThree(t, u, v, Value(), Redirect(1, stdout), Redirect(0, stdin), Redirect(2, stderr));
    }
  }
}
