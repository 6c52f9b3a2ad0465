/** The descriptor pool over every sequence of calls: standard descriptors, the
    high-water mark, exclusive access, and where the lock scan falls short. */
module FdRuns {
  import opened FdTable
  import opened Words

  lemma ZeroReserved()
    ensures !Excl(0) && !IsDev(0)
  {
  }

  /** `u` is `t` with entry `i` replaced by `fd`, which the invariant allows there. */
  ghost predicate Puts(t: Table, u: Table, i: nat, fd: Fd) {
    && i < |t.list| && u.list == t.list[i := fd] && t.max <= u.max && (u.max != t.max ==> 3 <= u.max < |t.list|)
    && (if i <= 2 then fd.dev.Some? else fd.dev.Some? ==> i <= u.max)
    && (IsDev(fd.flags) ==> fd.dev.Some? && fd.dev.value.Device? && u.max >= 3)
    && (Excl(fd.flags) ==> IsDev(fd.flags) && forall s :: 0 <= s < |t.list| && s != i && t.list[s].dev == fd.dev ==>
          i < u.max && !Excl(t.list[s].flags))
    && (forall h :: 0 <= h < |t.list| && h != i && t.list[h].dev == fd.dev && Excl(t.list[h].flags) ==> h < u.max)
  }

  lemma PutKeepsInv(t: Table, u: Table, i: nat, fd: Fd)
    requires Inv(t) && Puts(t, u, i, fd)
    ensures Inv(u)
  {
    hide Excl, IsDev;
    assert forall j :: 0 <= j < |t.list| && j != i ==> u.list[j] == t.list[j];
  }

  lemma ReleaseKeepsInv(t: Table, fd: nat)
    requires Inv(t) && fd < |t.list|
    ensures Inv(Released(t, fd))
  {
    if fd > 2 {
      ZeroReserved();
      hide Excl, IsDev;
      PutKeepsInv(t, Released(t, fd), fd, t.list[fd].(flags := 0, dev := None));
    }
  }

  lemma OpenKeepsInv(t: Table, q: Request)
    requires Inv(t)
    ensures Inv(Opened(t, q).0)
  {
    var (u, r) := Opened(t, q);
    var i := FirstFree(t.list, 0);
    OpenCases(t, q, u, r, i);
    if q.dev.Some? && i < |t.list| {
      OpenFlagsReserved(q);
      ZeroReserved();
      hide Excl, IsDev, Opened, OpenFlags;
      PutKeepsInv(t, u, i, u.list[i]);
    }
  }

  lemma SetFlKeepsInv(t: Table, fd: nat, arg: bv32)
    requires Inv(t) && fd < |t.list|
    ensures Inv(Controlled(t, fd, SetFl(arg)).0)
  {
    hide Excl, IsDev, SetFlags;
    SetFlagsReserved(t.list[fd].flags, arg);
    PutKeepsInv(t, Controlled(t, fd, SetFl(arg)).0, fd, t.list[fd].(flags := SetFlags(t.list[fd].flags, arg)));
  }

  // Although the lock scan stops short of the mark, no device ever has two holders: the
  // only sharer a grant can miss is at the mark, and from there the scan sees the holder.
  lemma LockKeepsInv(t: Table, fd: nat)
    requires Inv(t) && fd < |t.list| && IsDev(t.list[fd].flags)
    ensures Inv(Locked(t, fd).0)
  {
    if !SharedFrom(t, fd, 0) {
      MarkExclReserved(t.list[fd].flags);
      GrantMissesOnlyTheMark(t, fd);
      hide Excl, IsDev, MarkExcl;
      PutKeepsInv(t, Locked(t, fd).0, fd, t.list[fd].(flags := MarkExcl(t.list[fd].flags)));
    }
  }

  lemma GrantMissesOnlyTheMark(t: Table, fd: nat)
    requires Inv(t) && fd < |t.list| && IsDev(t.list[fd].flags) && !SharedFrom(t, fd, 0)
    ensures forall s :: 0 <= s < |t.list| && s != fd && t.list[s].dev == t.list[fd].dev ==>
              s == t.max && fd < t.max && !Excl(t.list[s].flags)
  {
    hide Excl, IsDev;
    assert t.max >= 3;
    forall s | 0 <= s < |t.list| && s != fd && t.list[s].dev == t.list[fd].dev
      ensures s == t.max && fd < t.max && !Excl(t.list[s].flags)
    {
      assert !(s < t.max);
      assert t.list[s].dev.Some? && t.list[fd].dev.Some?;
    }
  }

  lemma UnlockKeepsInv(t: Table, fd: nat)
    requires Inv(t) && fd < |t.list|
    ensures Inv(Unlocked(t, fd))
  {
    ClearExclReserved(t.list[fd].flags);
    hide Excl, IsDev, ClearExcl;
    PutKeepsInv(t, Unlocked(t, fd), fd, t.list[fd].(flags := ClearExcl(t.list[fd].flags)));
  }

  // Redirection: the standard descriptor takes over what was opened and every other
  // binding is what it was; if the open fails, so is the standard descriptor's entry.
  lemma RedirectCases(t: Table, slot: nat, q: Request, u: Table)
    requires Inv(t) && slot <= 2 && u == Redirected(t, slot, q)
    ensures Inv(u) && |u.list| == |t.list|
    ensures forall j :: 0 <= j < |t.list| && j != slot ==>
              u.list[j].dev == t.list[j].dev && (t.list[j].dev.Some? ==> u.list[j] == t.list[j])
    ensures u.list[slot] == if Opened(t, q).1.Index? then Fd(q.dev, q.priv, OpenFlags(q)) else t.list[slot]
    ensures !Excl(u.list[slot].flags) || u.list[slot] == t.list[slot]
  {
    var (v, r) := Opened(t, q);
    var i := FirstFree(t.list, 0);
    OpenCases(t, q, v, r, i);
    OpenKeepsInv(t, q);
    hide Excl, IsDev, Opened, OpenFlags;
    if r.Index? {
      OpenFlagsReserved(q);
      var w := v.(list := v.list[slot := v.list[i]]);
      PutKeepsInv(v, w, slot, v.list[i]);
      ReleaseKeepsInv(w, i);
    }
  }

  lemma CallKeepsInv(t: Table, c: Call)
    requires Inv(t) && Legal(t, c)
    ensures Inv(After(t, c)) && |After(t, c).list| == |t.list|
  {
    match c
    case Open(q) =>
      OpenKeepsInv(t, q);
      OpenCases(t, q, Opened(t, q).0, Opened(t, q).1, FirstFree(t.list, 0));
    case Close(fd, _) => if fd >= 0 { ReleaseKeepsInv(t, fd); }
    case Fcntl(fd, command) => if fd >= 0 && command.SetFl? { SetFlKeepsInv(t, fd, command.arg); }
    case IoctlCall(fd, request, _) =>
      if fd >= 0 && IsDev(t.list[fd].flags) {
        LockKeepsInv(t, fd);
        UnlockKeepsInv(t, fd);
      }
    case Redirect(slot, q) => RedirectCases(t, slot, q, After(t, c));
  }

  // Every sequence of calls, from the pool the program starts with.
  lemma {:induction false} RunKeepsInv(size: nat, calls: seq<Call>)
    requires size >= 3 && Run(Initial(size), calls).Some?
    ensures Inv(Run(Initial(size), calls).value) && |Run(Initial(size), calls).value.list| == size
  {
    if calls == [] {
      InitialInv(size);
    } else {
      RunKeepsInv(size, calls[..|calls| - 1]);
      hide Inv;
      CallKeepsInv(Run(Initial(size), calls[..|calls| - 1]).value, calls[|calls| - 1]);
    }
  }

  // In every reachable pool: descriptors 0..2 are bound, everything above the mark is
  // free, and no device has two holders of its lock.
  lemma Reachable(size: nat, calls: seq<Call>, t: Table)
    requires size >= 3 && Run(Initial(size), calls) == Some(t)
    ensures |t.list| == size && forall i :: 0 <= i <= 2 ==> t.list[i].dev.Some?
    ensures forall i :: 2 < i < size && i > t.max ==> t.list[i].dev.None?
    ensures forall h, s :: 0 <= h < size && 0 <= s < size && h != s && Excl(t.list[h].flags) && Excl(t.list[s].flags)
              ==> t.list[h].dev != t.list[s].dev
  {
    RunKeepsInv(size, calls);
    hide Excl, IsDev, Initial, Run;
  }

  // An open in any reachable pool: it succeeds exactly when the name is known, an entry is
  // free, the device is not held and the driver agrees, and then gives the least free
  // descriptor, never a standard one.
  lemma ReachableOpen(size: nat, calls: seq<Call>, t: Table, q: Request)
    requires size >= 3 && Run(Initial(size), calls) == Some(t)
    ensures Opened(t, q).1.Index? <==>
      && q.dev.Some? && (exists j :: 0 <= j < size && j < |t.list| && t.list[j].dev.None?)
      && !(q.dev.value.Device? && Held(t, q.dev.value)) && q.verdict >= 0
    ensures Opened(t, q).1.Index? ==>
      var i := Opened(t, q).1.index;
      && 2 < i < |t.list| && t.list[i].dev.None? && forall j :: 0 <= j < i ==> t.list[j].dev.Some?
  {
    RunKeepsInv(size, calls);
    OpenCases(t, q, Opened(t, q).0, Opened(t, q).1, FirstFree(t.list, 0));
    hide Excl, IsDev, Initial, Run, Opened, Inv, Held;
  }

  // A failed open leaks nothing: every binding is what it was, and so is every entry that
  // is in use.
  lemma FailedOpenKeeps(t: Table, q: Request)
    requires Inv(t) && Opened(t, q).1.Failed?
    ensures |Opened(t, q).0.list| == |t.list|
    ensures forall j :: 0 <= j < |t.list| ==> Opened(t, q).0.list[j].dev == t.list[j].dev
    ensures forall j :: 0 <= j < |t.list| && t.list[j].dev.Some? ==> Opened(t, q).0.list[j] == t.list[j]
  {
    OpenCases(t, q, Opened(t, q).0, Opened(t, q).1, FirstFree(t.list, 0));
    hide Opened, Inv;
  }

  // ------------------------------------------------------------------ exclusive access

  predicate Holds(t: Table, h: nat, d: Dev) {
    h < |t.list| && t.list[h].dev == Some(d) && Excl(t.list[h].flags)
  }

  /** The calls that end the lock held by `h`.  Closing a standard descriptor does not. */
  ghost predicate Releases(t: Table, c: Call, h: nat) {
    match c
    case Open(_) => false
    case Close(fd, _) => fd == h && h > 2
    case Fcntl(_, _) => false
    case IoctlCall(fd, request, _) => fd == h && request.NonExclusive?
    case Redirect(slot, q) => slot == h && Opened(t, q).1.Index?
  }

  /** No descriptor is on `d` in `u` that was not in `t`. */
  predicate NoneAdded(t: Table, u: Table, d: Dev) {
    |u.list| == |t.list| && forall i :: 0 <= i < |t.list| && u.list[i].dev == Some(d) ==> t.list[i].dev == Some(d)
  }

  lemma HeldOpenFails(t: Table, q: Request, h: nat)
    requires Inv(t) && q.dev.Some? && Holds(t, h, q.dev.value)
    ensures Opened(t, q).1 == Failed(if FirstFree(t.list, 0) == |t.list| then EMFILE else EACCES)
  {
    OpenCases(t, q, Opened(t, q).0, Opened(t, q).1, FirstFree(t.list, 0));
    hide Opened;
    assert Held(t, q.dev.value) && IsDev(t.list[h].flags);
  }

  lemma OpenKeepsHolder(t: Table, q: Request, h: nat, d: Dev)
    requires Inv(t) && Holds(t, h, d)
    ensures Holds(Opened(t, q).0, h, d) && NoneAdded(t, Opened(t, q).0, d)
  {
    if q.dev == Some(d) {
      HeldOpenFails(t, q, h);
    }
    OpenCases(t, q, Opened(t, q).0, Opened(t, q).1, FirstFree(t.list, 0));
    hide Opened, Inv, Excl;
  }

  lemma RedirectKeepsHolder(t: Table, slot: nat, q: Request, h: nat, d: Dev)
    requires Inv(t) && Holds(t, h, d) && slot <= 2
    ensures NoneAdded(t, Redirected(t, slot, q), d)
    ensures Holds(Redirected(t, slot, q), h, d) <==> !(slot == h && Opened(t, q).1.Index?)
  {
    if q.dev == Some(d) {
      HeldOpenFails(t, q, h);
    }
    OpenCases(t, q, Opened(t, q).0, Opened(t, q).1, FirstFree(t.list, 0));
    RedirectCases(t, slot, q, Redirected(t, slot, q));
    hide Opened, Excl, OpenFlags, Redirected, Marks, Holders;
  }

  lemma FlagCallKeepsHolder(t: Table, c: Call, h: nat, d: Dev)
    requires Inv(t) && Holds(t, h, d) && Legal(t, c) && (c.Fcntl? || c.IoctlCall?)
    ensures Holds(After(t, c), h, d) <==> !Releases(t, c, h)
    ensures NoneAdded(t, After(t, c), d)
  {
    hide Excl, IsDev, SetFlags, ClearExcl, MarkExcl, SharedFrom, Bounds, Holders;
    if c.fd >= 0 {
      var f := t.list[c.fd].flags;
      ClearExclReserved(f);
      MarkExclReserved(f);
      if c.Fcntl? && c.c.SetFl? {
        SetFlagsReserved(f, c.c.arg);
      }
    }
  }

  // One call, whatever it is, adds no descriptor to a held device, and ends the lock
  // exactly if it is one of the three ways to end it.
  lemma CallKeepsHolder(t: Table, c: Call, h: nat, d: Dev)
    requires Inv(t) && Holds(t, h, d) && Legal(t, c)
    ensures Holds(After(t, c), h, d) <==> !Releases(t, c, h)
    ensures NoneAdded(t, After(t, c), d)
  {
    hide Inv, Excl, Opened, Redirected, Controlled, Requested;
    match c
    case Open(q) => OpenKeepsHolder(t, q, h, d);
    case Close(_, _) => ZeroReserved();
    case Redirect(slot, q) => RedirectKeepsHolder(t, slot, q, h, d);
    case _ => FlagCallKeepsHolder(t, c, h, d);
  }

  /** None of the calls ends the lock held by `h`. */
  ghost predicate NoRelease(t: Table, calls: seq<Call>, h: nat) {
    calls == [] ||
    (var before := Run(t, calls[..|calls| - 1]);
     NoRelease(t, calls[..|calls| - 1], h) && (before.Some? ==> !Releases(before.value, calls[|calls| - 1], h)))
  }

  // Over any sequence of calls none of which ends the lock, the holder keeps it and no
  // descriptor joins it on the device.
  lemma {:induction false} Exclusion(t: Table, calls: seq<Call>, h: nat, d: Dev)
    requires Inv(t) && Holds(t, h, d) && Run(t, calls).Some? && NoRelease(t, calls, h)
    ensures Inv(Run(t, calls).value) && Holds(Run(t, calls).value, h, d)
    ensures NoneAdded(t, Run(t, calls).value, d)
  {
    if calls != [] {
      var before := calls[..|calls| - 1];
      Exclusion(t, before, h, d);
      var u := Run(t, before).value;
      hide Inv, Holds, Excl, Releases;
      CallKeepsInv(u, calls[|calls| - 1]);
      CallKeepsHolder(u, calls[|calls| - 1], h, d);
    }
  }

  // ------------------------------------------------------------------ what a grant is worth

  // A granted lock is sole ownership exactly when the descriptor at the high-water mark
  // is the one locked or is on something else: the scan does not look at it.
  lemma GrantIsSole(t: Table, fd: nat)
    requires Inv(t) && fd < |t.list| && IsDev(t.list[fd].flags) && Locked(t, fd).1 == Ok
    ensures 0 <= t.max < |t.list| && t.list[fd].dev.Some? && Holds(Locked(t, fd).0, fd, t.list[fd].dev.value)
    ensures (forall s :: 0 <= s < |t.list| && s != fd ==> Locked(t, fd).0.list[s].dev != t.list[fd].dev)
            <==> (fd == t.max || t.list[t.max].dev != t.list[fd].dev)
  {
    GrantMissesOnlyTheMark(t, fd);
    MarkExclReserved(t.list[fd].flags);
    hide Excl, IsDev, MarkExcl, SharedFrom;
    var u := Locked(t, fd).0;
    assert forall s :: 0 <= s < |t.list| ==> u.list[s].dev == t.list[s].dev;
  }

  // What is granted to a descriptor that did not hold the lock, unlocking takes back.
  lemma LockThenUnlock(t: Table, fd: nat)
    requires fd < |t.list| && !Excl(t.list[fd].flags)
    ensures Unlocked(Locked(t, fd).0, fd) == t
  {
    MarkThenClear(t.list[fd].flags);
    hide Excl, IsDev, MarkExcl, SharedFrom, ClearExcl;
    var u := Unlocked(Locked(t, fd).0, fd);
    assert forall i :: 0 <= i < |t.list| ==> u.list[i] == t.list[i];
  }

  lemma MarkThenClear(f: bv32)
    requires !Excl(f)
    ensures ClearExcl(MarkExcl(f)) == f && ClearExcl(f) == f
  {
  }

  // Closing what was just opened frees the entry that was free before and no other.
  lemma OpenThenClose(t: Table, q: Request, verdict: int, i: nat)
    requires Inv(t) && Opened(t, q).1 == Index(i)
    ensures i < |t.list| == |Opened(t, q).0.list| && t.list[i].dev.None?
    ensures Closed(Opened(t, q).0, i, verdict).0.list == t.list[i := Fd(None, q.priv, 0)]
  {
    OpenCases(t, q, Opened(t, q).0, Opened(t, q).1, FirstFree(t.list, 0));
    hide Opened, Inv, OpenFlags;
  }

  lemma RunOne(t: Table, calls: seq<Call>, u: Table, c: Call)
    requires Run(t, calls) == Some(u) && Legal(u, c)
    ensures Run(t, calls + [c]) == Some(After(u, c))
  {
    assert (calls + [c])[..|calls|] == calls;
  }

  lemma RunThree(t: Table, u: Table, v: Table, w: Table, a: Call, b: Call, c: Call)
    requires Legal(t, a) && u == After(t, a) && Legal(u, b) && v == After(u, b) && Legal(v, c) && w == After(v, c)
    ensures Run(t, [a, b, c]) == Some(w)
  {
    hide After, Legal;
    assert Run(t, []) == Some(t);
    hide Run;
    RunOne(t, [], t, a);
    RunOne(t, [a], u, b);
    RunOne(t, [a, b], v, c);
    assert [] + [a] == [a] && [a] + [b] == [a, b] && [a, b] + [c] == [a, b, c];
  }

  lemma TwoOpens(size: nat, q: Request) returns (t: Table)
    requires size >= 5 && q == Request(Some(Device(7)), 0, 0, 0)
    ensures Run(Initial(size), [Open(q), Open(q)]) == Some(t) && Inv(t) && |t.list| == size && t.max == 4
    ensures t.list[3] == t.list[4] == Fd(q.dev, 0, OpenFlags(q))
    ensures forall j :: 0 <= j <= 2 ==> t.list[j].dev == Some(NULL_DEV)
  {
    var s := Initial(size);
    InitialInv(size);
    ZeroReserved();
    OpenFlagsReserved(q);
    hide OpenFlags, Excl, IsDev, Opened, Marks, Holders;
    OpenCases(s, q, Opened(s, q).0, Opened(s, q).1, FirstFree(s.list, 0));
    OpenKeepsInv(s, q);
    var u := Opened(s, q).0;
    assert s.list[3].dev.None? && s.list[4].dev.None?;
    assert FirstFree(s.list, 0) == 3 && u.list[4] == s.list[4];
    assert FirstFree(u.list, 0) == 4;
    OpenCases(u, q, Opened(u, q).0, Opened(u, q).1, FirstFree(u.list, 0));
    OpenKeepsInv(u, q);
    t := Opened(u, q).0;
    hide Initial, FirstFree;
    RunOne(s, [], s, Open(q));
    RunOne(s, [Open(q)], u, Open(q));
    assert [] + [Open(q)] == [Open(q)] && [Open(q)] + [Open(q)] == [Open(q), Open(q)];
  }

  // A run that ends with a lock granted on a device another descriptor has open.
  lemma SharedGrant(size: nat)
    requires size >= 5
    ensures exists calls, t :: Run(Initial(size), calls) == Some(t) && Holds(t, 3, Device(7))
              && |t.list| == size && t.list[4].dev == Some(Device(7))
  {
    var q := Request(Some(Device(7)), 0, 0, 0);
    var t := TwoOpens(size, q);
    var lock := IoctlCall(3, Exclusive, 0);
    OpenFlagsReserved(q);
    MarkExclReserved(OpenFlags(q));
    hide OpenFlags, MarkExcl, Excl, IsDev, Initial, Run, Inv;
    RunOne(Initial(size), [Open(q), Open(q)], t, lock);
    assert !SharedFrom(t, 3, 0);
    assert Holds(After(t, lock), 3, Device(7));
  }

  lemma RedirectOutput(size: nat, q: Request) returns (t: Table)
    requires size >= 4 && q == Request(Some(Device(7)), 0, 0, 0)
    ensures Run(Initial(size), [Redirect(1, q)]) == Some(t) && Inv(t) && |t.list| == size && t.max == 3
    ensures t.list[1] == Fd(q.dev, 0, OpenFlags(q)) && t.list[0].dev == t.list[2].dev == Some(NULL_DEV)
  {
    var s := Initial(size);
    InitialInv(size);
    ZeroReserved();
    hide OpenFlags, Excl, IsDev, Opened, Marks, Holders;
    OpenCases(s, q, Opened(s, q).0, Opened(s, q).1, FirstFree(s.list, 0));
    assert s.list[3].dev.None?;
    assert FirstFree(s.list, 0) == 3;
    t := Redirected(s, 1, q);
    RedirectCases(s, 1, q, t);
    hide Initial, FirstFree;
    RunOne(s, [], s, Redirect(1, q));
    assert [] + [Redirect(1, q)] == [Redirect(1, q)];
  }

  // A run in which standard output is locked and then closed, and the lock is still held.
  lemma ClosedStandardHolds(size: nat)
    requires size >= 4
    ensures exists t :: Holds(t, 1, Device(7)) && Run(Initial(size),
              [Redirect(1, Request(Some(Device(7)), 0, 0, 0)), IoctlCall(1, Exclusive, 0), Close(1, 0)]) == Some(t)
  {
    var q := Request(Some(Device(7)), 0, 0, 0);
    var first, lock, close := Redirect(1, q), IoctlCall(1, Exclusive, 0), Close(1, 0);
    var t := RedirectOutput(size, q);
    OpenFlagsReserved(q);
    MarkExclReserved(OpenFlags(q));
    hide OpenFlags, MarkExcl, Excl, IsDev, Initial, Run, Inv;
    assert !SharedFrom(t, 1, 0);
    var u := After(t, lock);
    assert Holds(u, 1, Device(7)) && After(u, close) == u;
    hide After;
    RunOne(Initial(size), [first], t, lock);
    RunOne(Initial(size), [first, lock], u, close);
    assert [first] + [lock] == [first, lock] && [first, lock] + [close] == [first, lock, close];
  }

  // ------------------------------------------------------------------ what the calls answer

  // TIOCEXCL on a device, in any reachable pool: granted exactly if no other entry below
  // the mark is on the same device, and then only this entry's lock bit is set; otherwise
  // EACCES, and the pool is as it was.
  lemma {:induction false} LockOutcome(size: nat, calls: seq<Call>, t: Table, fd: nat, verdict: int)
    requires size >= 3 && Run(Initial(size), calls) == Some(t)
    requires fd < |t.list| && t.list[fd].flags & 0x4000_0000 != 0
    ensures t.max < |t.list|
    ensures var (u, r) := Requested(t, fd, Exclusive, verdict);
      if exists j :: 0 <= j < t.max && j != fd && t.list[j].dev == t.list[fd].dev
      then (u, r) == (t, Failed(EACCES))
      else r == Ok && u == Table(t.list[fd := t.list[fd].(flags := t.list[fd].flags | 0x8000_0000)], t.max)
  {
    RunKeepsInv(size, calls);
    hide Inv, Run, Initial;
    LockCases(t, fd, verdict);
  }

  lemma {:induction false} LockCases(t: Table, fd: nat, verdict: int)
    requires Inv(t) && fd < |t.list| && t.list[fd].flags & 0x4000_0000 != 0
    ensures t.max < |t.list|
    ensures var (u, r) := Requested(t, fd, Exclusive, verdict);
      if exists j :: 0 <= j < t.max && j != fd && t.list[j].dev == t.list[fd].dev
      then (u, r) == (t, Failed(EACCES))
      else r == Ok && u == Table(t.list[fd := t.list[fd].(flags := t.list[fd].flags | 0x8000_0000)], t.max)
  {
    hide Marks, Holders;
  }

  // Every other ioctl, case by case.  On a device TIOCNXCL always succeeds and clears the
  // lock bit; anything else, and anything on a file system, is the driver's to answer.
  lemma {:induction false} RequestCases(t: Table, fd: int, request: Ioctl, verdict: int)
    requires fd < |t.list|
    ensures fd < 0 ==> Requested(t, fd, request, verdict) == (t, Failed(EBADFD))
    ensures fd >= 0 && t.list[fd].flags & 0x4000_0000 != 0 && request.NonExclusive? ==>
      Requested(t, fd, request, verdict)
      == (Table(t.list[fd := t.list[fd].(flags := t.list[fd].flags & 0x7FFF_FFFF)], t.max), Ok)
    ensures fd >= 0 && (t.list[fd].flags & 0x4000_0000 == 0 || request.OtherRequest?) ==>
      Requested(t, fd, request, verdict) == (t, if verdict < 0 then Failed(Driver(-verdict)) else Ok)
  {
  }

  // close(): whatever the driver answers, the entry is freed if it is not one of the three
  // standard ones, and no other entry nor the mark changes.
  lemma {:induction false} CloseCases(t: Table, fd: int, verdict: int)
    requires fd < |t.list|
    ensures var (u, r) := Closed(t, fd, verdict);
      && r == (if fd < 0 then Failed(EBADFD) else if verdict < 0 then Failed(Driver(-verdict)) else Ok)
      && u.max == t.max && |u.list| == |t.list|
      && (forall j :: 0 <= j < |t.list| && (j != fd || j <= 2) ==> u.list[j] == t.list[j])
      && (fd > 2 ==> u.list[fd].dev.None? && u.list[fd].flags == 0)
  {
  }

  // fcntl(): F_GETFL answers all but the reserved bits and changes nothing.
  lemma {:induction false} GetCases(t: Table, fd: nat)
    requires fd < |t.list|
    ensures Controlled(t, fd, GetFl) == (t, Flags(t.list[fd].flags & 0x3FFF_FFFF))
  {
    hide *;
    PlainBits(t.list[fd].flags);
    FcntlFlags(t, fd, 0);
  }

  // F_SETFL replaces O_APPEND and O_NONBLOCK of this descriptor and nothing else.
  lemma {:induction false} SetCases(t: Table, fd: nat, arg: bv32)
    requires fd < |t.list|
    ensures Controlled(t, fd, SetFl(arg)).1 == Ok && Controlled(t, fd, SetFl(arg)).0.max == t.max
    ensures Controlled(t, fd, SetFl(arg)).0.list
            == t.list[fd := t.list[fd].(flags := (t.list[fd].flags & 0xFFFF_BFF7) | (arg & 0x4008))]
  {
    hide *;
    SetBits(t.list[fd].flags, arg);
    FcntlFlags(t, fd, arg);
  }

  lemma {:induction false} FcntlErrors(t: Table, fd: int, c: Command)
    requires fd < |t.list|
    ensures fd < 0 ==> Controlled(t, fd, c) == (t, Failed(EBADFD))
    ensures fd >= 0 && c.OtherCommand? ==> Controlled(t, fd, c) == (t, Failed(EINVAL))
  {
    hide Plain, SetFlags;
  }

  lemma {:induction false} FcntlFlags(t: Table, fd: nat, arg: bv32)
    requires fd < |t.list|
    ensures Controlled(t, fd, GetFl) == (t, Flags(Plain(t.list[fd].flags)))
    ensures var flags := SetFlags(t.list[fd].flags, arg);
      Controlled(t, fd, SetFl(arg)) == (Table(t.list[fd := t.list[fd].(flags := flags)], t.max), Ok)
  {
    hide Plain, SetFlags;
  }

  lemma {:induction false} SetBits(f: bv32, arg: bv32)
    ensures SetFlags(f, arg) == (f & 0xFFFF_BFF7) | (arg & 0x4008)
  {
  }

  lemma {:induction false} PlainBits(f: bv32)
    ensures Plain(f) == f & 0x3FFF_FFFF
  {
  }

  lemma {:induction false} MarkBits(f: bv32)
    ensures MarkDev(f) == f | 0x4000_0000
  {
  }

  lemma {:induction false} DeviceBits(f: bv32)
    ensures Plain(f) == f & 0x3FFF_FFFF && MarkDev(Plain(f)) == (f & 0x3FFF_FFFF) | 0x4000_0000
  {
    hide *;
    PlainBits(f);
    MarkBits(Plain(f));
  }

  lemma {:induction false} PlainKept(f: bv32)
    ensures Plain(MarkDev(Plain(f))) == Plain(Plain(f)) == Plain(f)
  {
    ReservedApart(f);
  }

  lemma {:induction false} KeptBits(f: bv32, arg: bv32)
    ensures Plain(SetFlags(f, arg)) == SetFlags(Plain(f), arg)
  {
    hide *;
    PlainBits(f);
    PlainBits(SetFlags(f, arg));
    SetBits(f, arg);
    SetBits(Plain(f), arg);
    ShownFlags(f, arg);
  }

  lemma {:induction false} ShownFlags(f: bv32, arg: bv32)
    ensures ((f & 0xFFFF_BFF7) | (arg & 0x4008)) & 0x3FFF_FFFF == ((f & 0x3FFF_FFFF) & 0xFFFF_BFF7) | (arg & 0x4008)
  {
  }

  // After F_SETFL, F_GETFL answers what it answered before, those two bits replaced.
  lemma {:induction false} SetThenGet(t: Table, fd: nat, arg: bv32, shown: bv32)
    requires fd < |t.list| && Controlled(t, fd, GetFl).1 == Flags(shown)
    ensures Controlled(t, fd, SetFl(arg)).1 == Ok && fd < |Controlled(t, fd, SetFl(arg)).0.list|
    ensures Controlled(Controlled(t, fd, SetFl(arg)).0, fd, GetFl).1
            == Flags((shown & 0xFFFF_BFF7) | (arg & 0x4008))
  {
    hide *;
    SetBits(shown, arg);
    SetShows(t, fd, arg, shown);
  }

  lemma {:induction false} SetShows(t: Table, fd: nat, arg: bv32, shown: bv32)
    requires fd < |t.list| && Controlled(t, fd, GetFl).1 == Flags(shown)
    ensures Controlled(t, fd, SetFl(arg)).1 == Ok && fd < |Controlled(t, fd, SetFl(arg)).0.list|
    ensures Controlled(Controlled(t, fd, SetFl(arg)).0, fd, GetFl).1 == Flags(SetFlags(shown, arg))
  {
    hide *;
    FcntlFlags(t, fd, arg);
    KeptBits(t.list[fd].flags, arg);
    FcntlFlags(Controlled(t, fd, SetFl(arg)).0, fd, 0);
  }

  // What open() was given is what F_GETFL answers, the two reserved bits apart.
  lemma {:induction false} OpenThenGet(t: Table, q: Request, i: nat)
    requires Inv(t) && Opened(t, q).1 == Index(i)
    ensures i < |Opened(t, q).0.list|
    ensures Controlled(Opened(t, q).0, i, GetFl).1 == Flags(q.flags & 0x3FFF_FFFF)
  {
    hide *;
    PlainBits(q.flags);
    OpenedShows(t, q, i, q.flags & 0x3FFF_FFFF);
  }

  lemma {:induction false} OpenedShows(t: Table, q: Request, i: nat, plain: bv32)
    requires Inv(t) && Opened(t, q).1 == Index(i) && plain == Plain(q.flags)
    ensures i < |Opened(t, q).0.list| && Controlled(Opened(t, q).0, i, GetFl).1 == Flags(plain)
  {
    hide *;
    OpenedFlags(t, q, i, plain, MarkDev(plain));
    PlainKept(q.flags);
    FcntlFlags(Opened(t, q).0, i, 0);
  }

  // A new descriptor of a device is marked by one bit, that of a file by none, and neither
  // is locked.
  lemma {:induction false} OpenMarks(t: Table, q: Request, i: nat)
    requires Inv(t) && Opened(t, q).1 == Index(i)
    ensures q.dev.Some? && i < |Opened(t, q).0.list|
    ensures Opened(t, q).0.list[i].flags
            == (if q.dev.value.Device? then (q.flags & 0x3FFF_FFFF) | 0x4000_0000 else q.flags & 0x3FFF_FFFF)
  {
    hide *;
    DeviceBits(q.flags);
    OpenedFlags(t, q, i, q.flags & 0x3FFF_FFFF, (q.flags & 0x3FFF_FFFF) | 0x4000_0000);
  }

  lemma {:induction false} OpenedFlags(t: Table, q: Request, i: nat, plain: bv32, marked: bv32)
    requires Inv(t) && Opened(t, q).1 == Index(i)
    requires plain == Plain(q.flags) && marked == MarkDev(Plain(q.flags))
    ensures q.dev.Some? && i < |Opened(t, q).0.list|
    ensures Opened(t, q).0.list[i].flags == if q.dev.value.Device? then marked else plain
  {
    hide MarkDev, Plain, Excl, IsDev;
    OpenCases(t, q, Opened(t, q).0, Opened(t, q).1, FirstFree(t.list, 0));
    hide Opened, Inv;
  }
}
