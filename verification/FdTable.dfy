/** The file descriptor pool as a value, the effect of every call on it, and what holds of
    it over every sequence of calls. */
module FdTable {
  import opened Words

  /** A registered device, or a registered file system. */
  datatype Dev = Device(id: nat) | FileSystem(id: nat)

  const NULL_DEV := Device(0)

  datatype Fd = Fd(dev: Option<Dev>, priv: int, flags: bv32)

  datatype Table = Table(list: seq<Fd>, max: int)

  datatype Errno = EMFILE | EACCES | ENODEV | EBADFD | EINVAL | Driver(code: int)

  datatype Outcome = Ok | Index(index: nat) | Flags(flags: bv32) | Failed(errno: Errno)

  const ALT_FD_EXCL: bv32 := 0x8000_0000
  const ALT_FD_DEV: bv32 := 0x4000_0000
  const ALT_FD_FLAGS_MASK: bv32 := 0xC000_0000
  /** O_APPEND | O_NONBLOCK, with the values the C library gives them. */
  const ALT_FCNTL_FLAGS_MASK: bv32 := 0x0000_4008

  // ------------------------------------------------------------------ flag words

  predicate Excl(flags: bv32) { flags & ALT_FD_EXCL != 0 }

  predicate IsDev(flags: bv32) { flags & ALT_FD_DEV != 0 }

  /** The caller's flags, without the reserved two. */
  function Plain(flags: bv32): bv32 { flags & !ALT_FD_FLAGS_MASK }

  function MarkDev(flags: bv32): bv32 { flags | ALT_FD_DEV }

  function MarkExcl(flags: bv32): bv32 { flags | ALT_FD_EXCL }

  function ClearExcl(flags: bv32): bv32 { flags & !ALT_FD_EXCL }

  lemma PlainReserved(flags: bv32)
    ensures !Excl(Plain(flags)) && !IsDev(Plain(flags))
  {
  }

  lemma MarkDevReserved(flags: bv32)
    ensures IsDev(MarkDev(flags)) && Excl(MarkDev(flags)) == Excl(flags)
  {
  }

  lemma MarkExclReserved(flags: bv32)
    ensures Excl(MarkExcl(flags)) && IsDev(MarkExcl(flags)) == IsDev(flags)
  {
  }

  lemma ClearExclReserved(flags: bv32)
    ensures !Excl(ClearExcl(flags)) && IsDev(ClearExcl(flags)) == IsDev(flags)
  {
  }

  /** The masked update of F_SETFL: exactly O_APPEND and O_NONBLOCK come from `arg`. */
  function SetFlags(flags: bv32, arg: bv32): bv32 {
    (flags & !ALT_FCNTL_FLAGS_MASK) | (arg & ALT_FCNTL_FLAGS_MASK)
  }

  lemma SetFlagsSets(flags: bv32, arg: bv32)
    ensures SetFlags(flags, arg) & ALT_FCNTL_FLAGS_MASK == arg & ALT_FCNTL_FLAGS_MASK
  {
  }

  lemma SetFlagsKeeps(flags: bv32, arg: bv32)
    ensures SetFlags(flags, arg) & !ALT_FCNTL_FLAGS_MASK == flags & !ALT_FCNTL_FLAGS_MASK
  {
  }

  lemma SetFlagsReserved(flags: bv32, arg: bv32)
    ensures Excl(SetFlags(flags, arg)) == Excl(flags) && IsDev(SetFlags(flags, arg)) == IsDev(flags)
  {
  }

  // ------------------------------------------------------------------ the calls

  /** The first free entry at or after `i`. */
  function FirstFree(list: seq<Fd>, i: nat): (r: nat)
    requires i <= |list|
    ensures i <= r <= |list| && (r < |list| ==> list[r].dev.None?)
    ensures forall j :: i <= j < r ==> list[j].dev.Some?
    decreases |list| - i
  {
    if i == |list| || list[i].dev.None? then i else FirstFree(list, i + 1)
  }

  /** alt_get_fd */
  function Allocated(t: Table, dev: Dev): (Table, Outcome) {
    var i := FirstFree(t.list, 0);
    if i == |t.list| then (t, Failed(EMFILE))
    else (Table(t.list[i := t.list[i].(dev := Some(dev))], if i > t.max then i else t.max), Index(i))
  }

  /** alt_release_fd */
  function Released(t: Table, fd: nat): Table
    requires fd < |t.list|
  {
    if fd > 2 then t.(list := t.list[fd := t.list[fd].(flags := 0, dev := None)]) else t
  }

  /** The scan of alt_file_locked over the entries `i` and up. */
  ghost predicate LockedFrom(t: Table, fd: nat, i: nat)
    requires fd < |t.list|
  {
    exists j :: i <= j <= t.max && j < |t.list| && t.list[j].dev == t.list[fd].dev && Excl(t.list[j].flags) && j != fd
  }

  /** The scan of alt_fd_lock over the entries `i` and up. */
  ghost predicate SharedFrom(t: Table, fd: nat, i: nat)
    requires fd < |t.list|
  {
    exists j :: i <= j < t.max && j < |t.list| && j != fd && t.list[j].dev == t.list[fd].dev
  }

  /** What a call of open() meets outside the pool: the device or file system its name
      selects, and what the driver's own open answers and stores. */
  datatype Request = Request(dev: Option<Dev>, flags: bv32, verdict: int, priv: int)

  /** The flags of a descriptor just opened: the caller's, except the reserved two. */
  function OpenFlags(q: Request): (r: bv32)
    requires q.dev.Some?
  {
    if q.dev.value.Device? then MarkDev(Plain(q.flags)) else Plain(q.flags)
  }

  lemma OpenFlagsReserved(q: Request)
    requires q.dev.Some?
    ensures !Excl(OpenFlags(q)) && IsDev(OpenFlags(q)) == q.dev.value.Device?
  {
    PlainReserved(q.flags);
    MarkDevReserved(Plain(q.flags));
  }

  lemma OpenFlagsKeep(q: Request)
    requires q.dev.Some?
    ensures OpenFlags(q) & !ALT_FD_FLAGS_MASK == q.flags & !ALT_FD_FLAGS_MASK
  {
    ReservedApart(q.flags);
  }

  lemma ReservedApart(f: bv32)
    ensures ((f & !ALT_FD_FLAGS_MASK) | ALT_FD_DEV) & !ALT_FD_FLAGS_MASK == f & !ALT_FD_FLAGS_MASK
    ensures (f & !ALT_FD_FLAGS_MASK) & !ALT_FD_FLAGS_MASK == f & !ALT_FD_FLAGS_MASK
  {
  }

  /** The pool with the least free entry set up for the request, before the lock test. */
  function Ready(t: Table, q: Request): Table
    requires q.dev.Some? && FirstFree(t.list, 0) < |t.list|
  {
    var i := FirstFree(t.list, 0);
    Table(t.list[i := Fd(q.dev, t.list[i].priv, OpenFlags(q))], if i > t.max then i else t.max)
  }

  function DriverOpened(t: Table, fd: nat, priv: int): Table
    requires fd < |t.list|
  {
    t.(list := t.list[fd := t.list[fd].(priv := priv)])
  }

  /** open() */
  ghost function Opened(t: Table, q: Request): (Table, Outcome) {
    if q.dev.None? then (t, Failed(ENODEV))
    else
      var i := FirstFree(t.list, 0);
      if i == |t.list| then (t, Failed(EMFILE))
      else if q.dev.value.Device? && LockedFrom(Ready(t, q), i, 0) then (Released(Ready(t, q), i), Failed(EACCES))
      else
        var open := DriverOpened(Ready(t, q), i, q.priv);
        if q.verdict < 0 then (Released(open, i), Failed(Driver(-q.verdict))) else (open, Index(i))
  }

  /** close(): `verdict` is what the driver's own close answers. */
  function Closed(t: Table, fd: int, verdict: int): (Table, Outcome)
    requires fd < |t.list|
  {
    if fd < 0 then (t, Failed(EBADFD))
    else (Released(t, fd), if verdict < 0 then Failed(Driver(-verdict)) else Ok)
  }

  datatype Command = GetFl | SetFl(arg: bv32) | OtherCommand

  /** fcntl() */
  function Controlled(t: Table, fd: int, c: Command): (Table, Outcome)
    requires fd < |t.list|
  {
    if fd < 0 then (t, Failed(EBADFD))
    else match c
      case GetFl => (t, Flags(Plain(t.list[fd].flags)))
      case SetFl(arg) => (t.(list := t.list[fd := t.list[fd].(flags := SetFlags(t.list[fd].flags, arg))]), Ok)
      case OtherCommand => (t, Failed(EINVAL))
  }

  /** alt_fd_lock */
  ghost function Locked(t: Table, fd: nat): (Table, Outcome)
    requires fd < |t.list|
  {
    if SharedFrom(t, fd, 0) then (t, Failed(EACCES))
    else (t.(list := t.list[fd := t.list[fd].(flags := MarkExcl(t.list[fd].flags))]), Ok)
  }

  /** alt_fd_unlock */
  function Unlocked(t: Table, fd: nat): Table
    requires fd < |t.list|
  {
    t.(list := t.list[fd := t.list[fd].(flags := ClearExcl(t.list[fd].flags))])
  }

  /** TIOCEXCL, TIOCNXCL, or any other request, which goes to the driver. */
  datatype Ioctl = Exclusive | NonExclusive | OtherRequest

  /** ioctl(): `verdict` is what the driver answers, or the error for having no ioctl. */
  ghost function Requested(t: Table, fd: int, q: Ioctl, verdict: int): (Table, Outcome)
    requires fd < |t.list|
  {
    if fd < 0 then (t, Failed(EBADFD))
    else if IsDev(t.list[fd].flags) && q.Exclusive? then Locked(t, fd)
    else if IsDev(t.list[fd].flags) && q.NonExclusive? then (Unlocked(t, fd), Ok)
    else (t, if verdict < 0 then Failed(Driver(-verdict)) else Ok)
  }

  /** alt_open_fd: one of the standard descriptors is pointed to what is opened. */
  ghost function Redirected(t: Table, slot: nat, q: Request): Table
    requires slot < |t.list|
  {
    var (u, r) := Opened(t, q);
    if r.Index? && r.index < |u.list| && |u.list| == |t.list| then
      Released(u.(list := u.list[slot := u.list[r.index]]), r.index)
    else u
  }

  // ------------------------------------------------------------------ runs

  datatype Call =
    | Open(q: Request)
    | Close(fd: int, verdict: int)
    | Fcntl(fd: int, c: Command)
    | IoctlCall(fd: int, request: Ioctl, verdict: int)
    | Redirect(slot: nat, q: Request)

  /** What callers owe: descriptors within the pool, bound ones where the driver is
      called through them, and redirection of standard descriptors only. */
  predicate Legal(t: Table, c: Call) {
    match c
    case Open(_) => true
    case Close(fd, _) => fd < |t.list| && (fd >= 0 ==> t.list[fd].dev.Some?)
    case Fcntl(fd, _) => fd < |t.list|
    case IoctlCall(fd, _, _) => fd < |t.list| && (fd >= 0 ==> t.list[fd].dev.Some?)
    case Redirect(slot, _) => slot <= 2 && slot < |t.list|
  }

  ghost function After(t: Table, c: Call): Table
    requires Legal(t, c)
  {
    match c
    case Open(q) => Opened(t, q).0
    case Close(fd, verdict) => Closed(t, fd, verdict).0
    case Fcntl(fd, command) => Controlled(t, fd, command).0
    case IoctlCall(fd, request, verdict) => Requested(t, fd, request, verdict).0
    case Redirect(slot, q) => Redirected(t, slot, q)
  }

  ghost function Run(t: Table, calls: seq<Call>): Option<Table> {
    if calls == [] then Some(t)
    else
      var before := Run(t, calls[..|calls| - 1]);
      if before.Some? && Legal(before.value, calls[|calls| - 1])
      then Some(After(before.value, calls[|calls| - 1]))
      else None
  }

  /** The pool as the program starts. */
  function Initial(size: nat): Table
    requires size >= 3
  {
    Table(seq(size, i => Fd(if i <= 2 then Some(NULL_DEV) else None, 0, 0)), -1)
  }

  // ------------------------------------------------------------------ the invariant

  /** Descriptors 0..2 stay bound, nothing above the mark is in use. */
  predicate Bounds(t: Table) {
    && |t.list| >= 3
    && (t.max == -1 || 3 <= t.max < |t.list|)
    && (forall i :: 0 <= i <= 2 ==> t.list[i].dev.Some?)
    && (forall i :: 2 < i < |t.list| && t.list[i].dev.Some? ==> i <= t.max)
  }

  /** The reserved flags: only entries bound to devices carry them, the lock flag needs
      the device flag, and neither occurs before the first open. */
  predicate Marks(t: Table) {
    forall i :: 0 <= i < |t.list| ==>
      && (IsDev(t.list[i].flags) ==> t.list[i].dev.Some? && t.list[i].dev.value.Device? && t.max >= 3)
      && (Excl(t.list[i].flags) ==> IsDev(t.list[i].flags))
  }

  /** A device that two descriptors share has at most one holder, below the mark. */
  predicate Holders(t: Table) {
    forall h, s ::
      0 <= h < |t.list| && 0 <= s < |t.list| && h != s && Excl(t.list[h].flags) && t.list[s].dev == t.list[h].dev
      ==> h < t.max && !Excl(t.list[s].flags)
  }

  predicate Inv(t: Table) { Bounds(t) && Marks(t) && Holders(t) }

  lemma InitialInv(size: nat)
    requires size >= 3
    ensures Inv(Initial(size))
  {
  }

  // ------------------------------------------------------------------ open()

  /** Some descriptor, anywhere in the pool, holds the lock of `d`. */
  ghost predicate Held(t: Table, d: Dev) {
    exists j :: 0 <= j < |t.list| && t.list[j].dev == Some(d) && Excl(t.list[j].flags)
  }

  // The scan up to the mark sees every holder: nothing above it is bound.
  lemma ScanSeesHolders(t: Table, q: Request, i: nat)
    requires Inv(t) && i == FirstFree(t.list, 0) < |t.list| && q.dev.Some?
    ensures LockedFrom(Ready(t, q), i, 0) <==> Held(t, q.dev.value)
  {
    var ready := Ready(t, q);
    hide OpenFlags, Excl, IsDev;
    if Held(t, q.dev.value) {
      var j :| 0 <= j < |t.list| && t.list[j].dev == q.dev && Excl(t.list[j].flags);
      assert ready.list[j] == t.list[j] && j <= ready.max;
    }
    if LockedFrom(ready, i, 0) {
      var j :| 0 <= j <= ready.max && j < |t.list| && ready.list[j].dev == q.dev && Excl(ready.list[j].flags) && j != i;
      assert ready.list[j] == t.list[j];
    }
  }

  // What open() does, case by case: it takes the least free entry, which is never a
  // standard one, and refuses a device exactly when some descriptor holds its lock.
  lemma OpenCases(t: Table, q: Request, u: Table, r: Outcome, i: nat)
    requires Inv(t) && (u, r) == Opened(t, q) && i == FirstFree(t.list, 0)
    ensures i > 2 && (q.dev.None? ==> u == t && r == Failed(ENODEV))
    ensures q.dev.Some? && i == |t.list| ==> u == t && r == Failed(EMFILE)
    ensures q.dev.Some? && i < |t.list| ==> |u.list| == |t.list| && u.list == t.list[i := u.list[i]]
    ensures q.dev.Some? && i < |t.list| ==> u.max == if i > t.max then i else t.max
    ensures q.dev.Some? && i < |t.list| ==>
      r == if q.dev.value.Device? && Held(t, q.dev.value) then Failed(EACCES)
           else if q.verdict < 0 then Failed(Driver(-q.verdict)) else Index(i)
    ensures q.dev.Some? && i < |t.list| && r.Failed? ==> u.list[i].dev.None? && u.list[i].flags == 0
    ensures r.Index? ==> q.dev.Some? && i < |t.list| && u.list[i] == Fd(q.dev, q.priv, OpenFlags(q))
  {
    if q.dev.Some? && i < |t.list| {
      ScanSeesHolders(t, q, i);
    }
    hide Excl, IsDev, OpenFlags, LockedFrom, Held, Marks, Holders;
  }
}
