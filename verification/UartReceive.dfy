/** The receive half of the JTAG UART driver: the interrupt routine stores bytes
    into the ring, one reader thread copies them out.  Every step is one access to
    shared memory, so the two sides can be interleaved between any two of them. */
module UartReceive {
  import opened Ring

  datatype ReadPc = NotReading | LoadRxIn | LoadRxOut | CopyOut | DecideRead
                  | SpinRxIn | SpinReadHost | RecheckRx | LeaveRead | EndRead

  /** Locals of one read call: `got` is what the caller's buffer holds, `part` the
      bytes of the running block copy.  Two proof variables: `asked` is the space the
      caller offered, `seen` how many bytes the interrupt routine had taken when
      `into` was loaded. */
  datatype Reader = Reader(pc: ReadPc, got: seq<Byte>, part: seq<Byte>, space: int,
                           nonblock: bool, into: nat, out: nat, n: nat, asked: int, seen: nat)

  /** The ring (rx_buf, rx_in, rx_out), the device's receive FIFO, the reader, and
      three histories: sent by the host, taken by the interrupt routine, handed to
      callers of read. */
  datatype Rx = Rx(buf: seq<Byte>, into: nat, out: nat, fifo: seq<Byte>, reader: Reader,
                   sent: seq<Byte>, taken: seq<Byte>, delivered: seq<Byte>)
  {
    predicate Shape() { 2 <= |buf| && into < |buf| && out < |buf| }

    function Held(): seq<Byte>
      requires Shape()
    {
      Contents(buf, out, into)
    }

    predicate Full()
      requires Shape()
    {
      Next(into, |buf|) == out
    }

    function Consumed(): nat { |delivered| + |reader.got| }
  }

  const IDLE_READER := Reader(NotReading, [], [], 0, false, 0, 0, 0, 0, 0)

  /** Entry of read, up to the first test of its outer loop. */
  function BeginRead(x: Rx, space: int, nonblock: bool): Rx {
    x.(reader := IDLE_READER.(space := space, asked := space, nonblock := nonblock,
                            pc := if space > 0 then LoadRxIn else LeaveRead))
  }

  /** The block copy: one byte at a time, then the new take index is published. */
  function CopyOutNext(x: Rx): Rx
    requires x.Shape()
  {
    var r := x.reader;
    if |r.part| < r.n then
      if r.out + |r.part| < |x.buf| then x.(reader := r.(part := r.part + [x.buf[r.out + |r.part|]])) else x
    else
      x.(out := (r.out + r.n) % |x.buf|,
         reader := r.(got := r.got + r.part, part := [], space := r.space - r.n,
                      pc := if r.space - r.n > 0 then LoadRxIn else DecideRead))
  }

  /** Every other reader step; `waiting` is host_inactive < timeout. */
  function ReaderLocalNext(x: Rx, waiting: bool): Reader
    requires x.Shape()
  {
    var r := x.reader;
    match r.pc
    case LoadRxIn => r.(into := x.into, seen := |x.taken|, pc := LoadRxOut)
    case LoadRxOut =>
      var n := ReadRun(r.into, x.out, |x.buf|);
      if n <= 0 then r.(out := x.out, pc := DecideRead)
      else r.(out := x.out, n := if n > r.space >= 0 then r.space else n, part := [], pc := CopyOut)
    case DecideRead => r.(pc := if r.got != [] || r.nonblock then LeaveRead else SpinRxIn)
    case SpinRxIn => r.(pc := if r.into == x.into then SpinReadHost else RecheckRx)
    case SpinReadHost => r.(pc := if waiting then SpinRxIn else RecheckRx)
    case RecheckRx => r.(pc := if r.into == x.into || r.space <= 0 then LeaveRead else LoadRxIn)
    case LeaveRead => r.(pc := EndRead)
    case _ => r
  }

  function ReaderNext(x: Rx, waiting: bool): Rx
    requires x.Shape()
  {
    if x.reader.pc == CopyOut then CopyOutNext(x)
    else if x.reader.pc == EndRead then x.(delivered := x.delivered + x.reader.got, reader := IDLE_READER)
    else x.(reader := ReaderLocalNext(x, waiting))
  }

  /** The interrupt routine takes the oldest FIFO byte into the ring. */
  function TakeByte(x: Rx): Rx
    requires x.Shape() && x.fifo != []
  {
    x.(buf := x.buf[x.into := x.fifo[0]], into := Next(x.into, |x.buf|),
       fifo := x.fifo[1..], taken := x.taken + [x.fifo[0]])
  }

  function HostSend(x: Rx, b: Byte): Rx {
    x.(fifo := x.fifo + [b], sent := x.sent + [b])
  }

  // ---------------------------------------------------------------- invariant

  /** Conservation: nothing is lost, repeated or reordered between host and caller. */
  ghost predicate Flow(x: Rx)
    requires x.Shape()
  {
    && x.taken == x.delivered + x.reader.got + x.Held()
    && x.sent == x.taken + x.fifo
  }

  /** The loaded store index still denotes "after the bytes taken by then". */
  ghost predicate Snapshot(x: Rx)
    requires x.Shape()
  {
    && x.Consumed() <= x.reader.seen <= |x.taken|
    && x.reader.into == (x.out + (x.reader.seen - x.Consumed())) % |x.buf|
  }

  ghost predicate SawEmpty(x: Rx) {
    x.reader.space > 0 && x.reader.got == [] && x.reader.seen == x.Consumed() && x.reader.into == x.out
  }

  /** A block copy in progress: its source cells are held and already copied ones agree. */
  ghost predicate CopyOk(x: Rx)
    requires x.Shape()
  {
    var r := x.reader;
    && r.out == x.out && 0 < r.n <= r.space && r.n <= ReadRun(x.into, x.out, |x.buf|)
    && |r.part| <= r.n && r.out + r.n <= |x.buf| && r.part == x.buf[r.out..r.out + |r.part|]
  }

  ghost predicate ReaderOk(x: Rx)
    requires x.Shape()
  {
    var r := x.reader;
    && |r.got| + r.space == r.asked && (r.got != [] ==> 0 <= r.space)
    && (r.pc == NotReading ==> r.got == [])
    && (r.pc == LoadRxIn ==> r.space > 0)
    && (r.pc == LoadRxOut ==> r.space > 0 && Snapshot(x))
    && (r.pc == CopyOut ==> CopyOk(x))
    && (r.pc == DecideRead && r.got == [] ==> SawEmpty(x))
    && (r.pc in {SpinRxIn, SpinReadHost, RecheckRx} ==> SawEmpty(x))
  }

  ghost predicate RxInv(x: Rx) {
    x.Shape() && Flow(x) && ReaderOk(x)
  }

  lemma BeginKeepsInv(x: Rx, space: int, nonblock: bool)
    requires RxInv(x) && x.reader.pc == NotReading
    ensures RxInv(BeginRead(x, space, nonblock)) && x.reader.got == []
  {
  }

  // The run computed from a stale rx_in is still available, and empty only if the
  // ring was empty when rx_in was loaded.
  lemma SnapshotRun(x: Rx)
    requires x.Shape() && Flow(x) && Snapshot(x)
    ensures ReadRun(x.reader.into, x.out, |x.buf|) <= ReadRun(x.into, x.out, |x.buf|)
    ensures ReadRun(x.reader.into, x.out, |x.buf|) <= 0 ==> x.reader.seen == x.Consumed() && x.reader.into == x.out
    ensures x.out + ReadRun(x.into, x.out, |x.buf|) <= |x.buf|
  {
    Occupancy(x.buf, x.out, x.into);
    Wrap(x.out, x.reader.seen - x.Consumed(), |x.buf|);
  }

  lemma LocalKeepsInv(x: Rx, waiting: bool)
    requires RxInv(x) && x.reader.pc !in {CopyOut, EndRead}
    ensures RxInv(x.(reader := ReaderLocalNext(x, waiting)))
  {
    var y := x.(reader := ReaderLocalNext(x, waiting));
    assert Flow(y);
    if x.reader.pc == LoadRxIn {
      Occupancy(x.buf, x.out, x.into);
    } else if x.reader.pc == LoadRxOut {
      SnapshotRun(x);
    }
  }

  lemma CopyByteKeepsInv(x: Rx)
    requires RxInv(x) && x.reader.pc == CopyOut && |x.reader.part| < x.reader.n
    ensures RxInv(CopyOutNext(x))
  {
  }

  lemma CopyDoneKeepsInv(x: Rx)
    requires RxInv(x) && x.reader.pc == CopyOut && |x.reader.part| == x.reader.n
    ensures RxInv(CopyOutNext(x))
  {
    var y, r := CopyOutNext(x), x.reader;
    Take(x.buf, x.out, x.into, r.n);
    hide Contents, ReadRun;
    assert x.Held() == r.part + y.Held();
    Regroup(x.delivered, r.got, r.part, y.Held());
  }

  lemma Regroup(a: seq<Byte>, b: seq<Byte>, c: seq<Byte>, d: seq<Byte>)
    ensures a + b + (c + d) == a + (b + c) + d
  {
  }

  lemma ReaderKeepsInv(x: Rx, waiting: bool)
    requires RxInv(x)
    ensures RxInv(ReaderNext(x, waiting))
  {
    if x.reader.pc == CopyOut {
      if |x.reader.part| < x.reader.n { CopyByteKeepsInv(x); } else { CopyDoneKeepsInv(x); }
    } else if x.reader.pc != EndRead {
      LocalKeepsInv(x, waiting);
    }
  }

  // The interrupt routine only ever improves what the reader has loaded or copied.
  lemma TakeKeepsReader(x: Rx)
    requires RxInv(x) && x.fifo != [] && !x.Full()
    ensures TakeByte(x).Shape() && ReaderOk(TakeByte(x))
  {
    var y, r := TakeByte(x), x.reader;
    RunsGrow(x.into, x.out, |x.buf|);
    if r.pc == CopyOut {
      assert x.into < x.out || r.out + |r.part| <= x.into;
      assert y.buf[r.out..r.out + |r.part|] == r.part;
    }
  }

  lemma TakeKeepsInv(x: Rx)
    requires RxInv(x) && x.fifo != [] && !x.Full()
    ensures RxInv(TakeByte(x))
    ensures |TakeByte(x).Held()| == |x.Held()| + 1
  {
    var y := TakeByte(x);
    TakeKeepsReader(x);
    Store(x.buf, x.out, x.into, x.fifo[0]);
    assert y.taken == y.delivered + y.reader.got + y.Held();
    assert x.fifo == [x.fifo[0]] + y.fifo;
    assert y.sent == y.taken + y.fifo;
  }

  lemma SendKeepsInv(x: Rx, b: Byte)
    requires RxInv(x)
    ensures RxInv(HostSend(x, b))
  {
    var y := HostSend(x, b);
    assert (x.taken + x.fifo) + [b] == x.taken + (x.fifo + [b]);
    assert Flow(y);
    assert ReaderOk(y);
  }

  // ------------------------------------------------------------- consequences

  // What a caller has received is, at every moment, the beginning of what the host
  // sent, and the rest is still in the ring or the FIFO.
  lemma InOrder(x: Rx)
    requires RxInv(x)
    ensures x.taken == x.delivered + x.reader.got + x.Held()
    ensures x.sent == x.delivered + x.reader.got + x.Held() + x.fifo
  {
  }

  // The caller's buffer is never overrun.
  lemma WithinSpace(x: Rx)
    requires RxInv(x) && x.reader.got != []
    ensures |x.reader.got| <= x.reader.asked
  {
  }

  // The spin test compares indices modulo LEN, yet it is exact.
  lemma SpinExact(x: Rx)
    requires RxInv(x) && x.reader.pc in {SpinRxIn, SpinReadHost, RecheckRx}
    ensures x.reader.into == x.into <==> |x.taken| == x.reader.seen
  {
    Occupancy(x.buf, x.out, x.into);
    OffsetsDistinct(x.out, 0, |x.Held()|, |x.buf|);
  }

  // How a reader step moves the two facts the receive mask depends on.
  lemma ReaderKeepsPromise(x: Rx, waiting: bool)
    requires RxInv(x)
    ensures var y := ReaderNext(x, waiting);
      && y.Shape()
      && (x.Full() && y.reader.got == [] ==> y.Full())
      && (x.reader.got != [] && x.reader.pc !in {LeaveRead, EndRead} ==> y.reader.got != [] && y.reader.pc != EndRead)
      && (x.reader.got == [] && y.reader.got != [] ==> y.reader.pc != EndRead)
      && (x.reader.pc == EndRead && x.Full() ==> y.Full())
  {
  }
}
