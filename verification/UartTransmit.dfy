/** The transmit half of the JTAG UART driver: one writer thread copies bytes into
    the ring, the interrupt routine pushes them to the device.  Every step is one
    access to shared memory. */
module UartTransmit {
  import opened Ring

  datatype WritePc = NotWriting | Fill | LoadTxOut | CopyIn | Kick | DecideWrite
                   | SpinTxOut | SpinWriteHost | CheckHost | EndWrite

  /** Locals of one write call: `done` bytes of `data` are published, `k` bytes of
      the running block copy are stored.  `seen` is a proof variable: how many bytes
      had been pushed when `out` was loaded. */
  datatype Writer = Writer(pc: WritePc, data: seq<Byte>, done: nat, nonblock: bool,
                           into: nat, out: nat, n: nat, k: nat, seen: nat)
  {
    function Count(): int { |data| - done }
  }

  /** The ring (tx_buf, tx_in, tx_out), the writer, and two histories: accepted from
      callers of write, pushed to the device. */
  datatype Tx = Tx(buf: seq<Byte>, into: nat, out: nat, writer: Writer, accepted: seq<Byte>, pushed: seq<Byte>)
  {
    predicate Shape() { 2 <= |buf| && into < |buf| && out < |buf| }

    function Held(): seq<Byte>
      requires Shape()
    {
      Contents(buf, out, into)
    }
  }

  const IDLE_WRITER := Writer(NotWriting, [], 0, false, 0, 0, 0, 0, 0)

  function BeginWrite(x: Tx, data: seq<Byte>, nonblock: bool): Tx {
    x.(writer := IDLE_WRITER.(data := data, nonblock := nonblock, pc := Fill))
  }

  /** The block copy: one byte at a time, then the new store index is published. */
  function CopyInNext(x: Tx): Tx
    requires x.Shape()
  {
    var w := x.writer;
    if w.k < w.n then
      if w.into + w.k < |x.buf| && w.done + w.k < |w.data| then
        x.(buf := x.buf[w.into + w.k := w.data[w.done + w.k]], writer := w.(k := w.k + 1))
      else x
    else
      x.(into := (w.into + w.n) % |x.buf|, writer := w.(done := w.done + w.n, pc := Fill))
  }

  /** Every other writer step; `waiting` is host_inactive < timeout, `inactive` is
      host_inactive != 0. */
  function WriterLocalNext(x: Tx, waiting: bool, inactive: bool): Writer
    requires x.Shape()
  {
    var w := x.writer;
    match w.pc
    case Fill => if w.Count() > 0 then w.(into := x.into, pc := LoadTxOut) else w.(pc := Kick)
    case LoadTxOut =>
      var n := WriteRun(w.into, x.out, |x.buf|);
      if n <= 0 then w.(out := x.out, seen := |x.pushed|, pc := Kick)
      else w.(out := x.out, seen := |x.pushed|, n := if n > w.Count() >= 0 then w.Count() else n, k := 0, pc := CopyIn)
    case Kick => w.(pc := DecideWrite)
    case DecideWrite => w.(pc := if w.Count() > 0 && !w.nonblock then SpinTxOut else EndWrite)
    case SpinTxOut => w.(pc := if w.out == x.out then SpinWriteHost else CheckHost)
    case SpinWriteHost => w.(pc := if waiting then SpinTxOut else CheckHost)
    case CheckHost => w.(pc := if inactive || w.Count() <= 0 then EndWrite else Fill)
    case _ => w
  }

  function WriterNext(x: Tx, waiting: bool, inactive: bool): Tx
    requires x.Shape()
  {
    var w := x.writer;
    if w.pc == CopyIn then CopyInNext(x)
    else if w.pc == EndWrite && w.done <= |w.data| then
      x.(accepted := x.accepted + w.data[..w.done], writer := IDLE_WRITER)
    else x.(writer := WriterLocalNext(x, waiting, inactive))
  }

  /** The interrupt routine pushes the oldest ring byte to the data register. */
  function PushByte(x: Tx): Tx
    requires x.Shape()
  {
    x.(out := Next(x.out, |x.buf|), pushed := x.pushed + [x.buf[x.out]])
  }

  // ---------------------------------------------------------------- invariant

  /** Conservation: what callers handed over is what the device got plus the ring. */
  ghost predicate Flow(x: Tx)
    requires x.Shape()
  {
    && x.writer.done <= |x.writer.data|
    && x.accepted + x.writer.data[..x.writer.done] == x.pushed + x.Held()
  }

  /** The ring was full when tx_out was loaded, and nothing was published since. */
  ghost predicate SawFull(x: Tx)
    requires x.Shape()
  {
    && x.writer.seen <= |x.pushed|
    && |x.pushed| + |x.Held()| == x.writer.seen + |x.buf| - 1
    && x.writer.out == Next(x.into, |x.buf|)
  }

  ghost predicate CopyOk(x: Tx)
    requires x.Shape()
  {
    var w := x.writer;
    && w.into == x.into && w.k <= w.n && 0 < w.n <= w.Count() && w.n <= WriteRun(x.into, x.out, |x.buf|)
    && w.into + w.n <= |x.buf| && x.buf[w.into..w.into + w.k] == w.data[w.done..w.done + w.k]
  }

  ghost predicate WriterOk(x: Tx)
    requires x.Shape()
  {
    var w := x.writer;
    && (w.pc == NotWriting ==> w.done == 0)
    && (w.pc == LoadTxOut ==> w.Count() > 0 && w.into == x.into)
    && (w.pc == CopyIn ==> CopyOk(x))
    && (w.pc in {Kick, DecideWrite} && w.Count() > 0 ==> SawFull(x))
    && (w.pc in {SpinTxOut, SpinWriteHost} ==> w.Count() > 0 && SawFull(x))
    && (w.pc == CheckHost ==> w.Count() > 0)
  }

  ghost predicate TxInv(x: Tx) {
    x.Shape() && Flow(x) && WriterOk(x)
  }

  lemma BeginKeepsInv(x: Tx, data: seq<Byte>, nonblock: bool)
    requires TxInv(x) && x.writer.pc == NotWriting
    ensures TxInv(BeginWrite(x, data, nonblock)) && x.writer.done == 0
  {
    assert x.writer.data[..0] == data[..0];
  }

  // A run of no cells means the ring is full.
  lemma NoRoomIsFull(x: Tx)
    requires x.Shape()
    ensures WriteRun(x.into, x.out, |x.buf|) >= 0
    ensures WriteRun(x.into, x.out, |x.buf|) == 0 <==> Next(x.into, |x.buf|) == x.out
    ensures x.into + WriteRun(x.into, x.out, |x.buf|) <= |x.buf|
  {
    Wrap(x.into, 1, |x.buf|);
  }

  lemma LoadKeepsInv(x: Tx, waiting: bool, inactive: bool)
    requires TxInv(x) && x.writer.pc == LoadTxOut
    ensures TxInv(x.(writer := WriterLocalNext(x, waiting, inactive)))
  {
    Occupancy(x.buf, x.out, x.into);
    NoRoomIsFull(x);
  }

  lemma LocalKeepsInv(x: Tx, waiting: bool, inactive: bool)
    requires TxInv(x) && x.writer.pc !in {CopyIn, EndWrite, LoadTxOut}
    ensures TxInv(x.(writer := WriterLocalNext(x, waiting, inactive)))
  {
    assert Flow(x.(writer := WriterLocalNext(x, waiting, inactive)));
  }

  lemma CopyByteKeepsInv(x: Tx)
    requires TxInv(x) && x.writer.pc == CopyIn && x.writer.k < x.writer.n
    ensures TxInv(CopyInNext(x))
  {
    var y, w := CopyInNext(x), x.writer;
    StoreOutside(x.buf, x.out, x.into, w.k, w.data[w.done + w.k]);
    CopiedOneMore(x.buf, w.data, w.into, w.done, w.k);
    hide Contents, WriteRun;
    assert WriterOk(y);
  }

  lemma CopiedOneMore(buf: seq<Byte>, data: seq<Byte>, into: nat, done: nat, k: nat)
    requires into + k < |buf| && done + k < |data| && buf[into..into + k] == data[done..done + k]
    ensures buf[into + k := data[done + k]][into..into + k + 1] == data[done..done + k + 1]
  {
    var c := buf[into + k := data[done + k]];
    assert c[into..into + k + 1] == buf[into..into + k] + [data[done + k]];
    assert data[done..done + k + 1] == data[done..done + k] + [data[done + k]];
  }

  lemma CopyDoneKeepsInv(x: Tx)
    requires TxInv(x) && x.writer.pc == CopyIn && x.writer.k == x.writer.n
    ensures TxInv(CopyInNext(x))
  {
    var w := x.writer;
    var block := w.data[w.done..w.done + w.n];
    assert x.buf[x.into..x.into + w.n] == block;
    Publish(x.buf, x.out, x.into, w.n);
    hide Contents, WriteRun;
    assert w.data[..w.done + w.n] == w.data[..w.done] + block;
    Appended(x.accepted, w.data[..w.done], x.pushed, x.Held(), block);
  }

  lemma Appended(a: seq<Byte>, b: seq<Byte>, c: seq<Byte>, d: seq<Byte>, more: seq<Byte>)
    requires a + b == c + d
    ensures a + (b + more) == c + (d + more)
  {
    assert a + (b + more) == (a + b) + more;
    assert c + (d + more) == (c + d) + more;
  }

  lemma WriterKeepsInv(x: Tx, waiting: bool, inactive: bool)
    requires TxInv(x)
    ensures TxInv(WriterNext(x, waiting, inactive))
  {
    if x.writer.pc == CopyIn {
      if x.writer.k < x.writer.n { CopyByteKeepsInv(x); } else { CopyDoneKeepsInv(x); }
    } else if x.writer.pc == EndWrite {
      var y := WriterNext(x, waiting, inactive);
      assert y.accepted + y.writer.data[..0] == y.accepted;
    } else if x.writer.pc == LoadTxOut {
      LoadKeepsInv(x, waiting, inactive);
    } else {
      LocalKeepsInv(x, waiting, inactive);
    }
  }

  lemma PushKeepsFlow(x: Tx)
    requires TxInv(x) && x.out != x.into
    ensures PushByte(x).Shape() && Flow(PushByte(x))
    ensures |PushByte(x).Held()| == |x.Held()| - 1
  {
    var y := PushByte(x);
    Pop(x.buf, x.out, x.into);
    assert x.pushed + ([x.buf[x.out]] + y.Held()) == y.pushed + y.Held();
  }

  // The interrupt routine only ever improves what the writer has loaded.
  lemma PushKeepsInv(x: Tx)
    requires TxInv(x) && x.out != x.into
    ensures TxInv(PushByte(x))
  {
    PushKeepsFlow(x);
    RunsGrow(x.into, x.out, |x.buf|);
    assert WriterOk(PushByte(x));
  }

  // ------------------------------------------------------------- consequences

  // The spin test compares indices modulo LEN, yet it is exact.
  lemma SpinExact(x: Tx)
    requires TxInv(x) && x.writer.pc in {SpinTxOut, SpinWriteHost}
    ensures x.writer.out == x.out <==> |x.pushed| == x.writer.seen
  {
    Occupancy(x.buf, x.out, x.into);
    Wrap(x.into, 1, |x.buf|);
    Wrap(x.out, |x.Held()|, |x.buf|);
  }

  // How a writer step moves the two facts the transmit mask depends on: bytes are
  // added to the ring only on the way to the step that sets WE.
  lemma WriterKeepsPromise(x: Tx, waiting: bool, inactive: bool)
    requires TxInv(x)
    ensures var y := WriterNext(x, waiting, inactive);
      && y.Shape() && y.out == x.out
      && (x.writer.pc != CopyIn ==> y.into == x.into)
      && (x.writer.pc in {Fill, LoadTxOut, CopyIn} ==> y.writer.pc in {Fill, LoadTxOut, CopyIn, Kick})
      && (x.writer.pc in {Fill, LoadTxOut} ==> y.writer.done == x.writer.done)
      && (x.writer.pc == CopyIn ==> y.writer.done > 0 || (y.writer.done == x.writer.done && y.into == x.into))
  {
  }
}
