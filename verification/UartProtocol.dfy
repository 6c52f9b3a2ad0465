/** The interrupt-driven JTAG UART driver as a transition system: a reader thread, a
    writer thread, the interrupt routine and the periodic host-presence alarm share
    the driver state and a device.  While the interrupt routine runs, threads and
    alarm do not (single processor, no nesting), but the host may act between any
    two of its device accesses. */
module UartProtocol {
  import opened Ring
  import R = UartReceive
  import T = UartTransmit

  const INT_MAX: nat := 0x7FFF_FFFF

  datatype Enables = Enables(re: bool, we: bool)

  /** The device's control register: enable bits, transmit room, activity bit. */
  datatype Device = Device(enabled: Enables, wspace: nat, ac: bool)

  datatype IsrPc = Away | Control | RxTest | RxTake | RxDone | TxTest

  /** Locals of the interrupt routine.  `work` is a proof variable: the remaining
      work when the control register was last read. */
  datatype Isr = Isr(pc: IsrPc, ravail: bool, wi: bool, space: nat, work: nat)

  const ISR_AWAY := Isr(Away, false, false, 0, 0)

  datatype State = State(rx: R.Rx, tx: T.Tx, irqEnable: Enables, hostInactive: nat, timeout: nat,
                         dev: Device, isr: Isr)
  {
    predicate Shape() { rx.Shape() && tx.Shape() }

    function Waiting(): bool { hostInactive < timeout }

    function SetEnable(e: Enables): State { this.(irqEnable := e, dev := dev.(enabled := e)) }

    /** Free receive slots + transmit occupancy + RE bit + WE bit. */
    function Work(): nat
      requires Shape()
    {
      Remaining(rx.buf, rx.into, rx.out, tx.buf, tx.into, tx.out, irqEnable)
    }
  }

  function Remaining(rxBuf: seq<Byte>, rxIn: nat, rxOut: nat, txBuf: seq<Byte>, txIn: nat, txOut: nat, e: Enables): nat
    requires rxIn < |rxBuf| && rxOut < |rxBuf| && txIn < |txBuf| && txOut < |txBuf|
  {
    Occupancy(rxBuf, rxOut, rxIn);
    |rxBuf| - 1 - |Contents(rxBuf, rxOut, rxIn)| + |Contents(txBuf, txOut, txIn)| + Bit(e.re) + Bit(e.we)
  }

  function Bit(b: bool): nat { if b then 1 else 0 }

  /** The state altera_avalon_jtag_uart_init leaves behind; buffers and transmit room
      may hold anything. */
  ghost predicate Initial(s: State) {
    && s.Shape()
    && s.rx.into == s.rx.out == s.tx.into == s.tx.out == 0
    && s.rx.fifo == s.rx.sent == s.rx.taken == s.rx.delivered == s.tx.accepted == s.tx.pushed == []
    && s.rx.reader == R.IDLE_READER && s.tx.writer == T.IDLE_WRITER
    && s.irqEnable == s.dev.enabled == Enables(true, false)
    && s.hostInactive == 0 && s.isr == ISR_AWAY
  }

  datatype Action =
    | CallRead(space: int, nonblock: bool)
    | ReaderStep
    | CallWrite(data: seq<Byte>, nonblock: bool)
    | WriterStep
    | Interrupt
    | ReadControl(ri: bool, wi: bool)
    | IsrStep(ravail: bool)
    | Alarm
    | CloserLooks
    | HostSends(b: Byte)
    | HostDrains
    | HostPolls

  /** When an action can happen.  Threads and the alarm need the interrupt routine
      away; the control register reports RI only with RE set and a byte waiting,
      WI only with WE set and room; a data read without a valid byte reports
      nothing further available. */
  predicate Enabled(s: State, a: Action) {
    match a
    case CallRead(_, _) => s.isr.pc == Away && s.rx.reader.pc == R.NotReading
    case ReaderStep => s.isr.pc == Away && s.rx.reader.pc != R.NotReading
    case CallWrite(_, _) => s.isr.pc == Away && s.tx.writer.pc == T.NotWriting
    case WriterStep => s.isr.pc == Away && s.tx.writer.pc != T.NotWriting
    case Interrupt => s.isr.pc == Away
    case ReadControl(ri, wi) =>
      && s.isr.pc == Control
      && (ri ==> s.dev.enabled.re && s.rx.fifo != [])
      && (wi ==> s.dev.enabled.we && s.dev.wspace > 0)
    case IsrStep(ravail) =>
      && s.isr.pc in {RxTest, RxTake, RxDone, TxTest}
      && (s.isr.pc == RxTake && s.rx.fifo == [] ==> !ravail)
    case Alarm => s.isr.pc == Away
    case CloserLooks => s.isr.pc == Away
    case _ => true
  }

  function ReaderNext(s: State): State
    requires s.Shape()
  {
    var t := s.(rx := R.ReaderNext(s.rx, s.Waiting()));
    if s.rx.reader.pc == R.LeaveRead && s.rx.reader.got != [] then t.SetEnable(s.irqEnable.(re := true)) else t
  }

  function WriterNext(s: State): State
    requires s.Shape()
  {
    var t := s.(tx := T.WriterNext(s.tx, s.Waiting(), s.hostInactive != 0));
    if s.tx.writer.pc == T.Kick then t.SetEnable(s.irqEnable.(we := true)) else t
  }

  /** The interrupt routine reads the control register and picks its branches. */
  function ControlNext(s: State, ri: bool, wi: bool): State
    requires s.Shape()
  {
    s.(isr := if !ri && !wi then ISR_AWAY
              else Isr(if ri then RxTest else TxTest, true, wi, s.dev.wspace, s.Work()))
  }

  /** One step of its receive loop. */
  function RxIsrNext(s: State, ravail: bool): State
    requires s.Shape()
  {
    var i := s.isr;
    match i.pc
    case RxTest => s.(isr := i.(pc := if s.rx.Full() then RxDone else RxTake))
    case RxTake =>
      if s.rx.fifo == [] then s.(isr := i.(ravail := ravail, pc := RxDone))
      else s.(rx := R.TakeByte(s.rx), isr := i.(ravail := ravail, pc := RxTest))
    case _ =>
      var t := s.(isr := i.(pc := if i.wi then TxTest else Control));
      if i.ravail then t.SetEnable(s.irqEnable.(re := false)) else t
  }

  /** One step of its transmit loop. */
  function TxIsrNext(s: State): State
    requires s.Shape()
  {
    var i := s.isr;
    if i.space > 0 && s.tx.out != s.tx.into then
      s.(tx := T.PushByte(s.tx), isr := i.(space := i.space - 1),
         dev := s.dev.(wspace := if s.dev.wspace > 0 then s.dev.wspace - 1 else 0))
    else if i.space > 0 then s.(isr := i.(pc := Control)).SetEnable(s.irqEnable.(we := false))
    else s.(isr := i.(pc := Control))
  }

  function AlarmNext(s: State): State {
    if s.dev.ac then s.(dev := s.dev.(enabled := s.irqEnable, ac := false), hostInactive := 0)
    else if s.hostInactive < INT_MAX - 2 then s.(hostInactive := s.hostInactive + 1)
    else s
  }

  function Do(s: State, a: Action): State
    requires s.Shape()
  {
    match a
    case CallRead(space, nonblock) => s.(rx := R.BeginRead(s.rx, space, nonblock))
    case ReaderStep => ReaderNext(s)
    case CallWrite(data, nonblock) => s.(tx := T.BeginWrite(s.tx, data, nonblock))
    case WriterStep => WriterNext(s)
    case Interrupt => s.(isr := ISR_AWAY.(pc := Control, work := s.Work() + 1))
    case ReadControl(ri, wi) => ControlNext(s, ri, wi)
    case IsrStep(ravail) => if s.isr.pc == TxTest then TxIsrNext(s) else RxIsrNext(s, ravail)
    case Alarm => AlarmNext(s)
    case CloserLooks => s
    case HostSends(b) => s.(rx := R.HostSend(s.rx, b))
    case HostDrains => s.(dev := s.dev.(wspace := s.dev.wspace + 1))
    case HostPolls => s.(dev := s.dev.(ac := true))
  }

  // Steps of the block copies, of the interrupt routine's push and of the two kicks, as
  // they change the whole state.
  lemma WriterCopies(s: State)
    requires s.Shape() && s.isr.pc == Away && s.tx.writer.pc == T.CopyIn
    ensures Enabled(s, WriterStep) && Do(s, WriterStep) == s.(tx := T.CopyInNext(s.tx))
  {
  }

  lemma IsrPushes(s: State)
    requires s.Shape() && s.isr.pc == TxTest && s.isr.space > 0 && s.tx.out != s.tx.into
    ensures Enabled(s, IsrStep(false))
    ensures Do(s, IsrStep(false)) == s.(tx := T.PushByte(s.tx), isr := s.isr.(space := s.isr.space - 1),
                                        dev := s.dev.(wspace := if s.dev.wspace > 0 then s.dev.wspace - 1 else 0))
  {
  }

  lemma WriterKicks(s: State)
    requires s.Shape() && s.isr.pc == Away && s.tx.writer.pc == T.Kick
    ensures Enabled(s, WriterStep)
    ensures Do(s, WriterStep)
            == s.(tx := s.tx.(writer := s.tx.writer.(pc := T.DecideWrite))).SetEnable(s.irqEnable.(we := true))
  {
  }

  /** Where a sequence of actions leads from `init`; None if one of them was not enabled. */
  datatype Outcome = Stuck | At(s: State)

  function Run(init: State, acts: seq<Action>): Outcome {
    if acts == [] then At(init)
    else
      var a := acts[|acts| - 1];
      match Run(init, acts[..|acts| - 1])
      case At(s) => if s.Shape() && Enabled(s, a) then At(Do(s, a)) else Stuck
      case Stuck => Stuck
  }

  // ---------------------------------------------------------------- invariant

  /** The enable bits: the device agrees with the shadow, and a direction is masked
      only when nothing can be forgotten. */
  ghost predicate EnablesOk(s: State)
    requires s.Shape()
  {
    && s.dev.enabled == s.irqEnable
    && (!s.irqEnable.re ==> s.rx.Full() || (s.rx.reader.got != [] && s.rx.reader.pc != R.EndRead))
    && (!s.irqEnable.we && s.tx.into != s.tx.out ==>
          s.tx.writer.done > 0 && s.tx.writer.pc in {T.Fill, T.LoadTxOut, T.CopyIn, T.Kick})
  }

  /** The interrupt routine: it never holds more transmit credit than the device has,
      and by the end of every pass the remaining work has gone down. */
  ghost predicate IsrOk(s: State)
    requires s.Shape()
  {
    var i, work := s.isr, s.Work();
    && (i.pc == Control ==> work < i.work)
    && (i.pc in {RxTest, RxTake, RxDone, TxTest} ==> i.space <= s.dev.wspace)
    && (i.pc in {RxTest, RxTake, RxDone} ==> s.irqEnable.re && (i.wi ==> i.space > 0 && s.irqEnable.we))
    && (i.pc == RxTest ==> work < i.work || (work == i.work && i.ravail && s.rx.fifo != []))
    && (i.pc == RxTake ==> !s.rx.Full() && (work < i.work || (work == i.work && s.rx.fifo != [])))
    && (i.pc == RxDone ==> (i.ravail ==> s.rx.Full()) && (work < i.work || (work == i.work && i.ravail)))
    && (i.pc == TxTest ==> work < i.work || (work == i.work && i.space > 0 && s.irqEnable.we))
  }

  ghost predicate Inv(s: State) {
    R.RxInv(s.rx) && T.TxInv(s.tx) && EnablesOk(s) && IsrOk(s)
  }

  lemma ReaderKeepsInv(s: State)
    requires Inv(s) && Enabled(s, ReaderStep)
    ensures Inv(ReaderNext(s))
  {
    hide R.Flow, R.ReaderOk, T.Flow, T.WriterOk;
    R.ReaderKeepsInv(s.rx, s.Waiting());
    R.ReaderKeepsPromise(s.rx, s.Waiting());
  }

  lemma WriterKeepsInv(s: State)
    requires Inv(s) && Enabled(s, WriterStep)
    ensures Inv(WriterNext(s))
  {
    hide R.Flow, R.ReaderOk, T.Flow, T.WriterOk;
    T.WriterKeepsInv(s.tx, s.Waiting(), s.hostInactive != 0);
    T.WriterKeepsPromise(s.tx, s.Waiting(), s.hostInactive != 0);
  }

  lemma TakeShrinks(s: State, t: State)
    requires Inv(s) && s.isr.pc == RxTake && s.rx.fifo != []
    requires t.rx == R.TakeByte(s.rx) && t.tx == s.tx && t.irqEnable == s.irqEnable
    ensures t.Shape() && t.Work() == s.Work() - 1
  {
    hide R.Flow, R.ReaderOk, T.Flow, T.WriterOk;
    R.TakeKeepsInv(s.rx);
  }

  lemma RxIsrKeepsInv(s: State, ravail: bool)
    requires Inv(s) && Enabled(s, IsrStep(ravail)) && s.isr.pc != TxTest
    ensures Inv(RxIsrNext(s, ravail))
  {
    hide R.Flow, R.ReaderOk, T.Flow, T.WriterOk;
    if s.isr.pc == RxTake && s.rx.fifo != [] {
      R.TakeKeepsInv(s.rx);
    }
  }

  lemma TxIsrKeepsInv(s: State)
    requires Inv(s) && s.isr.pc == TxTest
    ensures Inv(TxIsrNext(s))
  {
    hide R.Flow, R.ReaderOk, T.Flow, T.WriterOk;
    if s.isr.space > 0 && s.tx.out != s.tx.into {
      T.PushKeepsFlow(s.tx);
      T.PushKeepsInv(s.tx);
    }
  }

  lemma StepKeepsInv(s: State, a: Action)
    requires Inv(s) && Enabled(s, a)
    ensures Inv(Do(s, a))
  {
    hide R.Flow, R.ReaderOk, T.Flow, T.WriterOk;
    match a
    case CallRead(space, nonblock) => R.BeginKeepsInv(s.rx, space, nonblock);
    case CallWrite(data, nonblock) => T.BeginKeepsInv(s.tx, data, nonblock);
    case ReaderStep => ReaderKeepsInv(s);
    case WriterStep => WriterKeepsInv(s);
    case IsrStep(ravail) => if s.isr.pc == TxTest { TxIsrKeepsInv(s); } else { RxIsrKeepsInv(s, ravail); }
    case HostSends(b) => R.SendKeepsInv(s.rx, b);
    case _ =>
  }

  // Every state of every run, whatever the interleaving, satisfies the invariant.
  lemma {:induction false} RunKeepsInv(init: State, acts: seq<Action>)
    requires Initial(init) && Run(init, acts).At?
    ensures Inv(Run(init, acts).s)
  {
    if acts != [] {
      var before := acts[..|acts| - 1];
      RunKeepsInv(init, before);
      StepKeepsInv(Run(init, before).s, acts[|acts| - 1]);
    }
  }

  lemma {:induction false} RunExtends(init: State, acts: seq<Action>, a: Action)
    requires Initial(init) && Run(init, acts).At? && Enabled(Run(init, acts).s, a)
    ensures Run(init, acts).s.Shape() && Run(init, acts + [a]) == At(Do(Run(init, acts).s, a))
  {
    RunKeepsInv(init, acts);
    assert (acts + [a])[..|acts|] == acts;
  }

  // ------------------------------------------------------- what a run went through

  /** Reasons a call may have for giving up. */
  datatype Sight = RxEmpty | TxFull | HostTimedOut

  predicate Shows(s: State, what: Sight) {
    match what
    case RxEmpty => s.rx.Shape() && s.rx.Held() == []
    case TxFull => s.tx.Shape() && |s.tx.Held()| == |s.tx.buf| - 1
    case HostTimedOut => !s.Waiting()
  }

  predicate ShowsAt(init: State, acts: seq<Action>, m: nat, what: Sight)
    requires m <= |acts|
  {
    var r := Run(init, acts[..m]);
    r.At? && Shows(r.s, what)
  }

  /** Some state of the run, from the `from`-th on, showed it. */
  ghost predicate Saw(init: State, acts: seq<Action>, from: nat, what: Sight) {
    exists m :: from <= m <= |acts| && ShowsAt(init, acts, m, what)
  }

  lemma SawNow(init: State, acts: seq<Action>, from: nat, what: Sight)
    requires from <= |acts| && Run(init, acts).At? && Shows(Run(init, acts).s, what)
    ensures Saw(init, acts, from, what)
  {
    assert acts[..|acts|] == acts;
    hide Run, Shows;
    assert ShowsAt(init, acts, |acts|, what);
  }

  lemma SawStill(init: State, acts: seq<Action>, from: nat, longer: seq<Action>, earlier: nat, what: Sight)
    requires Saw(init, acts, from, what) && acts <= longer && earlier <= from
    ensures Saw(init, longer, earlier, what)
  {
    hide Run, Shows;
    var m :| from <= m <= |acts| && ShowsAt(init, acts, m, what);
    assert longer[..m] == acts[..m];
    assert ShowsAt(init, longer, m, what);
  }

  /** What a caller that has to wait compares, over and over. */
  datatype Spin = OnInput | OnRoom | OnDrain

  /** The `m`-th action of the run is such a comparison. */
  predicate Compares(init: State, acts: seq<Action>, m: nat, spin: Spin)
    requires m < |acts|
  {
    var r := Run(init, acts[..m]);
    && r.At?
    && match spin
       case OnInput => acts[m] == ReaderStep && r.s.rx.reader.pc == R.SpinRxIn
       case OnRoom => acts[m] == WriterStep && r.s.tx.writer.pc == T.SpinTxOut
       case OnDrain => acts[m] == CloserLooks && r.s.tx.out != r.s.tx.into && r.s.hostInactive < r.s.timeout
  }

  /** How many comparisons the run made, from the `from`-th action on. */
  ghost function Compared(init: State, acts: seq<Action>, from: nat, spin: Spin): nat
    decreases acts
  {
    if |acts| <= from then 0
    else Compared(init, acts[..|acts| - 1], from, spin) + if Compares(init, acts, |acts| - 1, spin) then 1 else 0
  }

  lemma ComparedOnce(init: State, acts: seq<Action>, act: Action, spin: Spin)
    requires Compares(init, acts + [act], |acts|, spin)
    ensures Compared(init, acts + [act], |acts|, spin) == 1
  {
    assert (acts + [act])[..|acts|] == acts;
    hide Run, Compares;
  }

  lemma {:induction false} ComparedAdds(init: State, acts: seq<Action>, from: nat, longer: seq<Action>, spin: Spin)
    requires acts <= longer && from <= |acts|
    ensures Compared(init, longer, from, spin)
            == Compared(init, acts, from, spin) + Compared(init, longer, |acts|, spin)
  {
    hide Run, Compares;
    if |acts| < |longer| {
      ComparedAdds(init, acts, from, longer[..|longer| - 1], spin);
    } else {
      assert longer == acts;
    }
  }

  // ----------------------------------------------------- theorems over all runs

  // Receive: what the host sent is, at every moment, what callers were handed, then
  // the running call's bytes, then the ring, then the device FIFO; a call is never
  // handed more than it asked for.
  lemma {:induction false} ReceiveInOrder(init: State, acts: seq<Action>)
    requires Initial(init) && Run(init, acts).At?
    ensures var rx := Run(init, acts).s.rx;
      && rx.Shape()
      && rx.sent == rx.delivered + rx.reader.got + rx.Held() + rx.fifo
      && rx.taken == rx.delivered + rx.reader.got + rx.Held()
      && (rx.reader.got != [] ==> |rx.reader.got| <= rx.reader.asked)
  {
    RunKeepsInv(init, acts);
    var rx := Run(init, acts).s.rx;
    hide Run, Inv;
    R.InOrder(rx);
    if rx.reader.got != [] {
      R.WithinSpace(rx);
    }
  }

  // Transmit: what calls of write accepted is, at every moment, what the device got,
  // then the ring.
  lemma {:induction false} TransmitInOrder(init: State, acts: seq<Action>)
    requires Initial(init) && Run(init, acts).At?
    ensures var tx := Run(init, acts).s.tx;
      && tx.Shape() && tx.writer.done <= |tx.writer.data|
      && tx.accepted + tx.writer.data[..tx.writer.done] == tx.pushed + tx.Held()
  {
    RunKeepsInv(init, acts);
  }

  // Neither side is overrun: a byte is taken only into a free cell, and pushed only
  // when the device has room for everything still credited.
  lemma {:induction false} NoOverrun(init: State, acts: seq<Action>)
    requires Initial(init) && Run(init, acts).At?
    ensures var s := Run(init, acts).s;
      && s.Shape()
      && (s.isr.pc == RxTake ==> !s.rx.Full())
      && (s.isr.pc == TxTest ==> s.isr.space <= s.dev.wspace)
  {
    RunKeepsInv(init, acts);
  }

  // No lost transmit wake-up: bytes wait with WE clear only while a writer that has
  // published some is on its way to set WE; a writer spinning on an unmoved tx_out has
  // a full ring behind an armed interrupt.
  lemma {:induction false} TransmitArmed(init: State, acts: seq<Action>)
    requires Initial(init) && Run(init, acts).At?
    ensures var s := Run(init, acts).s;
      && s.Shape() && s.dev.enabled == s.irqEnable
      && (s.tx.Held() != [] && !s.dev.enabled.we ==>
            s.tx.writer.done > 0 && s.tx.writer.pc in {T.Fill, T.LoadTxOut, T.CopyIn, T.Kick})
      && (s.tx.writer.pc in {T.SpinTxOut, T.SpinWriteHost} && s.tx.writer.out == s.tx.out ==>
            s.dev.enabled.we && |s.tx.Held()| == |s.tx.buf| - 1)
  {
    RunKeepsInv(init, acts);
    var s := Run(init, acts).s;
    Occupancy(s.tx.buf, s.tx.out, s.tx.into);
    if s.tx.writer.pc in {T.SpinTxOut, T.SpinWriteHost} {
      T.SpinExact(s.tx);
    }
  }

  // No lost receive wake-up: RE is clear only with the ring full or a reader holding
  // bytes that has yet to set RE; a reader spinning on an unmoved rx_in has an empty
  // ring behind an armed interrupt.
  lemma {:induction false} ReceiveArmed(init: State, acts: seq<Action>)
    requires Initial(init) && Run(init, acts).At?
    ensures var s := Run(init, acts).s;
      && s.Shape() && s.dev.enabled == s.irqEnable
      && (!s.dev.enabled.re ==>
            |s.rx.Held()| == |s.rx.buf| - 1 || (s.rx.reader.got != [] && s.rx.reader.pc != R.EndRead))
      && (s.rx.reader.pc in {R.SpinRxIn, R.SpinReadHost} && s.rx.reader.into == s.rx.into ==>
            s.dev.enabled.re && s.rx.Held() == [])
  {
    RunKeepsInv(init, acts);
    var s := Run(init, acts).s;
    Occupancy(s.rx.buf, s.rx.out, s.rx.into);
  }

  // The spin tests compare indices modulo LEN, yet are exact after any number of
  // interrupts: unchanged means that not one byte moved.
  lemma {:induction false} SpinsExact(init: State, acts: seq<Action>)
    requires Initial(init) && Run(init, acts).At?
    ensures var s := Run(init, acts).s;
      && (s.rx.reader.pc in {R.SpinRxIn, R.SpinReadHost, R.RecheckRx} ==>
            (s.rx.reader.into == s.rx.into <==> |s.rx.taken| == s.rx.reader.seen))
      && (s.tx.writer.pc in {T.SpinTxOut, T.SpinWriteHost} ==>
            (s.tx.writer.out == s.tx.out <==> |s.tx.pushed| == s.tx.writer.seen))
  {
    RunKeepsInv(init, acts);
    var s := Run(init, acts).s;
    if s.rx.reader.pc in {R.SpinRxIn, R.SpinReadHost, R.RecheckRx} {
      R.SpinExact(s.rx);
    }
    if s.tx.writer.pc in {T.SpinTxOut, T.SpinWriteHost} {
      T.SpinExact(s.tx);
    }
  }

  // Each pass of the interrupt routine leaves less to do than there was when it read
  // the control register, whatever the host sends or drains meanwhile.
  lemma {:induction false} PassesShrink(init: State, acts: seq<Action>, ravail: bool)
    requires Initial(init) && Run(init, acts).At?
    requires Enabled(Run(init, acts).s, IsrStep(ravail))
    ensures var s := Run(init, acts).s; s.Shape() && var t := Do(s, IsrStep(ravail));
      t.Shape() && t.isr.work == s.isr.work && (t.isr.pc == Control ==> t.Work() < s.isr.work)
  {
    RunKeepsInv(init, acts);
    StepKeepsInv(Run(init, acts).s, IsrStep(ravail));
  }

  /** The state after `acts` and the first `n` of `more`. */
  function Within(init: State, acts: seq<Action>, more: seq<Action>, n: nat): Outcome
    requires n <= |more|
  {
    Run(init, acts + more[..n])
  }

  lemma WithinStep(init: State, acts: seq<Action>, more: seq<Action>, n: nat)
    requires Initial(init) && 0 < n <= |more| && Within(init, acts, more, n).At?
    ensures Within(init, acts, more, n - 1).At? && Inv(Within(init, acts, more, n - 1).s)
    ensures var s := Within(init, acts, more, n - 1).s;
      s.Shape() && Enabled(s, more[n - 1]) && Within(init, acts, more, n) == At(Do(s, more[n - 1]))
  {
    var before, a := acts + more[..n - 1], more[n - 1];
    assert acts + more[..n] == before + [a] && (before + [a])[..|before|] == before;
    hide Inv, Do, Enabled;
    assert Run(init, before).At?;
    RunKeepsInv(init, before);
    InvShape(Run(init, before).s);
  }

  lemma InvShape(s: State)
    ensures Inv(s) ==> s.Shape()
  {
  }

  predicate WriterSpins(s: State) { s.tx.writer.pc in {T.SpinTxOut, T.SpinWriteHost} }

  predicate ReaderSpins(s: State) { s.rx.reader.pc in {R.SpinRxIn, R.SpinReadHost} }

  /** What a spinning thread holds is unchanged, and the other side's history has grown. */
  predicate SpunOn(s: State, t: State) {
    && (WriterSpins(s) && WriterSpins(t) ==>
          t.tx.writer.out == s.tx.writer.out && t.tx.writer.seen == s.tx.writer.seen && s.tx.pushed <= t.tx.pushed)
    && (ReaderSpins(s) && ReaderSpins(t) ==>
          t.rx.reader.into == s.rx.reader.into && t.rx.reader.seen == s.rx.reader.seen && s.rx.taken <= t.rx.taken)
  }

  lemma SpinStep(s: State, a: Action)
    requires Inv(s) && Enabled(s, a)
    ensures SpunOn(s, Do(s, a))
  {
    hide R.Flow, R.ReaderOk, T.Flow, T.WriterOk;
  }

  lemma {:induction false} WriterSpinsOn(init: State, acts: seq<Action>, more: seq<Action>, n: nat)
    requires Initial(init) && n <= |more| && Within(init, acts, more, n).At?
    requires forall m :: 0 <= m <= n ==> Within(init, acts, more, m).At? && WriterSpins(Within(init, acts, more, m).s)
    ensures var s, t := Within(init, acts, more, 0).s, Within(init, acts, more, n).s;
      t.tx.writer.out == s.tx.writer.out && t.tx.writer.seen == s.tx.writer.seen && s.tx.pushed <= t.tx.pushed
  {
    if n > 0 {
      WriterSpinsOn(init, acts, more, n - 1);
      WithinStep(init, acts, more, n);
      hide Within, Run, Inv, Do, Enabled, Initial, WriterSpins;
      var s := Within(init, acts, more, n - 1).s;
      SpinStep(s, more[n - 1]);
      assert WriterSpins(s) && WriterSpins(Do(s, more[n - 1]));
    }
  }

  lemma {:induction false} ReaderSpinsOn(init: State, acts: seq<Action>, more: seq<Action>, n: nat)
    requires Initial(init) && n <= |more| && Within(init, acts, more, n).At?
    requires forall m :: 0 <= m <= n ==> Within(init, acts, more, m).At? && ReaderSpins(Within(init, acts, more, m).s)
    ensures var s, t := Within(init, acts, more, 0).s, Within(init, acts, more, n).s;
      t.rx.reader.into == s.rx.reader.into && t.rx.reader.seen == s.rx.reader.seen && s.rx.taken <= t.rx.taken
  {
    if n > 0 {
      ReaderSpinsOn(init, acts, more, n - 1);
      WithinStep(init, acts, more, n);
      hide Within, Run, Inv, Do, Enabled, Initial, ReaderSpins;
      var s := Within(init, acts, more, n - 1).s;
      SpinStep(s, more[n - 1]);
      assert ReaderSpins(s) && ReaderSpins(Do(s, more[n - 1]));
    }
  }

  // However a run goes on while a writer spins, its test fails as soon as, and only if, a
  // byte has been pushed since the spin began with an unmoved tx_out.
  lemma {:induction false} PushEndsSpin(init: State, acts: seq<Action>, more: seq<Action>)
    requires Initial(init)
    requires forall m :: 0 <= m <= |more|
                         ==> Within(init, acts, more, m).At? && WriterSpins(Within(init, acts, more, m).s)
    requires var s := Within(init, acts, more, 0).s; s.tx.writer.out == s.tx.out
    ensures var s, t := Within(init, acts, more, 0).s, Within(init, acts, more, |more|).s;
      s.tx.pushed <= t.tx.pushed && (t.tx.writer.out != t.tx.out <==> |t.tx.pushed| > |s.tx.pushed|)
  {
    WriterSpinsOn(init, acts, more, |more|);
    SpinsExact(init, acts + more[..0]);
    SpinsExact(init, acts + more[..|more|]);
    hide Run;
  }

  // The same for a reader and the bytes taken.
  lemma {:induction false} TakeEndsSpin(init: State, acts: seq<Action>, more: seq<Action>)
    requires Initial(init)
    requires forall m :: 0 <= m <= |more|
                         ==> Within(init, acts, more, m).At? && ReaderSpins(Within(init, acts, more, m).s)
    requires var s := Within(init, acts, more, 0).s; s.rx.reader.into == s.rx.into
    ensures var s, t := Within(init, acts, more, 0).s, Within(init, acts, more, |more|).s;
      s.rx.taken <= t.rx.taken && (t.rx.reader.into != t.rx.into <==> |t.rx.taken| > |s.rx.taken|)
  {
    ReaderSpinsOn(init, acts, more, |more|);
    SpinsExact(init, acts + more[..0]);
    SpinsExact(init, acts + more[..|more|]);
    hide Run;
  }

  lemma PushReleases(s: State)
    requires Inv(s) && s.isr.pc == Away && s.tx.writer.out == s.tx.out != s.tx.into
    requires s.irqEnable.we && s.dev.wspace > 0
    ensures Enabled(s, Interrupt) && Do(s, Interrupt).Shape()
    ensures var t := Do(s, Interrupt); Enabled(t, ReadControl(false, true)) && Do(t, ReadControl(false, true)).Shape()
    ensures var u := Do(Do(s, Interrupt), ReadControl(false, true));
      Enabled(u, IsrStep(false)) && Do(u, IsrStep(false)).tx.writer.out != Do(u, IsrStep(false)).tx.out
  {
    assert Next(s.tx.out, |s.tx.buf|) != s.tx.out by { Wrap(s.tx.out, 1, |s.tx.buf|); }
    var u := Do(Do(s, Interrupt), ReadControl(false, true));
    assert u.isr.pc == TxTest && u.isr.space > 0 && u.tx == s.tx;
  }

  // A writer spinning on a full ring is released by the next transmit interrupt.
  lemma {:induction false} WriterReleased(init: State, acts: seq<Action>)
    requires Initial(init) && Run(init, acts).At?
    requires var s := Run(init, acts).s;
      s.isr.pc == Away && WriterSpins(s) && s.tx.writer.out == s.tx.out && s.dev.wspace > 0
    ensures var r := Run(init, acts + [Interrupt] + [ReadControl(false, true)] + [IsrStep(false)]);
      r.At? && r.s.tx.writer.out != r.s.tx.out
  {
    TransmitArmed(init, acts);
    RunKeepsInv(init, acts);
    PushReleases(Run(init, acts).s);
    RunExtends(init, acts, Interrupt);
    RunExtends(init, acts + [Interrupt], ReadControl(false, true));
    RunExtends(init, acts + [Interrupt] + [ReadControl(false, true)], IsrStep(false));
  }

  lemma TakeReleases(s: State)
    requires Inv(s) && s.isr.pc == Away && s.rx.reader.into == s.rx.into && !s.rx.Full()
    requires s.irqEnable.re && s.rx.fifo != []
    ensures Enabled(s, Interrupt) && Do(s, Interrupt).Shape()
    ensures var t := Do(s, Interrupt); Enabled(t, ReadControl(true, false)) && Do(t, ReadControl(true, false)).Shape()
    ensures var u := Do(Do(s, Interrupt), ReadControl(true, false));
      Enabled(u, IsrStep(false)) && Do(u, IsrStep(false)).Shape()
    ensures var v := Do(Do(Do(s, Interrupt), ReadControl(true, false)), IsrStep(false));
      Enabled(v, IsrStep(false)) && Do(v, IsrStep(false)).rx.reader.into != Do(v, IsrStep(false)).rx.into
  {
    hide R.Flow, R.ReaderOk, T.Flow, T.WriterOk, Contents;
    assert Next(s.rx.into, |s.rx.buf|) != s.rx.into by { Wrap(s.rx.into, 1, |s.rx.buf|); }
    var u := Do(Do(s, Interrupt), ReadControl(true, false));
    assert u.isr.pc == RxTest && u.rx == s.rx;
    var v := Do(u, IsrStep(false));
    assert v.isr.pc == RxTake && v.rx == s.rx;
  }

  // A reader spinning on an empty ring is released by the next receive interrupt.
  lemma {:induction false} ReaderReleased(init: State, acts: seq<Action>)
    requires Initial(init) && Run(init, acts).At?
    requires var s := Run(init, acts).s;
      s.isr.pc == Away && ReaderSpins(s) && s.rx.reader.into == s.rx.into && s.rx.fifo != []
    ensures var r := Run(init, acts + [Interrupt] + [ReadControl(true, false)] + [IsrStep(false)] + [IsrStep(false)]);
      r.At? && r.s.rx.reader.into != r.s.rx.into
  {
    var s := Run(init, acts).s;
    ReceiveArmed(init, acts);
    RunKeepsInv(init, acts);
    Occupancy(s.rx.buf, s.rx.out, s.rx.into);
    TakeReleases(s);
    RunExtends(init, acts, Interrupt);
    RunExtends(init, acts + [Interrupt], ReadControl(true, false));
    RunExtends(init, acts + [Interrupt] + [ReadControl(true, false)], IsrStep(false));
    RunExtends(init, acts + [Interrupt] + [ReadControl(true, false)] + [IsrStep(false)], IsrStep(false));
  }

  // ------------------------------------------------------- an absent host

  // What one action does to the count of inactive periods: only the alarm changes it, up by
  // one as far as 2^31 - 3, or to zero if the host was active since the alarm before.
  lemma HostStep(s: State, a: Action)
    requires s.Shape() && Enabled(s, a)
    ensures Do(s, a).timeout == s.timeout
    ensures a == Alarm && !s.dev.ac ==>
      Do(s, a).hostInactive == (if s.hostInactive < 2147483645 then s.hostInactive + 1 else s.hostInactive)
    ensures a == Alarm && s.dev.ac ==> Do(s, a).hostInactive == 0
    ensures a != Alarm ==> Do(s, a).hostInactive == s.hostInactive
    ensures a != HostPolls && !s.dev.ac ==> !Do(s, a).dev.ac
    ensures a == HostPolls ==> Do(s, a).dev.ac
  {
  }

  lemma {:induction false} HostCapped(init: State, acts: seq<Action>)
    requires Initial(init) && Run(init, acts).At?
    ensures Run(init, acts).s.hostInactive <= 2147483645 && Run(init, acts).s.timeout == init.timeout
  {
    if acts != [] {
      var before := acts[..|acts| - 1];
      HostCapped(init, before);
      RunKeepsInv(init, before);
      HostStep(Run(init, before).s, acts[|acts| - 1]);
    }
  }

  lemma OneMoreAlarm(acts: seq<Action>, n: nat)
    requires 0 < n <= |acts|
    ensures multiset(acts[..n])[Alarm] == multiset(acts[..n - 1])[Alarm] + if acts[n - 1] == Alarm then 1 else 0
  {
    assert acts[..n] == acts[..n - 1] + [acts[n - 1]];
  }

  lemma {:induction false} HostUncounted(init: State, acts: seq<Action>, more: seq<Action>, n: nat)
    requires Initial(init) && n <= |more| && Within(init, acts, more, n).At? && HostPolls !in more
    ensures Within(init, acts, more, 0).At?
    ensures var s, t := Within(init, acts, more, 0).s, Within(init, acts, more, n).s;
      !s.dev.ac ==>
        !t.dev.ac && (var h := s.hostInactive + multiset(more[..n])[Alarm];
                        t.hostInactive == if h < 2147483645 then h else 2147483645)
  {
    if n == 0 {
      assert acts + more[..0] == acts;
      HostCapped(init, acts);
    } else {
      WithinStep(init, acts, more, n);
      HostUncounted(init, acts, more, n - 1);
      InvShape(Within(init, acts, more, n - 1).s);
      OneMoreAlarm(more, n);
      hide Within, Run, Inv, Do, Enabled, Initial;
      HostStep(Within(init, acts, more, n - 1).s, more[n - 1]);
    }
  }

  // While the host does not poll, every alarm counts, whatever else goes on in between, up
  // to 2^31 - 3.
  lemma {:induction false} HostCounted(init: State, acts: seq<Action>, more: seq<Action>)
    requires Initial(init) && Run(init, acts).At? && !Run(init, acts).s.dev.ac
    requires Run(init, acts + more).At? && HostPolls !in more
    ensures var h := Run(init, acts).s.hostInactive + multiset(more)[Alarm];
      Run(init, acts + more).s.hostInactive == if h < 2147483645 then h else 2147483645
  {
    assert more[..|more|] == more && acts + more[..0] == acts;
    HostUncounted(init, acts, more, |more|);
    hide Run;
  }

  // So a host that stays away has timed out after as many alarms as the timeout says.
  lemma {:induction false} HostTimesOut(init: State, acts: seq<Action>, more: seq<Action>)
    requires Initial(init) && init.timeout <= 2147483645
    requires Run(init, acts).At? && !Run(init, acts).s.dev.ac
    requires Run(init, acts + more).At? && HostPolls !in more && multiset(more)[Alarm] >= init.timeout
    ensures var t := Run(init, acts + more).s; t.hostInactive >= t.timeout && t.timeout == init.timeout
  {
    hide *;
    HostCounted(init, acts, more);
    HostCapped(init, acts + more);
  }

  // A host that polls is present again from the next alarm on.
  lemma {:induction false} HostReturns(init: State, acts: seq<Action>)
    requires Initial(init) && Run(init, acts).At? && Run(init, acts).s.isr.pc == Away
    ensures var r := Run(init, acts + [HostPolls] + [Alarm]); r.At? && r.s.hostInactive == 0
  {
    RunExtends(init, acts, HostPolls);
    RunExtends(init, acts + [HostPolls], Alarm);
    hide Run, Inv;
  }

  lemma {:induction false} ReaderGoes(init: State, acts: seq<Action>, s: State)
    requires Initial(init) && Run(init, acts) == At(s) && s.isr.pc == Away && s.rx.reader.pc != R.NotReading
    ensures s.Shape() && Inv(s) && Run(init, acts + [ReaderStep]) == At(ReaderNext(s)) && ReaderNext(s).isr == s.isr
    ensures ReaderNext(s).hostInactive == s.hostInactive && ReaderNext(s).timeout == s.timeout
    ensures ReaderNext(s).rx == R.ReaderNext(s.rx, s.hostInactive < s.timeout)
  {
    RunKeepsInv(init, acts);
    RunExtends(init, acts, ReaderStep);
    hide Run, Inv;
  }

  lemma {:induction false} WriterGoes(init: State, acts: seq<Action>, s: State)
    requires Initial(init) && Run(init, acts) == At(s) && s.isr.pc == Away && s.tx.writer.pc != T.NotWriting
    ensures s.Shape() && Inv(s) && Run(init, acts + [WriterStep]) == At(WriterNext(s)) && WriterNext(s).isr == s.isr
    ensures WriterNext(s).hostInactive == s.hostInactive && WriterNext(s).timeout == s.timeout
    ensures WriterNext(s).tx == T.WriterNext(s.tx, s.hostInactive < s.timeout, s.hostInactive != 0)
  {
    RunKeepsInv(init, acts);
    RunExtends(init, acts, WriterStep);
    hide Run, Inv;
  }

  lemma SpinningHoldsNothing(s: State)
    requires Inv(s) && s.rx.reader.pc in {R.SpinRxIn, R.SpinReadHost, R.RecheckRx}
    ensures s.rx.reader.got == [] && s.rx.reader.space > 0
  {
  }

  // Once the host has timed out, a reader about to test it that sees no byte ends its call
  // by four steps of its own, with nothing delivered; one that sees a byte reads on.
  lemma {:induction false} ReaderGivesUp(init: State, acts: seq<Action>)
    requires Initial(init) && Run(init, acts).At? && Run(init, acts).s.isr.pc == Away
    requires var s := Run(init, acts).s; s.rx.reader.pc == R.SpinReadHost && s.hostInactive >= s.timeout
    ensures var s := Run(init, acts).s;
      var r, end := Run(init, acts + [ReaderStep] + [ReaderStep]),
                    Run(init, acts + [ReaderStep] + [ReaderStep] + [ReaderStep] + [ReaderStep]);
      && r.At? && r.s.rx.reader.pc == (if s.rx.reader.into == s.rx.into then R.LeaveRead else R.LoadRxIn)
      && (s.rx.reader.into == s.rx.into ==>
            end.At? && end.s.rx.reader.pc == R.NotReading && end.s.rx.delivered == s.rx.delivered)
  {
    var s := Run(init, acts).s;
    hide Run, Inv, Initial;
    ReaderGoes(init, acts, s);
    SpinningHoldsNothing(s);
    var a1, s1 := acts + [ReaderStep], ReaderNext(s);
    assert s1.rx == s.rx.(reader := s.rx.reader.(pc := R.RecheckRx));
    ReaderGoes(init, a1, s1);
    var a2, s2 := a1 + [ReaderStep], ReaderNext(s1);
    if s.rx.reader.into == s.rx.into {
      assert s2.rx == s.rx.(reader := s.rx.reader.(pc := R.LeaveRead));
      ReaderLeaves(init, a2, s2);
    }
  }

  lemma {:induction false} ReaderLeaves(init: State, acts: seq<Action>, s: State)
    requires Initial(init) && Run(init, acts) == At(s) && s.isr.pc == Away
    requires s.rx.reader.pc == R.LeaveRead && s.rx.reader.got == []
    ensures var end := Run(init, acts + [ReaderStep] + [ReaderStep]);
      end.At? && end.s.rx.reader.pc == R.NotReading && end.s.rx.delivered == s.rx.delivered
  {
    hide Run, Inv, Initial;
    ReaderGoes(init, acts, s);
    var t := ReaderNext(s);
    assert t.rx == s.rx.(reader := s.rx.reader.(pc := R.EndRead));
    ReaderGoes(init, acts + [ReaderStep], t);
  }

  // A writer about to test it ends its call as well, with the bytes it has published.
  lemma {:induction false} WriterGivesUp(init: State, acts: seq<Action>)
    requires Initial(init) && Run(init, acts).At? && Run(init, acts).s.isr.pc == Away
    requires var s := Run(init, acts).s; s.tx.writer.pc == T.SpinWriteHost && s.hostInactive >= s.timeout > 0
    ensures var s, w := Run(init, acts).s, Run(init, acts).s.tx.writer;
      var r, end := Run(init, acts + [WriterStep]), Run(init, acts + [WriterStep] + [WriterStep] + [WriterStep]);
      && r.At? && r.s.tx.writer.pc == T.CheckHost && w.done <= |w.data|
      && end.At? && end.s.tx.writer.pc == T.NotWriting && end.s.tx.accepted == s.tx.accepted + w.data[..w.done]
  {
    var s := Run(init, acts).s;
    hide Run, Inv, Initial;
    WriterGoes(init, acts, s);
    var a1, s1 := acts + [WriterStep], WriterNext(s);
    assert s1.tx == s.tx.(writer := s.tx.writer.(pc := T.CheckHost));
    WriterGoes(init, a1, s1);
    var a2, s2 := a1 + [WriterStep], WriterNext(s1);
    assert s2.tx == s.tx.(writer := s.tx.writer.(pc := T.EndWrite));
    WriterGoes(init, a2, s2);
    PublishedWithin(s);
  }

  lemma PublishedWithin(s: State)
    requires Inv(s)
    ensures s.tx.writer.done <= |s.tx.writer.data|
  {
  }

  // A comparison that finds the index unmoved leads on to the test of the host; one that
  // finds it moved ends the spin, and with the host present the writer fills the ring again.
  lemma {:induction false} SpinsGoOn(init: State, acts: seq<Action>)
    requires Initial(init) && Run(init, acts).At? && Run(init, acts).s.isr.pc == Away
    ensures var s, r := Run(init, acts).s, Run(init, acts + [ReaderStep]);
      s.rx.reader.pc == R.SpinRxIn ==>
        r.At? && r.s.rx.reader.pc == if s.rx.reader.into == s.rx.into then R.SpinReadHost else R.RecheckRx
    ensures var s, r := Run(init, acts).s, Run(init, acts + [WriterStep]);
      s.tx.writer.pc == T.SpinTxOut ==>
        r.At? && r.s.tx.writer.pc == if s.tx.writer.out == s.tx.out then T.SpinWriteHost else T.CheckHost
    ensures var s, r := Run(init, acts).s, Run(init, acts + [WriterStep]);
      s.tx.writer.pc == T.CheckHost && s.tx.writer.done < |s.tx.writer.data| ==>
        r.At? && r.s.tx.writer.pc == if s.hostInactive == 0 then T.Fill else T.EndWrite
  {
    var s := Run(init, acts).s;
    hide Run, Inv, Initial;
    if s.rx.reader.pc == R.SpinRxIn {
      ReaderGoes(init, acts, s);
    }
    if s.tx.writer.pc in {T.SpinTxOut, T.CheckHost} {
      WriterGoes(init, acts, s);
    }
  }

  // Whatever happened while the host stayed away for the timeout, a reader that is then
  // about to test it with no byte come is released by its own steps, and so is a writer.
  lemma {:induction false} AbsentHostEndsCalls(init: State, acts: seq<Action>, more: seq<Action>)
    requires Initial(init) && 0 < init.timeout <= 2147483645
    requires Run(init, acts).At? && !Run(init, acts).s.dev.ac
    requires Run(init, acts + more).At? && Run(init, acts + more).s.isr.pc == Away
    requires HostPolls !in more && multiset(more)[Alarm] >= init.timeout
    ensures var s := Run(init, acts + more).s;
      var r := Run(init, acts + more + [ReaderStep] + [ReaderStep] + [ReaderStep] + [ReaderStep]);
      s.rx.reader.pc == R.SpinReadHost && s.rx.reader.into == s.rx.into ==>
        r.At? && r.s.rx.reader.pc == R.NotReading
    ensures var s := Run(init, acts + more).s;
      var r := Run(init, acts + more + [WriterStep] + [WriterStep] + [WriterStep]);
      s.tx.writer.pc == T.SpinWriteHost ==> r.At? && r.s.tx.writer.pc == T.NotWriting
  {
    hide *;
    HostTimesOut(init, acts, more);
    if Run(init, acts + more).s.rx.reader.pc == R.SpinReadHost {
      ReaderGivesUp(init, acts + more);
    }
    if Run(init, acts + more).s.tx.writer.pc == T.SpinWriteHost {
      WriterGivesUp(init, acts + more);
    }
  }
}
