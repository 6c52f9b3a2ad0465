/** The fast JTAG UART driver as code: the driver state is an object its routines
    update in place.  Every access a routine makes to shared memory is recorded as an
    action of the protocol, so each execution is one of the protocol's runs; between
    the accesses of a thread `Preempt` lets interrupts, alarms and the host act. */
module UartDriver {
  import opened Ring
  import R = UartReceive
  import T = UartTransmit
  import P = UartProtocol

  /** Results of a call; StillWaiting ends an execution that is cut off in a spin loop. */
  datatype Result = Bytes(n: nat) | WouldBlock | Eio | Drained | StillWaiting

  class JtagUart {
    const rxBuf: array<Byte>
    const txBuf: array<Byte>
    var rxIn: nat
    var rxOut: nat
    var txIn: nat
    var txOut: nat
    var irqEnable: P.Enables
    var hostInactive: nat
    const timeout: nat

    // the device
    var device: P.Device
    var fifo: seq<Byte>

    // proof variables: locals of the routines, histories, the run so far
    ghost var isr: P.Isr
    ghost var reader: R.Reader
    ghost var writer: T.Writer
    ghost var sent: seq<Byte>
    ghost var taken: seq<Byte>
    ghost var delivered: seq<Byte>
    ghost var accepted: seq<Byte>
    ghost var pushed: seq<Byte>
    ghost const init: P.State
    ghost var acts: seq<P.Action>

    ghost function Rx(): R.Rx
      reads this, rxBuf
    {
      R.Rx(rxBuf[..], rxIn, rxOut, fifo, reader, sent, taken, delivered)
    }

    ghost function Tx(): T.Tx
      reads this, txBuf
    {
      T.Tx(txBuf[..], txIn, txOut, writer, accepted, pushed)
    }

    ghost function State(): P.State
      reads this, rxBuf, txBuf
    {
      P.State(Rx(), Tx(), irqEnable, hostInactive, timeout, device, isr)
    }

    /** The object is in the state its recorded run leads to. */
    ghost predicate Valid()
      reads this, rxBuf, txBuf
    {
      && rxBuf != txBuf && State().Shape()
      && P.Initial(init) && P.Run(init, acts) == P.At(State()) && P.Inv(State())
    }

    /** altera_avalon_jtag_uart_init: receive interrupts on, everything empty. */
    constructor (len: nat, timeout: nat, room: nat, fill: Byte)
      requires len >= 2
      ensures Valid() && isr.pc == P.Away && reader == R.IDLE_READER && writer == T.IDLE_WRITER
      ensures acts == [] && irqEnable == P.Enables(true, false) && fresh(rxBuf) && fresh(txBuf)
      ensures rxBuf.Length == txBuf.Length == len && this.timeout == timeout && hostInactive == 0
    {
      rxBuf := new Byte[len](_ => fill);
      txBuf := new Byte[len](_ => fill);
      rxIn, rxOut, txIn, txOut := 0, 0, 0, 0;
      irqEnable := P.Enables(true, false);
      hostInactive := 0;
      this.timeout := timeout;
      device := P.Device(P.Enables(true, false), room, false);
      fifo := [];
      isr, reader, writer := P.ISR_AWAY, R.IDLE_READER, T.IDLE_WRITER;
      sent, taken, delivered, accepted, pushed := [], [], [], [], [];
      acts := [];
      var cells := seq(len, _ => fill);
      init := P.State(R.Rx(cells, 0, 0, [], R.IDLE_READER, [], [], []), T.Tx(cells, 0, 0, T.IDLE_WRITER, [], []),
                      P.Enables(true, false), 0, timeout, P.Device(P.Enables(true, false), room, false), P.ISR_AWAY);
      new;
      assert rxBuf[..] == txBuf[..] == cells;
    }

    /** Record that the object moved from state `s` by action `a`. */
    ghost method Did(s: P.State, a: P.Action)
      requires rxBuf != txBuf && P.Initial(init) && P.Run(init, acts) == P.At(s) && P.Inv(s)
      requires P.Enabled(s, a) && State() == P.Do(s, a)
      modifies `acts
      ensures Valid() && acts == old(acts) + [a]
    {
      P.RunExtends(init, acts, a);
      P.StepKeepsInv(s, a);
      acts := acts + [a];
    }

    // ------------------------------------------------------------ host, alarm

    method HostSends(b: Byte)
      requires Valid()
      modifies `fifo, `sent, `acts
      ensures Valid() && acts == old(acts) + [P.HostSends(b)] && fifo == old(fifo) + [b] && sent == old(sent) + [b]
      ensures Work() == old(Work())
    {
      hide P.Inv, P.Run, P.Initial;
      ghost var s := State();
      fifo, sent := fifo + [b], sent + [b];
      Did(s, P.HostSends(b));
    }

    method HostDrains()
      requires Valid()
      modifies `device, `acts
      ensures Valid() && acts == old(acts) + [P.HostDrains] && device == old(device).(wspace := old(device.wspace) + 1)
      ensures Work() == old(Work())
    {
      hide P.Inv, P.Run, P.Initial;
      ghost var s := State();
      device := device.(wspace := device.wspace + 1);
      Did(s, P.HostDrains);
    }

    method HostPolls()
      requires Valid()
      modifies `device, `acts
      ensures Valid() && acts == old(acts) + [P.HostPolls] && device == old(device).(ac := true)
      ensures Work() == old(Work())
    {
      hide P.Inv, P.Run, P.Initial;
      ghost var s := State();
      device := device.(ac := true);
      Did(s, P.HostPolls);
    }

    /** The host acts some number of times. */
    method Host()
      requires Valid()
      modifies `device, `fifo, `sent, `acts
      ensures Valid() && old(acts) <= acts && old(fifo) <= fifo
      ensures Work() == old(Work())
    {
      hide *;
      var turns: nat :| true;
      for i := 0 to turns
        invariant Valid() && old(acts) <= acts && old(fifo) <= fifo && Work() == old(Work())
      {
        if
        case true =>
          var b: Byte := *;
          HostSends(b);
        case true => HostDrains();
        case true => HostPolls();
      }
    }

    /** altera_avalon_jtag_uart_timeout, called by the alarm. */
    method Timeout()
      requires Valid() && isr.pc == P.Away
      modifies `device, `hostInactive, `acts
      ensures Valid() && isr.pc == P.Away && acts == old(acts) + [P.Alarm]
      ensures old(device.ac) ==> hostInactive == 0 && device == old(device).(enabled := irqEnable, ac := false)
      ensures !old(device.ac) ==> device == old(device)
      ensures !old(device.ac) ==> hostInactive == old(hostInactive) + if old(hostInactive) < 2147483645 then 1 else 0
    {
      hide P.Inv, P.Run, P.Initial;
      ghost var s := State();
      if device.ac {
        device := device.(enabled := irqEnable, ac := false);
        hostInactive := 0;
      } else if hostInactive < P.INT_MAX - 2 {
        hostInactive := hostInactive + 1;
      }
      Did(s, P.Alarm);
    }

    // --------------------------------------------------------- interrupt routine

    /** Free receive slots + transmit occupancy + RE bit + WE bit. */
    ghost function Work(): nat
      reads this, rxBuf, txBuf
      requires Valid()
    {
      State().Work()
    }

    lemma WorkShrank()
      requires Valid() && isr.pc == P.Control
      ensures Work() < isr.work
    {
    }

    method EnterIsr()
      requires Valid() && isr.pc == P.Away
      modifies `isr, `acts
      ensures Valid() && acts == old(acts) + [P.Interrupt] && isr.pc == P.Control
    {
      hide P.Inv, P.Run, P.Initial;
      ghost var s := State();
      isr := P.ISR_AWAY.(pc := P.Control, work := s.Work() + 1);
      Did(s, P.Interrupt);
    }

    /** The control register: which interrupts are pending, how much room there is. */
    method ReadControl() returns (ri: bool, wi: bool, space: nat)
      requires Valid() && isr.pc == P.Control
      modifies `isr, `acts
      ensures Valid() && acts == old(acts) + [P.ReadControl(ri, wi)] && space == device.wspace
      ensures !ri && !wi ==> isr.pc == P.Away
      ensures ri || wi ==> isr == P.Isr(if ri then P.RxTest else P.TxTest, true, wi, space, old(Work()))
    {
      hide P.Inv, P.Run, P.Initial;
      ghost var s := State();
      ri, wi :| (ri ==> device.enabled.re && fifo != []) && (wi ==> device.enabled.we && device.wspace > 0);
      space := device.wspace;
      isr := P.ControlNext(s, ri, wi).isr;
      Did(s, P.ReadControl(ri, wi));
    }

    /** One read of the data register: was there a byte (stored if so), is there more. */
    method ReadData() returns (valid: bool, ravail: bool)
      requires Valid() && isr.pc == P.RxTake
      modifies `rxIn, `taken, `fifo, `isr, `acts, rxBuf
      ensures Valid() && old(acts) <= acts
      ensures isr == old(isr).(ravail := ravail, pc := if valid then P.RxTest else P.RxDone)
      ensures valid ==> Work() < old(Work())
      ensures old(taken) <= taken
    {
      hide *;
      if fifo == [] {
        NothingToRead();
        return false, false;
      }
      valid, ravail := true, *;
      StoreByte(ravail);
    }

    method NothingToRead()
      requires Valid() && isr.pc == P.RxTake && fifo == []
      modifies `isr, `acts
      ensures Valid() && acts == old(acts) + [P.IsrStep(false)] && isr == old(isr).(ravail := false, pc := P.RxDone)
      ensures Work() == old(Work())
    {
      hide P.Inv, P.Run, P.Initial;
      ghost var s := State();
      isr := isr.(ravail := false, pc := P.RxDone);
      Did(s, P.IsrStep(false));
    }

    method StoreByte(ravail: bool)
      requires Valid() && isr.pc == P.RxTake && fifo != []
      modifies `rxIn, `taken, `fifo, `isr, `acts, rxBuf
      ensures Valid() && acts == old(acts) + [P.IsrStep(ravail)] && isr == old(isr).(ravail := ravail, pc := P.RxTest)
      ensures Work() < old(Work()) && taken == old(taken) + [old(fifo[0])]
    {
      hide P.Inv, P.Run, P.Initial, P.Remaining;
      ghost var s := State();
      rxBuf[rxIn] := fifo[0];
      rxIn := (rxIn + 1) % rxBuf.Length;
      taken := taken + [fifo[0]];
      fifo := fifo[1..];
      isr := isr.(ravail := ravail, pc := P.RxTest);
      assert Rx() == R.TakeByte(s.rx);
      Did(s, P.IsrStep(ravail));
      P.TakeShrinks(s, State());
    }

    /** The loop test of the receive branch: is the ring full. */
    method TestRxFull() returns (full: bool)
      requires Valid() && isr.pc == P.RxTest
      modifies `isr, `acts
      ensures Valid() && acts == old(acts) + [P.IsrStep(false)]
      ensures full == Rx().Full() && isr == old(isr).(pc := if full then P.RxDone else P.RxTake)
      ensures Work() == old(Work())
    {
      hide P.Inv, P.Run, P.Initial;
      ghost var s := State();
      var next := (rxIn + 1) % rxBuf.Length;
      full := next == rxOut;
      isr := isr.(pc := if full then P.RxDone else P.RxTake);
      Did(s, P.IsrStep(false));
    }

    /** With bytes left behind the ring is full: mask receive interrupts. */
    method LeaveReceive(ravail: bool)
      requires Valid() && isr.pc == P.RxDone && isr.ravail == ravail
      modifies `irqEnable, `device, `isr, `acts
      ensures Valid() && acts == old(acts) + [P.IsrStep(false)]
      ensures isr == old(isr).(pc := if isr.wi then P.TxTest else P.Control)
      ensures irqEnable == if ravail then old(irqEnable).(re := false) else old(irqEnable)
    {
      hide P.Inv, P.Run, P.Initial;
      ghost var s := State();
      if ravail {
        irqEnable := irqEnable.(re := false);
        device := device.(enabled := irqEnable);
      }
      isr := isr.(pc := if isr.wi then P.TxTest else P.Control);
      Did(s, P.IsrStep(false));
    }

    /** The receive branch: take bytes until the ring is full or the FIFO is empty. */
    method ReceiveAll()
      requires Valid() && isr.pc == P.RxTest && isr.ravail
      modifies `rxIn, `taken, `fifo, `sent, `irqEnable, `device, `isr, `acts, rxBuf
      ensures Valid() && old(acts) <= acts && old(taken) <= taken
      ensures isr == old(isr).(ravail := isr.ravail, pc := if isr.wi then P.TxTest else P.Control)
    {
      hide *;
      var ravail := true;
      while true
        invariant Valid() && old(acts) <= acts && isr == old(isr).(ravail := ravail) && old(taken) <= taken
        decreases Work()
      {
        Host();
        var full := TestRxFull();
        if full {
          break;
        }
        Host();
        var valid;
        valid, ravail := ReadData();
        if !valid {
          break;
        }
      }
      Host();
      LeaveReceive(ravail);
    }

    method PushByte(space: nat)
      requires Valid() && isr.pc == P.TxTest && isr.space == space > 0 && txOut != txIn
      modifies `txOut, `pushed, `device, `isr, `acts
      ensures Valid() && acts == old(acts) + [P.IsrStep(false)] && isr == old(isr).(space := space - 1)
      ensures pushed == old(pushed) + [old(txBuf[txOut])]
    {
      hide P.Inv, P.Run, P.Initial, P.Do, P.Enabled;
      ghost var s := State();
      P.IsrPushes(s);
      pushed := pushed + [txBuf[txOut]];
      device := device.(wspace := if device.wspace > 0 then device.wspace - 1 else 0);
      txOut := (txOut + 1) % txBuf.Length;
      isr := isr.(space := space - 1);
      assert Tx() == T.PushByte(s.tx);
      Did(s, P.IsrStep(false));
    }

    /** With credit left the ring is empty: mask transmit interrupts. */
    method LeaveTransmit(space: nat)
      requires Valid() && isr.pc == P.TxTest && isr.space == space && (space > 0 ==> txOut == txIn)
      modifies `irqEnable, `device, `isr, `acts
      ensures Valid() && acts == old(acts) + [P.IsrStep(false)] && isr == old(isr).(pc := P.Control)
      ensures irqEnable == if space > 0 then old(irqEnable).(we := false) else old(irqEnable)
    {
      hide P.Inv, P.Run, P.Initial;
      ghost var s := State();
      if space > 0 {
        irqEnable := irqEnable.(we := false);
        device := device.(enabled := irqEnable);
      }
      isr := isr.(pc := P.Control);
      Did(s, P.IsrStep(false));
    }

    /** The transmit branch: push bytes until the credit or the ring is used up. */
    method TransmitAll(room: nat)
      requires Valid() && isr.pc == P.TxTest && isr.space == room
      modifies `txOut, `pushed, `irqEnable, `device, `fifo, `sent, `isr, `acts
      ensures Valid() && old(acts) <= acts
      ensures isr.pc == P.Control && isr.work == old(isr).work
      ensures old(pushed) <= pushed && |pushed| <= |old(pushed)| + room
    {
      hide *;
      var space := room;
      while space > 0 && txOut != txIn
        invariant 0 <= space <= room && Valid() && old(acts) <= acts && isr == old(isr).(space := space)
        invariant old(pushed) <= pushed && |pushed| == |old(pushed)| + room - space
        decreases space
      {
        Host();
        PushByte(space);
        space := space - 1;
      }
      Host();
      LeaveTransmit(space);
    }

    /** altera_avalon_jtag_uart_irq.  It terminates although the host keeps sending
        and draining between its device accesses, and returns only when the control
        register shows no pending interrupt. */
    method Isr()
      requires Valid() && isr.pc == P.Away
      modifies `rxIn, `taken, `fifo, `sent, `txOut, `pushed, `irqEnable, `device, `isr, `acts, rxBuf
      ensures Valid() && isr.pc == P.Away && old(acts) <= acts && old(taken) <= taken
      ensures |acts| > |old(acts)| && acts[|acts| - 1] == P.ReadControl(false, false)
    {
      hide *;
      EnterIsr();
      while true
        invariant Valid() && isr.pc == P.Control && old(acts) <= acts && old(taken) <= taken
        decreases isr.work
      {
        WorkShrank();
        Host();
        WorkShrank();
        var ri, wi, space := ReadControl();
        if !ri && !wi {
          return;
        }
        if ri {
          ReceiveAll();
        }
        if wi {
          TransmitAll(space);
        }
      }
    }

    /** Anything may happen between two accesses of a thread. */
    method Preempt()
      requires Valid() && isr.pc == P.Away
      modifies `rxIn, `taken, `fifo, `sent, `txOut, `pushed, `irqEnable, `device, `hostInactive, `isr, `acts, rxBuf
      ensures Valid() && isr.pc == P.Away && old(acts) <= acts && old(taken) <= taken
    {
      hide *;
      var turns: nat :| true;
      for i := 0 to turns
        invariant Valid() && isr.pc == P.Away && old(acts) <= acts && old(taken) <= taken
      {
        if
        case true => Isr();
        case true => Timeout();
        case true => Host();
      }
    }

    // ------------------------------------------------------------ read

    /** The reader makes a step that only looks at shared memory. */
    ghost method ReaderLooks()
      requires Valid() && isr.pc == P.Away
      requires reader.pc !in {R.NotReading, R.CopyOut, R.EndRead} && !(reader.pc == R.LeaveRead && reader.got != [])
      modifies `reader, `acts
      ensures Valid() && acts == old(acts) + [P.ReaderStep]
      ensures reader == old(R.ReaderLocalNext(Rx(), State().Waiting()))
    {
      hide P.Inv, P.Run, P.Initial;
      var s := State();
      reader := R.ReaderLocalNext(s.rx, s.Waiting());
      Did(s, P.ReaderStep);
    }

    ghost method BeginRead(space: int, nonblock: bool)
      requires Valid() && isr.pc == P.Away && reader.pc == R.NotReading
      modifies `reader, `acts
      ensures Valid() && acts == old(acts) + [P.CallRead(space, nonblock)]
      ensures reader.got == [] && reader.space == space && reader.nonblock == nonblock
      ensures reader.pc == if space > 0 then R.LoadRxIn else R.LeaveRead
    {
      hide P.Inv, P.Run, P.Initial;
      var s := State();
      reader := R.BeginRead(s.rx, space, nonblock).reader;
      Did(s, P.CallRead(space, nonblock));
    }

    method LoadRxIn() returns (into: nat)
      requires Valid() && isr.pc == P.Away && reader.pc == R.LoadRxIn
      modifies `reader, `acts
      ensures Valid() && old(acts) <= acts && into == rxIn
      ensures reader == old(reader).(into := into, seen := |taken|, pc := R.LoadRxOut)
      ensures into == rxOut ==> P.Saw(init, acts, |old(acts)|, P.RxEmpty)
    {
      hide P.Inv, P.Run, P.Initial, P.Saw;
      into := rxIn;
      ReaderLooks();
      if into == rxOut {
        EmptyNow(|old(acts)|);
      }
    }

    lemma EmptyNow(from: nat)
      requires Valid() && from <= |acts| && rxIn == rxOut
      ensures P.Saw(init, acts, from, P.RxEmpty)
    {
      assert Rx().Held() == [];
      hide P.Inv, P.Initial, P.Run;
      P.SawNow(init, acts, from, P.RxEmpty);
    }

    lemma FullNow(from: nat)
      requires Valid() && from <= |acts| && Next(txIn, txBuf.Length) == txOut
      ensures P.Saw(init, acts, from, P.TxFull)
    {
      Occupancy(txBuf[..], txOut, txIn);
      hide P.Inv, P.Initial, P.Run;
      P.SawNow(init, acts, from, P.TxFull);
    }

    lemma TimedOutNow(from: nat)
      requires Valid() && from <= |acts| && hostInactive >= timeout
      ensures P.Saw(init, acts, from, P.HostTimedOut)
    {
      hide P.Inv, P.Initial, P.Run;
      P.SawNow(init, acts, from, P.HostTimedOut);
    }

    /** Load rx_out and work out how much can be copied in one piece. */
    method LoadRxOut(into: nat, space: int) returns (out: nat, n: int)
      requires Valid() && isr.pc == P.Away && reader.pc == R.LoadRxOut && reader.into == into && reader.space == space
      modifies `reader, `acts
      ensures Valid() && old(acts) <= acts && out == rxOut
      ensures n == 0 ==> into == out && reader == old(reader).(out := out, pc := R.DecideRead)
      ensures n == space || out + n == into || out + n == rxBuf.Length
      ensures n != 0 ==> 0 < n <= space && reader == old(reader).(out := out, n := n, part := [], pc := R.CopyOut)
    {
      ReaderSpacePositive();
      hide P.Inv, P.Run, P.Initial;
      out := rxOut;
      if into >= out {
        n := into - out;
      } else {
        n := rxBuf.Length - out;
      }
      if n != 0 && n > space {
        n := space;
      }
      ReaderLooks();
    }

    /** Load both indices: nothing to copy only if the ring was empty. */
    method LoadPiece(space: int) returns (into: nat, out: nat, n: int)
      requires Valid() && isr.pc == P.Away && reader.pc == R.LoadRxIn && reader.space == space
      modifies `rxIn, `taken, `fifo, `sent, `txOut, `pushed, `irqEnable, `device, `hostInactive, `isr, `reader, `acts
      modifies rxBuf
      ensures Valid() && isr.pc == P.Away && old(acts) <= acts
      ensures reader == old(reader).(into := into, out := out, n := reader.n, part := reader.part, seen := reader.seen,
                                     pc := if n == 0 then R.DecideRead else R.CopyOut)
      ensures n == 0 ==> P.Saw(init, acts, |old(acts)|, P.RxEmpty)
      ensures n != 0 ==> 0 < n <= space && reader.n == n && reader.part == []
    {
      hide *;
      Preempt();
      ghost var from := |acts|;
      into := LoadRxIn();
      ghost var loaded := acts;
      Preempt();
      out, n := LoadRxOut(into, space);
      StillSaw(n == 0, loaded, from, |old(acts)|, P.RxEmpty);
    }

    lemma ReaderSpacePositive()
      requires Valid() && reader.pc == R.LoadRxOut
      ensures reader.space > 0
    {
    }

    lemma CopySourceHeld()
      requires Valid() && reader.pc == R.CopyOut
      ensures reader.out + reader.n <= rxBuf.Length && |reader.part| <= reader.n
    {
    }

    method CopyByte(buffer: array<Byte>, ptr: nat, out: nat, k: nat)
      requires Valid() && isr.pc == P.Away && buffer != rxBuf && buffer != txBuf && ptr + k < buffer.Length
      requires reader.pc == R.CopyOut && reader.out == out && |reader.part| == k < reader.n
      requires buffer[ptr..ptr + k] == reader.part
      modifies buffer, `reader, `acts
      ensures Valid() && old(acts) <= acts
      ensures |reader.part| == k + 1 && reader == old(reader).(part := reader.part)
      ensures buffer[ptr..ptr + k + 1] == reader.part
      ensures forall i :: 0 <= i < buffer.Length && i != ptr + k ==> buffer[i] == old(buffer[i])
    {
      CopySourceHeld();
      hide P.Inv, P.Run, P.Initial;
      ghost var s := State();
      buffer[ptr + k] := rxBuf[out + k];
      reader := reader.(part := reader.part + [rxBuf[out + k]]);
      assert buffer[ptr..ptr + k] == old(buffer[ptr..ptr + k]);
      assert Rx() == R.CopyOutNext(s.rx);
      Did(s, P.ReaderStep);
    }

    /** memcpy, preempted between any two bytes. */
    method MemCopyOut(buffer: array<Byte>, ptr: nat, out: nat, n: nat)
      requires Valid() && isr.pc == P.Away && buffer != rxBuf && buffer != txBuf && ptr + n <= buffer.Length
      requires reader.pc == R.CopyOut && reader.out == out && reader.part == [] && reader.n == n
      modifies `rxIn, `taken, `fifo, `sent, `txOut, `pushed, `irqEnable, `device, `hostInactive, `isr, `reader, `acts
      modifies rxBuf, buffer
      ensures Valid() && isr.pc == P.Away && old(acts) <= acts
      ensures |reader.part| == n && reader == old(reader).(part := reader.part) && buffer[ptr..ptr + n] == reader.part
      ensures forall i :: 0 <= i < buffer.Length && !(ptr <= i < ptr + n) ==> buffer[i] == old(buffer[i])
    {
      hide *;
      var k := 0;
      while k < n
        invariant 0 <= k <= n && Valid() && isr.pc == P.Away && old(acts) <= acts
        invariant |reader.part| == k && reader == old(reader).(part := reader.part)
        invariant buffer[ptr..ptr + k] == reader.part
        invariant forall i :: 0 <= i < buffer.Length && !(ptr <= i < ptr + n) ==> buffer[i] == old(buffer[i])
      {
        Preempt();
        CopyByte(buffer, ptr, out, k);
        k := k + 1;
      }
      Preempt();
    }

    method PublishRxOut(out: nat, n: nat)
      requires Valid() && isr.pc == P.Away && reader.pc == R.CopyOut
      requires reader.out == out && reader.n == n == |reader.part|
      modifies `rxOut, `reader, `acts
      ensures Valid() && old(acts) <= acts
      ensures reader.got == old(reader.got + reader.part) && reader.space == old(reader.space) - n
      ensures reader.nonblock == old(reader.nonblock)
      ensures reader.pc == if reader.space > 0 then R.LoadRxIn else R.DecideRead
    {
      hide P.Inv, P.Run, P.Initial;
      ghost var s := State();
      rxOut := (out + n) % rxBuf.Length;
      reader := R.CopyOutNext(s.rx).reader;
      assert Rx() == R.CopyOutNext(s.rx);
      Did(s, P.ReaderStep);
    }

    /** Copy one piece and publish it. */
    method ReadPiece(buffer: array<Byte>, ptr: nat, out: nat, n: nat)
      requires Valid() && isr.pc == P.Away && buffer != rxBuf && buffer != txBuf && ptr + n <= buffer.Length
      requires reader.pc == R.CopyOut && reader.out == out && reader.part == [] && reader.n == n
      requires reader.got == buffer[..ptr]
      modifies `rxIn, `taken, `fifo, `sent, `txOut, `pushed, `irqEnable, `device, `hostInactive, `isr, `reader, `acts
      modifies `rxOut, rxBuf, buffer
      ensures Valid() && isr.pc == P.Away && old(acts) <= acts
      ensures reader.got == buffer[..ptr + n] && reader.space == old(reader.space) - n
      ensures reader.nonblock == old(reader.nonblock)
      ensures reader.pc == if reader.space > 0 then R.LoadRxIn else R.DecideRead
      ensures forall i :: ptr + n <= i < buffer.Length ==> buffer[i] == old(buffer[i])
    {
      hide *;
      MemCopyOut(buffer, ptr, out, n);
      assert buffer[..ptr] == old(buffer[..ptr]);
      assert buffer[..ptr + n] == buffer[..ptr] + buffer[ptr..ptr + n];
      PublishRxOut(out, n);
    }

    /** The inner loop of read: copy what is there, in at most two pieces a lap. */
    method ReadBurst(buffer: array<Byte>, space0: int) returns (ptr: nat, space: int, into: nat)
      requires Valid() && isr.pc == P.Away && buffer != rxBuf && buffer != txBuf
      requires 0 < space0 <= buffer.Length
      requires reader.pc == R.LoadRxIn && reader.got == [] && reader.space == space0
      modifies `rxIn, `taken, `fifo, `sent, `txOut, `pushed, `irqEnable, `device, `hostInactive, `isr, `reader, `acts
      modifies `rxOut, rxBuf, buffer
      ensures Valid() && isr.pc == P.Away && old(acts) <= acts
      ensures reader.pc == R.DecideRead && reader.nonblock == old(reader.nonblock)
      ensures ptr + space == space0 && 0 <= space && reader.space == space && reader.got == buffer[..ptr]
      ensures ptr == 0 ==> reader.into == into
      ensures space > 0 ==> P.Saw(init, acts, |old(acts)|, P.RxEmpty)
      ensures forall i :: ptr <= i < buffer.Length ==> buffer[i] == old(buffer[i])
    {
      hide *;
      ptr, space := 0, space0;
      var more := true;
      into := 0;
      while more
        invariant Valid() && isr.pc == P.Away && old(acts) <= acts
        invariant ptr + space == space0 && 0 <= space && reader.space == space && reader.got == buffer[..ptr]
        invariant reader.nonblock == old(reader.nonblock) && (more ==> space > 0)
        invariant reader.pc == if more then R.LoadRxIn else R.DecideRead
        invariant !more && ptr == 0 ==> reader.into == into
        invariant !more && space > 0 ==> P.Saw(init, acts, |old(acts)|, P.RxEmpty)
        invariant forall i :: ptr <= i < buffer.Length ==> buffer[i] == old(buffer[i])
        decreases space, more
      {
        ghost var from := |acts|;
        var out, n;
        into, out, n := LoadPiece(space);
        if n == 0 {
          StillSaw(true, acts, from, |old(acts)|, P.RxEmpty);
          more := false;
        } else {
          ReadPiece(buffer, ptr, out, n);
          ptr := ptr + n;
          space := space - n;
          more := space > 0;
        }
      }
    }

    ghost method DecideRead()
      requires Valid() && isr.pc == P.Away && reader.pc == R.DecideRead
      modifies `reader, `acts
      ensures Valid() && old(acts) <= acts
      ensures reader == old(reader).(pc := if reader.got != [] || reader.nonblock then R.LeaveRead else R.SpinRxIn)
    {
      ReaderLooks();
    }

    method SpinTestRxIn(into: nat) returns (same: bool)
      requires Valid() && isr.pc == P.Away && reader.pc == R.SpinRxIn && reader.into == into
      modifies `reader, `acts
      ensures Valid() && old(acts) <= acts && same == (into == rxIn)
      ensures reader == old(reader).(pc := if same then R.SpinReadHost else R.RecheckRx)
      ensures !same ==> |taken| > reader.seen
      ensures P.Compared(init, acts, |old(acts)|, P.OnInput) == 1
    {
      SpinIsExact();
      InputCompared();
      hide P.Inv, P.Run, P.Initial, P.Compared;
      same := into == rxIn;
      ReaderLooks();
    }

    lemma InputCompared()
      requires Valid() && reader.pc == R.SpinRxIn
      ensures P.Compared(init, acts + [P.ReaderStep], |acts|, P.OnInput) == 1
    {
      assert (acts + [P.ReaderStep])[..|acts|] == acts;
      P.ComparedOnce(init, acts, P.ReaderStep, P.OnInput);
    }

    /** The comparisons made before, and those from `now` on, are all in the run. */
    lemma StillCompared(before: seq<P.Action>, from: nat, times: int, now: seq<P.Action>, spin: P.Spin)
      requires from <= |before| && before <= now <= acts && P.Compared(init, before, from, spin) >= times
      ensures P.Compared(init, acts, from, spin) >= times + P.Compared(init, acts, |now|, spin)
    {
      P.ComparedAdds(init, before, from, acts, spin);
      P.ComparedAdds(init, before, |before|, now, spin);
      P.ComparedAdds(init, now, |before|, acts, spin);
    }

    /** The comparison with a loaded rx_in, while spinning, is whether a byte came. */
    lemma SpinIsExact()
      requires Valid() && reader.pc in {R.SpinRxIn, R.RecheckRx}
      ensures reader.into == rxIn <==> |taken| == reader.seen
      ensures reader.seen <= |taken|
    {
      R.SpinExact(Rx());
    }

    method SpinTestReadHost() returns (waiting: bool)
      requires Valid() && isr.pc == P.Away && reader.pc == R.SpinReadHost
      modifies `reader, `acts
      ensures Valid() && old(acts) <= acts && waiting == (hostInactive < timeout)
      ensures reader == old(reader).(pc := if waiting then R.SpinRxIn else R.RecheckRx)
    {
      hide P.Inv, P.Run, P.Initial;
      waiting := hostInactive < timeout;
      ReaderLooks();
    }

    /** Spin until a byte arrives or the host is gone; `cut` when the given number of
        laps was not enough. */
    method SpinForInput(into: nat, laps: nat) returns (cut: bool, left: nat)
      requires Valid() && isr.pc == P.Away && reader.pc == R.SpinRxIn && reader.into == into
      modifies `rxIn, `taken, `fifo, `sent, `txOut, `pushed, `irqEnable, `device, `hostInactive, `isr, `reader, `acts
      modifies rxBuf
      ensures Valid() && isr.pc == P.Away && old(acts) <= acts
      ensures reader == old(reader).(pc := if cut then R.SpinRxIn else R.RecheckRx)
      ensures if cut then left == 0 else left < laps && (rxIn != into || hostInactive >= timeout)
      ensures P.Compared(init, acts, |old(acts)|, P.OnInput) >= laps - left
      ensures !cut ==> |taken| > reader.seen || P.Saw(init, acts, |old(acts)|, P.HostTimedOut)
    {
      hide *;
      left := laps;
      while left > 0
        invariant Valid() && isr.pc == P.Away && old(acts) <= acts && reader == old(reader) && left <= laps
        invariant P.Compared(init, acts, |old(acts)|, P.OnInput) >= laps - left
      {
        left := left - 1;
        ghost var before := acts;
        Preempt();
        ghost var now := acts;
        var same := SpinTestRxIn(into);
        StillCompared(before, |old(acts)|, laps - left - 1, now, P.OnInput);
        ghost var compared := acts;
        if !same {
          return false, left;
        }
        Preempt();
        var waiting := SpinTestReadHost();
        StillCompared(compared, |old(acts)|, laps - left, acts, P.OnInput);
        if !waiting {
          TimedOutNow(|old(acts)|);
          return false, left;
        }
      }
      cut := true;
    }

    method RecheckRxIn(into: nat, space: int) returns (same: bool)
      requires Valid() && isr.pc == P.Away && reader.pc == R.RecheckRx && reader.into == into
      requires reader.space == space > 0
      modifies `reader, `acts
      ensures Valid() && old(acts) <= acts && same == (into == rxIn)
      ensures reader == old(reader).(pc := if same then R.LeaveRead else R.LoadRxIn)
      ensures same ==> |taken| == reader.seen
    {
      SpinIsExact();
      hide P.Inv, P.Run, P.Initial;
      same := into == rxIn;
      ReaderLooks();
    }

    /** Spin, then look again: still nothing new only if the host is gone. */
    method WaitForInput(into: nat, space: int, laps: nat) returns (cut: bool, same: bool, left: nat)
      requires Valid() && isr.pc == P.Away && reader.pc == R.SpinRxIn && reader.into == into
      requires reader.space == space > 0
      modifies `rxIn, `taken, `fifo, `sent, `txOut, `pushed, `irqEnable, `device, `hostInactive, `isr, `reader, `acts
      modifies rxBuf
      ensures Valid() && isr.pc == P.Away && old(acts) <= acts
      ensures reader == old(reader).(pc := if cut then R.SpinRxIn else if same then R.LeaveRead else R.LoadRxIn)
      ensures if cut then left == 0 else left < laps && (same ==> P.Saw(init, acts, |old(acts)|, P.HostTimedOut))
      ensures P.Compared(init, acts, |old(acts)|, P.OnInput) >= laps - left
    {
      hide *;
      same := false;
      cut, left := SpinForInput(into, laps);
      if !cut {
        ghost var spun := acts;
        Preempt();
        same := RecheckRxIn(into, space);
        StillCompared(spun, |old(acts)|, laps - left, acts, P.OnInput);
        StillSaw(same, spun, |old(acts)|, |old(acts)|, P.HostTimedOut);
      }
    }

    /** Something was read, so there is room: unmask receive interrupts. */
    method EnableReceive(ptr: nat)
      requires Valid() && isr.pc == P.Away && reader.pc == R.LeaveRead && (ptr != 0 <==> reader.got != [])
      modifies `irqEnable, `device, `reader, `acts
      ensures Valid() && old(acts) <= acts && reader == old(reader).(pc := R.EndRead)
      ensures ptr != 0 ==> irqEnable.re && device.enabled == irqEnable
    {
      hide P.Inv, P.Run, P.Initial;
      ghost var s := State();
      if ptr != 0 {
        irqEnable := irqEnable.(re := true);
        device := device.(enabled := irqEnable);
      }
      reader := reader.(pc := R.EndRead);
      Did(s, P.ReaderStep);
    }

    ghost method EndRead()
      requires Valid() && isr.pc == P.Away && reader.pc == R.EndRead
      modifies `delivered, `reader, `acts
      ensures Valid() && old(acts) <= acts && reader.pc == R.NotReading
      ensures delivered == old(delivered + reader.got)
    {
      hide P.Inv, P.Run, P.Initial;
      var s := State();
      delivered := delivered + reader.got;
      reader := R.IDLE_READER;
      Did(s, P.ReaderStep);
    }

    /** The part of read after its loops: unmask if anything was read, then return. */
    method FinishRead(ptr: nat, nonblock: bool) returns (r: Result)
      requires Valid() && isr.pc == P.Away && reader.pc == R.LeaveRead && ptr == |reader.got|
      modifies `rxIn, `taken, `fifo, `sent, `txOut, `pushed, `irqEnable, `device, `hostInactive, `isr, `reader, `acts
      modifies `delivered, rxBuf
      ensures Valid() && isr.pc == P.Away && old(acts) <= acts && reader.pc == R.NotReading
      ensures delivered == old(delivered + reader.got)
      ensures r == if ptr != 0 then Bytes(ptr) else if nonblock then WouldBlock else Eio
    {
      hide *;
      Preempt();
      EnableReceive(ptr);
      Preempt();
      EndRead();
      r := if ptr != 0 then Bytes(ptr) else if nonblock then WouldBlock else Eio;
    }

    /** altera_avalon_jtag_uart_read.  A positive result is exactly the number of bytes
        now in the caller's buffer, the next ones of the stream; `laps` cuts an
        execution off that keeps spinning. */
    method Read(buffer: array<Byte>, space: int, nonblock: bool, laps: nat) returns (r: Result)
      requires Valid() && isr.pc == P.Away && reader.pc == R.NotReading
      requires buffer != rxBuf && buffer != txBuf && space <= buffer.Length
      modifies `rxIn, `taken, `fifo, `sent, `txOut, `pushed, `irqEnable, `device, `hostInactive, `isr, `reader, `acts
      modifies `rxOut, `delivered, rxBuf, buffer
      ensures Valid() && isr.pc == P.Away && old(acts) <= acts
      ensures match r
        case Bytes(n) =>
          && reader.pc == R.NotReading && 0 < n <= space
          && delivered == old(delivered) + buffer[..n]
          && (n < space ==> P.Saw(init, acts, |old(acts)|, P.RxEmpty))
          && forall i :: n <= i < buffer.Length ==> buffer[i] == old(buffer[i])
        case WouldBlock =>
          && reader.pc == R.NotReading && nonblock && delivered == old(delivered) && buffer[..] == old(buffer[..])
          && (space > 0 ==> P.Saw(init, acts, |old(acts)|, P.RxEmpty))
        case Eio =>
          && reader.pc == R.NotReading && !nonblock && delivered == old(delivered) && buffer[..] == old(buffer[..])
          && (space > 0 ==> P.Saw(init, acts, |old(acts)|, P.RxEmpty) && P.Saw(init, acts, |old(acts)|, P.HostTimedOut))
        case StillWaiting =>
          && reader.pc == R.SpinRxIn && !nonblock && space > 0 && buffer[..] == old(buffer[..])
          && P.Compared(init, acts, |old(acts)|, P.OnInput) >= laps && P.Saw(init, acts, |old(acts)|, P.RxEmpty)
        case Drained => false
    {
      hide *;
      BeginRead(space, nonblock);
      var ptr, left, spins := 0, space, laps;
      while left > 0
        invariant Valid() && isr.pc == P.Away && old(acts) <= acts && ptr == 0 && left == space
        invariant reader.got == [] && reader.space == space && reader.nonblock == nonblock
        invariant reader.pc == if space > 0 then R.LoadRxIn else R.LeaveRead
        invariant delivered == old(delivered) && buffer[..] == old(buffer[..])
        invariant 0 <= spins <= laps && P.Compared(init, acts, |old(acts)|, P.OnInput) >= laps - spins
        decreases spins
      {
        var into;
        ghost var before, from, spent := acts, |acts|, laps - spins;
        ptr, left, into := ReadBurst(buffer, left);
        ghost var burst := acts;
        DecideRead();
        if ptr != 0 || nonblock {
          StillSaw(left > 0, burst, from, |old(acts)|, P.RxEmpty);
          break;
        }
        ghost var decided := acts;
        var cut, same;
        cut, same, spins := WaitForInput(into, left, spins);
        StillCompared(before, |old(acts)|, spent, decided, P.OnInput);
        if cut {
          StillSaw(true, burst, from, |old(acts)|, P.RxEmpty);
          return StillWaiting;
        }
        if same {
          StillSaw(true, burst, from, |old(acts)|, P.RxEmpty);
          StillSaw(true, acts, |decided|, |old(acts)|, P.HostTimedOut);
          break;
        }
      }
      ghost var left0 := acts;
      r := FinishRead(ptr, nonblock);
      StillSaw(left > 0, left0, |old(acts)|, |old(acts)|, P.RxEmpty);
      StillSaw(ptr == 0 && space > 0 && !nonblock, left0, |old(acts)|, |old(acts)|, P.HostTimedOut);
    }

    /** What the run had shown by `before` it has still shown now. */
    lemma StillSaw(when: bool, before: seq<P.Action>, from: nat, earlier: nat, what: P.Sight)
      requires when ==> P.Saw(init, before, from, what) && before <= acts && earlier <= from
      ensures when ==> P.Saw(init, acts, earlier, what)
    {
      if when {
        P.SawStill(init, before, from, acts, earlier, what);
      }
    }

    // ------------------------------------------------------------ write

    /** The writer makes a step that only looks at shared memory. */
    ghost method WriterLooks()
      requires Valid() && isr.pc == P.Away && writer.pc !in {T.NotWriting, T.CopyIn, T.Kick, T.EndWrite}
      modifies `writer, `acts
      ensures Valid() && acts == old(acts) + [P.WriterStep]
      ensures writer == old(T.WriterLocalNext(Tx(), State().Waiting(), hostInactive != 0))
    {
      hide P.Inv, P.Run, P.Initial;
      var s := State();
      writer := T.WriterLocalNext(s.tx, s.Waiting(), s.hostInactive != 0);
      Did(s, P.WriterStep);
    }

    ghost method BeginWrite(data: seq<Byte>, nonblock: bool)
      requires Valid() && isr.pc == P.Away && writer.pc == T.NotWriting
      modifies `writer, `acts
      ensures Valid() && acts == old(acts) + [P.CallWrite(data, nonblock)]
      ensures writer.pc == T.Fill && writer.data == data && writer.done == 0 && writer.nonblock == nonblock
    {
      hide P.Inv, P.Run, P.Initial;
      var s := State();
      writer := T.BeginWrite(s.tx, data, nonblock).writer;
      Did(s, P.CallWrite(data, nonblock));
    }

    /** The test of the filling loop, and the load of tx_in when it succeeds. */
    method LoadTxIn(count: int) returns (into: nat)
      requires Valid() && isr.pc == P.Away && writer.pc == T.Fill && count == |writer.data| - writer.done
      modifies `writer, `acts
      ensures Valid() && old(acts) <= acts && into == txIn
      ensures writer == if count > 0 then old(writer).(into := into, pc := T.LoadTxOut) else old(writer).(pc := T.Kick)
    {
      hide P.Inv, P.Run, P.Initial;
      into := txIn;
      WriterLooks();
    }

    lemma WriterRoom()
      requires Valid() && writer.pc == T.LoadTxOut
      ensures writer.into == txIn && T.WriterOk(Tx())
      ensures WriteRun(writer.into, txOut, txBuf.Length) >= 0
      ensures WriteRun(writer.into, txOut, txBuf.Length) == 0 ==> Next(txIn, txBuf.Length) == txOut
    {
      T.NoRoomIsFull(Tx());
    }

    /** Load tx_out and work out how much can be stored in one piece. */
    method LoadTxOut(into: nat, count: int) returns (out: nat, n: int)
      requires Valid() && isr.pc == P.Away && writer.pc == T.LoadTxOut && writer.into == into
      requires count == |writer.data| - writer.done > 0
      modifies `writer, `acts
      ensures Valid() && old(acts) <= acts && out == txOut
      ensures n == 0 ==> writer == old(writer).(out := out, seen := |pushed|, pc := T.Kick)
      ensures n == count || into + n + 1 == out || into + n + (if out == 0 then 1 else 0) == txBuf.Length
      ensures n == 0 ==> P.Saw(init, acts, |old(acts)|, P.TxFull)
      ensures n != 0 ==>
                && 0 < n <= count
                && writer == old(writer).(out := out, seen := |pushed|, n := n, k := 0, pc := T.CopyIn)
    {
      WriterRoom();
      hide P.Inv, P.Run, P.Initial, P.Saw;
      out := txOut;
      if into < out {
        n := out - 1 - into;
      } else if out > 0 {
        n := txBuf.Length - into;
      } else {
        n := txBuf.Length - 1 - into;
      }
      if n != 0 && n > count {
        n := count;
      }
      WriterLooks();
      if n == 0 {
        FullNow(|old(acts)|);
      }
    }

    lemma CopyTargetFree()
      requires Valid() && writer.pc == T.CopyIn
      ensures writer.into + writer.n <= txBuf.Length && writer.k <= writer.n && writer.done + writer.n <= |writer.data|
    {
    }

    /** The store itself: the state it leads to is the writer's step. */
    method PutTxByte(i: nat, b: Byte)
      requires rxBuf != txBuf && State().Shape() && writer.into + writer.k == i < txBuf.Length
      requires writer.k < writer.n && writer.done + writer.k < |writer.data| && b == writer.data[writer.done + writer.k]
      modifies txBuf, `writer
      ensures State() == old(State().(tx := T.CopyInNext(Tx()))) && writer == old(writer).(k := old(writer.k) + 1)
    {
      ghost var s := State();
      txBuf[i] := b;
      writer := writer.(k := writer.k + 1);
      assert rxBuf[..] == s.rx.buf && txBuf[..] == s.tx.buf[i := b];
    }

    /** The next cell is free, and storing into it is the writer's step. */
    lemma StoreIsStep()
      requires Valid() && isr.pc == P.Away && writer.pc == T.CopyIn
      ensures writer.into + writer.n <= txBuf.Length && State().Shape() && rxBuf != txBuf
      ensures P.Initial(init) && P.Run(init, acts) == P.At(State()) && P.Inv(State())
      ensures P.Enabled(State(), P.WriterStep) && P.Do(State(), P.WriterStep) == State().(tx := T.CopyInNext(Tx()))
    {
      CopyTargetFree();
      P.WriterCopies(State());
    }

    method StoreTxByte(into: nat, k: nat, b: Byte)
      requires Valid() && isr.pc == P.Away && writer.pc == T.CopyIn && writer.into == into
      requires k == writer.k < writer.n && writer.done + k < |writer.data| && b == writer.data[writer.done + k]
      modifies txBuf, `writer, `acts
      ensures Valid() && old(acts) <= acts && writer == old(writer).(k := k + 1)
    {
      hide *;
      StoreIsStep();
      ghost var s := State();
      PutTxByte(into + k, b);
      Did(s, P.WriterStep);
    }

    /** memcpy, preempted between any two bytes. */
    method MemCopyIn(data: seq<Byte>, ptr: nat, into: nat, n: nat)
      requires Valid() && isr.pc == P.Away && writer.pc == T.CopyIn && writer.into == into
      requires writer.n == n && writer.k == 0 && writer.data == data && writer.done == ptr && ptr + n <= |data|
      modifies `rxIn, `taken, `fifo, `sent, `txOut, `pushed, `irqEnable, `device, `hostInactive, `isr, `writer, `acts
      modifies rxBuf, txBuf
      ensures Valid() && isr.pc == P.Away && old(acts) <= acts && writer == old(writer).(k := n)
    {
      hide *;
      var k := 0;
      while k < n
        invariant 0 <= k <= n && Valid() && isr.pc == P.Away && old(acts) <= acts && writer == old(writer).(k := k)
      {
        Preempt();
        StoreTxByte(into, k, data[ptr + k]);
        k := k + 1;
      }
      Preempt();
    }

    method PublishTxIn(into: nat, n: nat)
      requires Valid() && isr.pc == P.Away && writer.pc == T.CopyIn && writer.into == into && writer.n == n == writer.k
      modifies `txIn, `writer, `acts
      ensures Valid() && old(acts) <= acts && writer == old(writer).(done := writer.done, pc := T.Fill)
      ensures writer.done == old(writer).done + n
    {
      hide P.Inv, P.Run, P.Initial;
      ghost var s := State();
      txIn := (into + n) % txBuf.Length;
      writer := writer.(done := writer.done + n, pc := T.Fill);
      assert Tx() == T.CopyInNext(s.tx);
      Did(s, P.WriterStep);
    }

    /** The filling loop of write: store until the data or the room is used up. */
    method WriteBurst(data: seq<Byte>, ptr0: nat) returns (ptr: nat, out: nat)
      requires Valid() && isr.pc == P.Away && writer.pc == T.Fill
      requires writer.data == data && writer.done == ptr0 <= |data|
      modifies `rxIn, `taken, `fifo, `sent, `txOut, `pushed, `irqEnable, `device, `hostInactive, `isr, `writer, `acts
      modifies `txIn, rxBuf, txBuf
      ensures Valid() && isr.pc == P.Away && old(acts) <= acts && writer.pc == T.Kick
      ensures writer.data == data && writer.nonblock == old(writer.nonblock)
      ensures ptr0 <= ptr == writer.done <= |data|
      ensures ptr < |data| ==> writer.out == out && P.Saw(init, acts, |old(acts)|, P.TxFull)
    {
      hide *;
      ptr, out := ptr0, 0;
      var room := true;
      while room
        invariant Valid() && isr.pc == P.Away && old(acts) <= acts
        invariant writer.data == data && writer.nonblock == old(writer.nonblock) && ptr0 <= ptr == writer.done <= |data|
        invariant if room then writer.pc == T.Fill else writer.pc == T.Kick && (ptr < |data| ==> writer.out == out)
        invariant !room && ptr < |data| ==> P.Saw(init, acts, |old(acts)|, P.TxFull)
        decreases |data| - ptr, room
      {
        Preempt();
        var into := LoadTxIn(|data| - ptr);
        if ptr >= |data| {
          room := false;
        } else {
          Preempt();
          var n;
          ghost var from := |acts|;
          out, n := LoadTxOut(into, |data| - ptr);
          if n == 0 {
            StillSaw(true, acts, from, |old(acts)|, P.TxFull);
            room := false;
          } else {
            MemCopyIn(data, ptr, into, n);
            PublishTxIn(into, n);
            ptr := ptr + n;
          }
        }
      }
    }

    /** Kick the interrupt routine: unmask transmit interrupts. */
    method EnableTransmit()
      requires Valid() && isr.pc == P.Away && writer.pc == T.Kick
      modifies `irqEnable, `device, `writer, `acts
      ensures Valid() && old(acts) <= acts && writer == old(writer).(pc := T.DecideWrite)
      ensures irqEnable.we && device.enabled == irqEnable
    {
      hide P.Inv, P.Run, P.Initial, P.Do, P.Enabled;
      ghost var s := State();
      P.WriterKicks(s);
      irqEnable := irqEnable.(we := true);
      device := device.(enabled := irqEnable);
      writer := writer.(pc := T.DecideWrite);
      Did(s, P.WriterStep);
    }

    ghost method DecideWrite()
      requires Valid() && isr.pc == P.Away && writer.pc == T.DecideWrite
      modifies `writer, `acts
      ensures Valid() && old(acts) <= acts
      ensures writer
              == old(writer).(pc := if |writer.data| > writer.done && !writer.nonblock then T.SpinTxOut else T.EndWrite)
    {
      WriterLooks();
    }

    method SpinTestTxOut(out: nat) returns (same: bool)
      requires Valid() && isr.pc == P.Away && writer.pc == T.SpinTxOut && writer.out == out
      modifies `writer, `acts
      ensures Valid() && old(acts) <= acts && same == (out == txOut)
      ensures writer == old(writer).(pc := if same then T.SpinWriteHost else T.CheckHost)
      ensures P.Compared(init, acts, |old(acts)|, P.OnRoom) == 1
    {
      RoomCompared();
      hide P.Inv, P.Run, P.Initial, P.Compared;
      same := out == txOut;
      WriterLooks();
    }

    lemma RoomCompared()
      requires Valid() && writer.pc == T.SpinTxOut
      ensures P.Compared(init, acts + [P.WriterStep], |acts|, P.OnRoom) == 1
    {
      assert (acts + [P.WriterStep])[..|acts|] == acts;
      P.ComparedOnce(init, acts, P.WriterStep, P.OnRoom);
    }

    method SpinTestWriteHost() returns (waiting: bool)
      requires Valid() && isr.pc == P.Away && writer.pc == T.SpinWriteHost
      modifies `writer, `acts
      ensures Valid() && old(acts) <= acts && waiting == (hostInactive < timeout)
      ensures writer == old(writer).(pc := if waiting then T.SpinTxOut else T.CheckHost)
    {
      hide P.Inv, P.Run, P.Initial;
      waiting := hostInactive < timeout;
      WriterLooks();
    }

    /** Spin until a byte leaves or the host is gone; `cut` when the given number of
        laps was not enough. */
    method SpinForRoom(out: nat, laps: nat) returns (cut: bool, left: nat)
      requires Valid() && isr.pc == P.Away && writer.pc == T.SpinTxOut && writer.out == out
      modifies `rxIn, `taken, `fifo, `sent, `txOut, `pushed, `irqEnable, `device, `hostInactive, `isr, `writer, `acts
      modifies rxBuf
      ensures Valid() && isr.pc == P.Away && old(acts) <= acts
      ensures writer == old(writer).(pc := if cut then T.SpinTxOut else T.CheckHost)
      ensures if cut then left == 0 else left < laps && (txOut != out || hostInactive >= timeout)
      ensures P.Compared(init, acts, |old(acts)|, P.OnRoom) >= laps - left
    {
      hide *;
      left := laps;
      while left > 0
        invariant Valid() && isr.pc == P.Away && old(acts) <= acts && writer == old(writer) && left <= laps
        invariant P.Compared(init, acts, |old(acts)|, P.OnRoom) >= laps - left
      {
        left := left - 1;
        ghost var before := acts;
        Preempt();
        ghost var now := acts;
        var same := SpinTestTxOut(out);
        StillCompared(before, |old(acts)|, laps - left - 1, now, P.OnRoom);
        ghost var compared := acts;
        if !same {
          return false, left;
        }
        Preempt();
        var waiting := SpinTestWriteHost();
        StillCompared(compared, |old(acts)|, laps - left, acts, P.OnRoom);
        if !waiting {
          return false, left;
        }
      }
      cut := true;
    }

    method HostGone() returns (gone: bool)
      requires Valid() && isr.pc == P.Away && writer.pc == T.CheckHost && writer.done < |writer.data|
      modifies `writer, `acts
      ensures Valid() && old(acts) <= acts && gone == (hostInactive != 0)
      ensures writer == old(writer).(pc := if gone then T.EndWrite else T.Fill)
    {
      hide P.Inv, P.Run, P.Initial;
      gone := hostInactive != 0;
      WriterLooks();
    }

    ghost method EndWrite()
      requires Valid() && isr.pc == P.Away && writer.pc == T.EndWrite && writer.done <= |writer.data|
      modifies `accepted, `writer, `acts
      ensures Valid() && old(acts) <= acts && writer.pc == T.NotWriting
      ensures accepted == old(accepted + writer.data[..writer.done])
    {
      hide P.Inv, P.Run, P.Initial;
      var s := State();
      accepted := accepted + writer.data[..writer.done];
      writer := T.IDLE_WRITER;
      Did(s, P.WriterStep);
    }

    /** One round of write: fill the ring, then kick the interrupt routine. */
    method FillAndKick(data: seq<Byte>, ptr0: nat) returns (ptr: nat, out: nat)
      requires Valid() && isr.pc == P.Away && writer.pc == T.Fill
      requires writer.data == data && writer.done == ptr0 <= |data|
      modifies `rxIn, `taken, `fifo, `sent, `txOut, `pushed, `irqEnable, `device, `hostInactive, `isr, `writer, `acts
      modifies `txIn, rxBuf, txBuf
      ensures Valid() && isr.pc == P.Away && old(acts) <= acts
      ensures writer.pc == if ptr < |data| && !writer.nonblock then T.SpinTxOut else T.EndWrite
      ensures writer.data == data && writer.nonblock == old(writer.nonblock) && ptr0 <= ptr == writer.done <= |data|
      ensures ptr < |data| ==> writer.out == out && P.Saw(init, acts, |old(acts)|, P.TxFull)
    {
      hide *;
      ptr, out := WriteBurst(data, ptr0);
      ghost var burst := acts;
      Preempt();
      EnableTransmit();
      DecideWrite();
      StillSaw(ptr < |data|, burst, |old(acts)|, |old(acts)|, P.TxFull);
    }

    /** altera_avalon_jtag_uart_write.  A positive result is exactly the number of
        leading bytes handed to the stream; a blocking call gives up early only with
        the host inactive. */
    method Write(data: seq<Byte>, nonblock: bool, laps: nat) returns (r: Result)
      requires Valid() && isr.pc == P.Away && writer.pc == T.NotWriting
      modifies `rxIn, `taken, `fifo, `sent, `txOut, `pushed, `irqEnable, `device, `hostInactive, `isr, `writer, `acts
      modifies `txIn, `accepted, rxBuf, txBuf
      ensures Valid() && isr.pc == P.Away && old(acts) <= acts
      ensures match r
        case Bytes(n) =>
          && writer.pc == T.NotWriting && 0 < n <= |data| && accepted == old(accepted) + data[..n]
          && (n < |data| && !nonblock ==> hostInactive != 0)
          && (n < |data| ==> P.Saw(init, acts, |old(acts)|, P.TxFull))
        case WouldBlock =>
          && writer.pc == T.NotWriting && nonblock && accepted == old(accepted)
          && (data != [] ==> P.Saw(init, acts, |old(acts)|, P.TxFull))
        case Eio =>
          && writer.pc == T.NotWriting && !nonblock && accepted == old(accepted)
          && (data != [] ==> hostInactive != 0 && P.Saw(init, acts, |old(acts)|, P.TxFull))
        case StillWaiting =>
          && writer.pc == T.SpinTxOut && !nonblock && accepted == old(accepted)
          && P.Compared(init, acts, |old(acts)|, P.OnRoom) >= laps && P.Saw(init, acts, |old(acts)|, P.TxFull)
        case Drained => false
    {
      hide *;
      BeginWrite(data, nonblock);
      var ptr, spins := 0, laps;
      ghost var burst := acts;
      while true
        invariant Valid() && isr.pc == P.Away && old(acts) <= acts && writer.pc == T.Fill
        invariant writer.data == data && writer.nonblock == nonblock && writer.done == ptr <= |data|
        invariant accepted == old(accepted)
        invariant 0 <= spins <= laps && P.Compared(init, acts, |old(acts)|, P.OnRoom) >= laps - spins
        decreases spins
      {
        var out;
        ghost var before, from, spent := acts, |acts|, laps - spins;
        ptr, out := FillAndKick(data, ptr);
        burst := acts;
        StillSaw(ptr < |data|, acts, from, |old(acts)|, P.TxFull);
        if ptr == |data| || nonblock {
          break;
        }
        var cut;
        cut, spins := SpinForRoom(out, spins);
        StillCompared(before, |old(acts)|, spent, burst, P.OnRoom);
        if cut {
          StillSaw(true, burst, |old(acts)|, |old(acts)|, P.TxFull);
          return StillWaiting;
        }
        ghost var spun := acts;
        Preempt();
        var gone := HostGone();
        StillCompared(spun, |old(acts)|, laps - spins, acts, P.OnRoom);
        if gone {
          break;
        }
      }
      EndWrite();
      StillSaw(ptr < |data|, burst, |old(acts)|, |old(acts)|, P.TxFull);
      r := if ptr != 0 then Bytes(ptr) else if nonblock then WouldBlock else Eio;
    }

    /** altera_avalon_jtag_uart_close: wait until everything accepted has been pushed;
        only a host timeout ends the wait with bytes left. */
    method Close(nonblock: bool, laps: nat) returns (r: Result)
      requires Valid() && isr.pc == P.Away && writer.pc == T.NotWriting
      modifies `rxIn, `taken, `fifo, `sent, `txOut, `pushed, `irqEnable, `device, `hostInactive, `isr, `acts
      modifies rxBuf
      ensures Valid() && isr.pc == P.Away && old(acts) <= acts
      ensures match r
        case Drained => pushed == accepted || hostInactive >= timeout
        case WouldBlock => nonblock && pushed != accepted && hostInactive < timeout
        case StillWaiting =>
          && !nonblock && pushed != accepted && hostInactive < timeout
          && P.Compared(init, acts, |old(acts)|, P.OnDrain) > laps && irqEnable.we && device.enabled == irqEnable
        case _ => false
    {
      hide *;
      var left := laps;
      while true
        invariant Valid() && isr.pc == P.Away && old(acts) <= acts && 0 <= left <= laps
        invariant P.Compared(init, acts, |old(acts)|, P.OnDrain) >= laps - left
        decreases left
      {
        ghost var before := acts;
        Preempt();
        ghost var now := acts;
        var pending := TestPending();
        if !pending {
          return Drained;
        }
        PendingMeansUnpushed();
        if nonblock {
          return WouldBlock;
        }
        StillCompared(before, |old(acts)|, laps - left, now, P.OnDrain);
        if left == 0 {
          PendingMeansArmed();
          return StillWaiting;
        }
        left := left - 1;
      }
    }

    /** The loop test of close. */
    method TestPending() returns (pending: bool)
      requires Valid() && isr.pc == P.Away && writer.pc == T.NotWriting
      modifies `acts
      ensures Valid() && acts == old(acts) + [P.CloserLooks]
      ensures pending == (txOut != txIn && hostInactive < timeout)
      ensures if pending then P.Compared(init, acts, |old(acts)|, P.OnDrain) == 1
              else pushed == accepted || hostInactive >= timeout
    {
      if txOut == txIn {
        EmptyMeansPushed();
      } else if hostInactive < timeout {
        DrainCompared();
      }
      hide P.Inv, P.Run, P.Initial, P.Compared;
      pending := txOut != txIn && hostInactive < timeout;
      Did(State(), P.CloserLooks);
    }

    lemma DrainCompared()
      requires Valid() && txOut != txIn && hostInactive < timeout
      ensures P.Compared(init, acts + [P.CloserLooks], |acts|, P.OnDrain) == 1
    {
      assert (acts + [P.CloserLooks])[..|acts|] == acts;
      P.ComparedOnce(init, acts, P.CloserLooks, P.OnDrain);
    }

    lemma EmptyMeansPushed()
      requires Valid() && writer.pc == T.NotWriting && txOut == txIn
      ensures pushed == accepted
    {
      assert accepted + writer.data[..0] == accepted;
    }

    lemma PendingMeansUnpushed()
      requires Valid() && writer.pc == T.NotWriting && txOut != txIn
      ensures pushed != accepted
    {
      Occupancy(txBuf[..], txOut, txIn);
      assert accepted + writer.data[..0] == accepted;
      assert |accepted| == |pushed| + |Tx().Held()|;
    }

    lemma PendingMeansArmed()
      requires Valid() && writer.pc == T.NotWriting && txOut != txIn
      ensures irqEnable.we && device.enabled == irqEnable
    {
    }
  }
}
