# Motor controller on a soft processor: a Dafny model

The repository drives a brushless motor from a DE0-Nano board: Verilog blocks do the
commutation and control, and a Nios II processor runs C programs on a hardware
abstraction layer (HAL) with an interrupt-driven serial driver.  This project models the
parts with the most state and proves what they keep over all runs.

- **JTAG UART driver** (`Ring`, `UartReceive`, `UartTransmit`, `UartProtocol`,
  `UartDriver`).  Two circular buffers are shared without locks between an interrupt
  routine and one reader and one writer.  `UartProtocol` is a transition system whose
  steps are single accesses to shared memory; its theorems are about every sequence of
  steps.  `UartDriver` is the code, as a class with the source's loops, in which every
  access is recorded as a step, so that each execution is one of those sequences.  Inside
  the class, anything may happen between two accesses of a thread that touch shared
  memory: interrupts, the alarm and the host, any number of times (`Preempt`), and the
  host acts between any two device accesses of the interrupt routine.  In the transition
  system reader and writer may run concurrently as well.  The buffer length is any number
  from 2.
- **Alarms** (`AlarmTime`, `AlarmList`, `AlarmBook`, `AlarmScheduler`).  A wrapping 32-bit
  tick counter, alarms with a 32-bit time and a rollover flag on an intrusive doubly linked
  list, and callbacks that start and stop alarms while the list is walked.  `AlarmBook` is
  the scheduler on lists and unbounded deadlines, with its laws over any number of ticks;
  `AlarmScheduler` is the code, each operation of which is proved to have the effect of the
  one in `AlarmBook`.  What the callbacks do and answer is an input of each tick.
- **File descriptors** (`FdTable`, `FdRuns`, `FdPool`).  The pool, its high-water mark, the
  exclusive lock, failure clean-up in `open`, and redirection of the standard descriptors;
  for any pool size from 3.  `FdPool` is the array the program updates, `FdTable` the pool
  as a value, `FdRuns` what holds over every sequence of calls.
- **Printing** (`NumberPrint`, `LogPrintf`).  The two small printf implementations.
- **Wall clock** (`WallClock`).  `settimeofday` and `gettimeofday`.
- **Clocked blocks** (`HallFilter`, `Pid`, `Commutation`, `Pwm`, `PatternPwm`).  The hall
  debounce filter, the incremental controller, six-step commutation and PWM, for any
  register width; one step is one active clock edge.

`Words` holds the unsigned 32-bit type and what several modules share.

## What the hardware and the callers are taken to do

- The UART reports RI only with RE set and a byte in its receive FIFO, WI only with WE set
  and room to transmit; a data read without a valid byte reports nothing available; a
  valid read may report availability either way; the room shrinks only by driver writes.
- The processor is single and interrupts do not nest: while the interrupt routine runs,
  threads and the alarm do not.
- One reader and one writer.
- An alarm is not started while it runs, and is not stopped before it was first started.
  A callback may start any alarms that do not run, and may stop its own and start it anew;
  it does not stop others.
- Callbacks do not ask for the interval 2^32 - 1, nor, for their own alarm started anew,
  for an interval that with their answer comes to 2^32 - 1 ticks or more: such deadlines
  have no 32-bit form (`AlarmTime.FirstFiring`, `AlarmTime.RearmInSync`).
- `fcntl` and `ioctl` are called on descriptors inside the pool, `close` and driver
  requests on bound ones, as the source dereferences them unchecked.  What a driver's own
  `open`, `close` or `ioctl` answers is a parameter, as is what a name lookup finds.
- `int` and `long` have 32 bits.

## Where the code does less than its documentation says

- `alt_fd_lock.c:40-52` promises a lock only if no other descriptor has the device open,
  but the scan at `alt_fd_lock.c:61` stops below the high-water mark.  `FdRuns.GrantIsSole`
  says exactly when a grant is sole ownership, `FdRuns.SharedGrant` gives a run where it is
  not; `FdRuns.Reachable` shows that two holders of one device still never arise.
- The same comment says closing a descriptor releases its lock.  Closing a standard
  descriptor does not, because `alt_release_fd` leaves 0..2 alone: the exact condition is in
  `FdRuns.CallKeepsHolder`, a run in `FdRuns.ClosedStandardHolds`.
- `alt_settod.c:60-64` promises that an immediate read returns what was set.  The product
  at `alt_settod.c:83-84` wraps at 32 bits: `WallClock.ReadBack` says exactly when the
  promise holds, `WallClock.ReadBackFails` gives numbers.
- An alarm interval of 2^32 - 1 ticks wraps to the current tick:
  `AlarmTime.FirstFiring` says exactly when the first firing is right.

## Model

| member | source | states |
|---|---|---|
| UartProtocol.ReceiveInOrder | DE0_NANO/software/c_program_bsp/drivers/src/altera_avalon_jtag_uart_init.c:132-154 | over every interleaving, the bytes the host sent are those handed to callers, then the running call's, then the ring's, then the device FIFO's: no loss, repetition or reordering; a call never gets more than it asked for |
| UartProtocol.TransmitInOrder | DE0_NANO/software/c_program_bsp/drivers/src/altera_avalon_jtag_uart_write.c:100-139 | over every interleaving, the bytes accepted by write are those pushed to the device followed by those in the ring, in order |
| UartProtocol.NoOverrun | DE0_NANO/software/c_program_bsp/drivers/src/altera_avalon_jtag_uart_init.c:137-184 | a byte is taken only into a free cell, and the routine's transmit credit never exceeds the device's room |
| UartProtocol.TransmitArmed | DE0_NANO/software/c_program_bsp/drivers/src/altera_avalon_jtag_uart_write.c:126-184 | device enables equal the shadow; bytes wait with WE clear only while a writer that published some is on its way to set WE; a writer spinning on an unmoved tx_out has a full ring and WE set |
| UartProtocol.ReceiveArmed | DE0_NANO/software/c_program_bsp/drivers/src/altera_avalon_jtag_uart_read.c:166-195 | RE is clear only with the ring full or a reader holding bytes that has yet to set RE; a reader spinning on an unmoved rx_in has an empty ring and RE set |
| UartProtocol.SpinsExact | DE0_NANO/software/c_program_bsp/drivers/src/altera_avalon_jtag_uart_read.c:166-178 | both spin tests, though modulo LEN, hold exactly if not one byte moved since the index was loaded |
| UartProtocol.PassesShrink | DE0_NANO/software/c_program_bsp/drivers/src/altera_avalon_jtag_uart_init.c:117-196 | each pass of the interrupt routine leaves less work (free receive slots, transmit occupancy, RE, WE) than when it read the control register, whatever the host does |
| UartProtocol.PushEndsSpin | DE0_NANO/software/c_program_bsp/drivers/src/altera_avalon_jtag_uart_write.c:183-184 | however a run goes on while a writer spins, its test fails if and only if a byte has been pushed since the spin began |
| UartProtocol.TakeEndsSpin | DE0_NANO/software/c_program_bsp/drivers/src/altera_avalon_jtag_uart_read.c:173-174 | however a run goes on while a reader spins, its test fails if and only if a byte has been taken since the spin began |
| UartProtocol.WriterReleased | DE0_NANO/software/c_program_bsp/drivers/src/altera_avalon_jtag_uart_init.c:169-184 | from every state in which a writer spins on an unmoved tx_out and the device has room, a transmit interrupt can follow, and its first step ends the spin |
| UartProtocol.ReaderReleased | DE0_NANO/software/c_program_bsp/drivers/src/altera_avalon_jtag_uart_init.c:125-154 | from every state in which a reader spins on an unmoved rx_in and the device holds a byte, a receive interrupt can follow, and its first byte ends the spin |
| UartProtocol.HostCounted | DE0_NANO/software/c_program_bsp/drivers/src/altera_avalon_jtag_uart_init.c:203-225 | while the host does not poll, host_inactive after any run is what it was plus the alarms in the run, up to 2^31 - 3 |
| UartProtocol.HostTimesOut | DE0_NANO/software/c_program_bsp/drivers/src/altera_avalon_jtag_uart_init.c:215-222 | after as many alarms without a poll as the timeout says, the host counts as timed out |
| UartProtocol.HostReturns | DE0_NANO/software/c_program_bsp/drivers/src/altera_avalon_jtag_uart_init.c:210-214 | a poll and an alarm make the host present again |
| UartProtocol.ReaderGivesUp | DE0_NANO/software/c_program_bsp/drivers/src/altera_avalon_jtag_uart_read.c:171-203 | with the host timed out a reader whose test of it comes next ends its call by its own steps if no byte came, with nothing delivered, and reads on if one did |
| UartProtocol.WriterGivesUp | DE0_NANO/software/c_program_bsp/drivers/src/altera_avalon_jtag_uart_write.c:183-212 | with the host timed out a writer whose test of it comes next ends its call by its own steps, with the bytes published so far |
| UartProtocol.SpinsGoOn | DE0_NANO/software/c_program_bsp/drivers/src/altera_avalon_jtag_uart_write.c:183-191 | a comparison that finds the index unmoved leads to the test of the host, one that finds it moved ends the spin; then only an inactive host ends the call |
| UartProtocol.AbsentHostEndsCalls | DE0_NANO/software/c_program_bsp/drivers/src/altera_avalon_jtag_uart_init.c:203-225 | however a run goes on while the host stays away for the timeout, waiting calls of read and write end by their own steps after it |
| UartProtocol.RunKeepsInv | DE0_NANO/software/c_program_bsp/drivers/inc/altera_avalon_jtag_uart.h:90-118 | the invariant behind these holds in every state of every run |
| UartProtocol.StepKeepsInv | DE0_NANO/software/c_program_bsp/drivers/src/altera_avalon_jtag_uart_init.c:110-225 | one action of thread, interrupt routine, alarm or host keeps it |
| UartProtocol.RunExtends | DE0_NANO/software/c_program_bsp/drivers/src/altera_avalon_jtag_uart_init.c:110-197 | an enabled action extends a run by its effect |
| UartProtocol.TakeShrinks | DE0_NANO/software/c_program_bsp/drivers/src/altera_avalon_jtag_uart_init.c:144-150 | taking a byte into the ring uses up one unit of the routine's work |
| UartReceive.TakeKeepsInv | DE0_NANO/software/c_program_bsp/drivers/src/altera_avalon_jtag_uart_init.c:137-150 | storing a received byte appends it to the ring and keeps whatever the reader has loaded or half copied valid |
| UartReceive.ReaderKeepsInv | DE0_NANO/software/c_program_bsp/drivers/src/altera_avalon_jtag_uart_read.c:115-198 | every step of read keeps conservation and the meaning of its stale snapshot of rx_in |
| UartReceive.SnapshotRun | DE0_NANO/software/c_program_bsp/drivers/src/altera_avalon_jtag_uart_read.c:122-134 | the run computed from a stale rx_in is still available, and empty only if the ring was empty when it was loaded |
| UartReceive.SpinExact | DE0_NANO/software/c_program_bsp/drivers/src/altera_avalon_jtag_uart_read.c:173-178 | the spin condition on rx_in is exact |
| UartReceive.ReaderKeepsPromise | DE0_NANO/software/c_program_bsp/drivers/src/altera_avalon_jtag_uart_read.c:186-195 | how read's steps move the facts the receive mask depends on |
| UartTransmit.WriterKeepsInv | DE0_NANO/software/c_program_bsp/drivers/src/altera_avalon_jtag_uart_write.c:100-200 | every step of write keeps conservation, and a writer that stops early saw a full ring |
| UartTransmit.PushKeepsFlow | DE0_NANO/software/c_program_bsp/drivers/src/altera_avalon_jtag_uart_init.c:174-184 | pushing a byte moves the oldest held byte to the device |
| UartTransmit.PushKeepsInv | DE0_NANO/software/c_program_bsp/drivers/src/altera_avalon_jtag_uart_init.c:174-184 | and keeps whatever the writer has loaded or half copied valid |
| UartTransmit.NoRoomIsFull | DE0_NANO/software/c_program_bsp/drivers/src/altera_avalon_jtag_uart_write.c:109-117 | the writer's computed room is never negative, stays within the buffer, and is zero exactly when the ring is full |
| UartTransmit.SpinExact | DE0_NANO/software/c_program_bsp/drivers/src/altera_avalon_jtag_uart_write.c:183-184 | the spin condition on tx_out is exact |
| UartTransmit.WriterKeepsPromise | DE0_NANO/software/c_program_bsp/drivers/src/altera_avalon_jtag_uart_write.c:126-139 | how write's steps move the facts the transmit mask depends on |
| Ring.Occupancy | DE0_NANO/software/c_program_bsp/drivers/inc/altera_avalon_jtag_uart.h:109-114 | occupancy is the index distance modulo LEN, below LEN; equal indices mean empty, adjacent ones full |
| Ring.Store | DE0_NANO/software/c_program_bsp/drivers/src/altera_avalon_jtag_uart_init.c:149-150 | storing at the store index of a ring that is not full appends |
| Ring.Take | DE0_NANO/software/c_program_bsp/drivers/src/altera_avalon_jtag_uart_read.c:125-140 | the block the reader copies is the oldest bytes; publishing rx_out drops exactly those |
| Ring.Pop | DE0_NANO/software/c_program_bsp/drivers/src/altera_avalon_jtag_uart_init.c:176-178 | the byte at tx_out is the oldest |
| Ring.Publish | DE0_NANO/software/c_program_bsp/drivers/src/altera_avalon_jtag_uart_write.c:109-126 | publishing tx_in appends exactly the block copied |
| Ring.RunsGrow | DE0_NANO/software/c_program_bsp/drivers/src/altera_avalon_jtag_uart_read.c:122-134 | the other side only ever lengthens a computed run |
| UartDriver.JtagUart.constructor | DE0_NANO/software/c_program_bsp/drivers/src/altera_avalon_jtag_uart_init.c:66-100 | initial state: both rings empty and of the given length, RE set, host present, the given timeout |
| UartDriver.JtagUart.Isr | DE0_NANO/software/c_program_bsp/drivers/src/altera_avalon_jtag_uart_init.c:106-197 | the interrupt routine ends, although the host sends and drains between its accesses; its execution is a run of the protocol whose last step is a control read with nothing pending |
| UartDriver.JtagUart.ReadControl | DE0_NANO/software/c_program_bsp/drivers/src/altera_avalon_jtag_uart_init.c:119-123 | the control word: pending interrupts only when enabled with cause; return when none |
| UartDriver.JtagUart.TestRxFull | DE0_NANO/software/c_program_bsp/drivers/src/altera_avalon_jtag_uart_init.c:137-139 | the full test of the receive loop |
| UartDriver.JtagUart.ReadData | DE0_NANO/software/c_program_bsp/drivers/src/altera_avalon_jtag_uart_init.c:144-154 | one data register read; a valid byte is stored and uses up work |
| UartDriver.JtagUart.ReceiveAll | DE0_NANO/software/c_program_bsp/drivers/src/altera_avalon_jtag_uart_init.c:125-167 | the receive branch ends, leaving the transmit branch or the next control read |
| UartDriver.JtagUart.LeaveReceive | DE0_NANO/software/c_program_bsp/drivers/src/altera_avalon_jtag_uart_init.c:156-166 | RE is cleared exactly if more is available |
| UartDriver.JtagUart.PushByte | DE0_NANO/software/c_program_bsp/drivers/src/altera_avalon_jtag_uart_init.c:174-184 | the byte at tx_out goes to the device, one credit is used |
| UartDriver.JtagUart.LeaveTransmit | DE0_NANO/software/c_program_bsp/drivers/src/altera_avalon_jtag_uart_init.c:186-194 | WE is cleared exactly if credit is left |
| UartDriver.JtagUart.TransmitAll | DE0_NANO/software/c_program_bsp/drivers/src/altera_avalon_jtag_uart_init.c:169-195 | no more bytes are pushed than the room read |
| UartDriver.JtagUart.Timeout | DE0_NANO/software/c_program_bsp/drivers/src/altera_avalon_jtag_uart_init.c:203-225 | the alarm: activity rewrites the enables and resets host_inactive, otherwise it counts up to 2^31 - 3 |
| UartDriver.JtagUart.Read | DE0_NANO/software/c_program_bsp/drivers/src/altera_avalon_jtag_uart_read.c:100-203 | a positive result is the number of next stream bytes now at the start of the caller's buffer, the rest of which is untouched; anything short of the space asked for, and every error, comes only after the ring was empty at some moment of the call, -EIO only after the host had timed out as well; an execution cut off had found the ring empty and then compared rx_in as many times as it was allowed |
| UartDriver.JtagUart.ReadBurst | DE0_NANO/software/c_program_bsp/drivers/src/altera_avalon_jtag_uart_read.c:119-142 | the copy loop fills the buffer with the next bytes, or ends short of it because the ring was empty when rx_in was loaded |
| UartDriver.JtagUart.LoadPiece | DE0_NANO/software/c_program_bsp/drivers/src/altera_avalon_jtag_uart_read.c:123-134 | both indices loaded, nothing to copy only if the ring was empty at the load of rx_in |
| UartDriver.JtagUart.ReadPiece | DE0_NANO/software/c_program_bsp/drivers/src/altera_avalon_jtag_uart_read.c:136-140 | one block copy, preempted between bytes, and its publication |
| UartDriver.JtagUart.LoadRxOut | DE0_NANO/software/c_program_bsp/drivers/src/altera_avalon_jtag_uart_read.c:123-134 | the length of the block to copy: as far as the space, the store index or the end of the buffer |
| UartDriver.JtagUart.SpinForInput | DE0_NANO/software/c_program_bsp/drivers/src/altera_avalon_jtag_uart_read.c:173-174 | the spin ends only for a new byte or a host timeout; cut off only after the allowed number of comparisons, which are in the run |
| UartDriver.JtagUart.WaitForInput | DE0_NANO/software/c_program_bsp/drivers/src/altera_avalon_jtag_uart_read.c:173-178 | after the spin still nothing new means the host had timed out |
| UartDriver.JtagUart.EnableReceive | DE0_NANO/software/c_program_bsp/drivers/src/altera_avalon_jtag_uart_read.c:188-195 | RE is set in shadow and device if anything was read |
| UartDriver.JtagUart.Write | DE0_NANO/software/c_program_bsp/drivers/src/altera_avalon_jtag_uart_write.c:83-215 | a positive result is the number of leading bytes handed to the stream; a short or refused write comes only after the ring was full at some moment of the call, and a blocking one only with the host inactive; an execution cut off had found the ring full and then compared tx_out as many times as it was allowed |
| UartDriver.JtagUart.WriteBurst | DE0_NANO/software/c_program_bsp/drivers/src/altera_avalon_jtag_uart_write.c:103-127 | the copy loop stores until the data is used up or the ring was full |
| UartDriver.JtagUart.LoadTxOut | DE0_NANO/software/c_program_bsp/drivers/src/altera_avalon_jtag_uart_write.c:107-120 | the length of the block to store: as far as the data, the free cell kept behind tx_out or the end of the buffer |
| UartDriver.JtagUart.StoreTxByte | DE0_NANO/software/c_program_bsp/drivers/src/altera_avalon_jtag_uart_write.c:122 | one byte of the block copy |
| UartDriver.JtagUart.PublishTxIn | DE0_NANO/software/c_program_bsp/drivers/src/altera_avalon_jtag_uart_write.c:123-126 | publication of the block |
| UartDriver.JtagUart.EnableTransmit | DE0_NANO/software/c_program_bsp/drivers/src/altera_avalon_jtag_uart_write.c:136-139 | WE is set in shadow and device |
| UartDriver.JtagUart.SpinForRoom | DE0_NANO/software/c_program_bsp/drivers/src/altera_avalon_jtag_uart_write.c:183-184 | the spin ends only for a byte gone or a host timeout; cut off only after the allowed number of comparisons, which are in the run |
| UartDriver.JtagUart.Close | DE0_NANO/software/c_program_bsp/drivers/src/altera_avalon_jtag_uart_init.c:241-254 | close waits until everything accepted was pushed, unless the host timed out; a non-blocking close is refused only with accepted bytes not yet pushed and the host present; an execution cut off had made more tests than allowed, each with bytes pending and the host present |
| AlarmTime.StartInSync | DE0_NANO/software/c_program_bsp/HAL/src/alt_alarm_start.c:83-98 | the 32-bit deadline and flag stand for the true deadline now + n + 1 if and only if n is not 2^32 - 1 |
| AlarmTime.TickInSync | DE0_NANO/software/c_program_bsp/HAL/src/alt_tick.c:96-115 | at each tick the alarm expires if and only if its true deadline is reached, and otherwise stays represented |
| AlarmTime.RearmInSync | DE0_NANO/software/c_program_bsp/HAL/src/alt_tick.c:120-138 | after a callback the fields stand for the old deadline plus the answer if and only if that is less than a counter wrap away |
| AlarmTime.FirstFiring | DE0_NANO/software/c_program_bsp/HAL/src/alt_alarm_start.c:83-98 | the first firing is after exactly n + 1 ticks if and only if n is not 2^32 - 1 or the counter is about to wrap; otherwise it is at the next tick |
| AlarmTime.LargestIntervalAtReset | DE0_NANO/software/c_program_bsp/HAL/src/alt_alarm_start.c:83-98 | a concrete failure: interval 2^32 - 1 started at reset fires at tick 1 |
| AlarmTime.FiresOnTime | DE0_NANO/software/c_program_bsp/HAL/src/alt_tick.c:96-138 | over any number of ticks and counter wraps, the 32-bit alarm fires at exactly the ticks unbounded deadlines give |
| AlarmTime.StartedFiresOnTime | DE0_NANO/software/c_program_bsp/HAL/src/alt_alarm_start.c:78-98 | the same from the call that starts the alarm |
| AlarmList.Alarm.Head | DE0_NANO/software/c_program_bsp/HAL/inc/sys/alt_llist.h:75 | an empty circle |
| AlarmList.Insert | DE0_NANO/software/c_program_bsp/HAL/inc/sys/alt_llist.h:90-98 | insert puts the entry first and keeps next and previous inverse and circular |
| AlarmList.Remove | DE0_NANO/software/c_program_bsp/HAL/inc/sys/alt_llist.h:105-117 | remove deletes the entry, or changes no list if it was in none; it then links to itself |
| AlarmList.Untouched | DE0_NANO/software/c_program_bsp/HAL/inc/sys/alt_llist.h:90-117 | a list none of whose members is touched stays what it was |
| AlarmBook.FiresExactly | DE0_NANO/software/c_program_bsp/HAL/src/alt_tick.c:96-138 | over any number of ticks, whatever callbacks do and the program starts and stops, an alarm left to its own answers fires exactly at its unbounded deadlines |
| AlarmBook.StartedFiresExactly | DE0_NANO/software/c_program_bsp/HAL/src/alt_alarm_start.c:78-98 | the same from a call of the program that starts it: first after n + 1 ticks |
| AlarmBook.CallbackStartFiresExactly | DE0_NANO/software/c_program_bsp/HAL/src/alt_tick.c:117-138 | the same from a start inside a callback: first n + 1 ticks after the tick that called back, and later by the answer if the alarm restarts itself; the callback and its request are produced |
| AlarmBook.TickLaw | DE0_NANO/software/c_program_bsp/HAL/src/alt_tick.c:87-141 | a tick calls back exactly the alarms due, once each, in list order; those that answer zero or stop themselves leave the list, the others are due one answer later, and what callbacks started stands in front, due as their requests say |
| AlarmBook.TickCallsOnce | DE0_NANO/software/c_program_bsp/HAL/src/alt_tick.c:87-118 | a tick makes one callback for each alarm in the list that is due and none for any other |
| AlarmBook.TickCallsInOrder | DE0_NANO/software/c_program_bsp/HAL/src/alt_tick.c:87-141 | of two due alarms the one further up the list is called first |
| AlarmBook.TickKeeps | DE0_NANO/software/c_program_bsp/HAL/src/alt_tick.c:96-139 | a tick leaves running alarms that are not due as they are; an idle one stays as it was, or runs with a deadline some callback of this tick asked for |
| AlarmBook.StartedInTick | DE0_NANO/software/c_program_bsp/HAL/src/alt_tick.c:117-138 | an alarm newly in the list after a tick was asked for by a callback of that tick, and is first due at the tick plus the interval plus one, plus the answer if its own callback did it |
| AlarmBook.TickStarts | DE0_NANO/software/c_program_bsp/HAL/src/alt_tick.c:117-118 | an idle alarm that a callback of the tick starts does run after it |
| AlarmBook.QuietTick | DE0_NANO/software/c_program_bsp/HAL/src/alt_tick.c:115-138 | an alarm nobody stops or restarts fires at a tick if and only if it is due, and leaves the list if and only if it then answers zero |
| AlarmBook.TurnList | DE0_NANO/software/c_program_bsp/HAL/src/alt_tick.c:117-124 | one callback and its answer: alarms are put in front, its own one is taken out or not, all others keep their places |
| AlarmBook.TurnOwn | DE0_NANO/software/c_program_bsp/HAL/src/alt_tick.c:117-138 | one callback and its answer: its own alarm is due one answer after the old deadline, or left the list, or was started anew and is due after both intervals |
| AlarmBook.TurnKeeps | DE0_NANO/software/c_program_bsp/HAL/src/alt_tick.c:117-138 | one callback and its answer: no other running alarm is touched, another idle one stays as it was or is due as the callback asked |
| AlarmBook.WalkShape | DE0_NANO/software/c_program_bsp/HAL/src/alt_tick.c:92-141 | part-way through the walk: the alarms started, the visited ones that stay, the ones still to be visited, each with its job |
| AlarmBook.EventGood | DE0_NANO/software/c_program_bsp/HAL/src/alt_tick.c:66-141 | starting, stopping and ticking keep each running alarm in the list once, due in the future |
| AlarmBook.MinusAt | DE0_NANO/software/c_program_bsp/HAL/inc/sys/alt_llist.h:105-117 | deleting the k-th of distinct entries is deleting the entry |
| AlarmScheduler.Scheduler.constructor | DE0_NANO/software/c_program_bsp/HAL/src/alt_tick.c:44-58 | no alarms, tick zero |
| AlarmScheduler.Scheduler.Start | DE0_NANO/software/c_program_bsp/HAL/src/alt_alarm_start.c:64-112 | status by cause; the alarm becomes the first, due at now + n + 1, represented if and only if n is not 2^32 - 1 |
| AlarmScheduler.Scheduler.Stop | DE0_NANO/software/c_program_bsp/HAL/src/alt_tick.c:66-73 | the alarm is taken out if it runs, and nothing else changes |
| AlarmScheduler.Scheduler.Tick | DE0_NANO/software/c_program_bsp/HAL/src/alt_tick.c:87-141 | for every behaviour of the callbacks the walk over the changing list has exactly the effect of Ticked on lists and unbounded deadlines, and every running alarm stays represented in 32 bits |
| AlarmScheduler.Scheduler.Lap | DE0_NANO/software/c_program_bsp/HAL/src/alt_tick.c:92-141 | one lap: the alarm is visited and the walk goes on with the one that followed, whatever the callback did to the list |
| AlarmScheduler.Scheduler.Visit | DE0_NANO/software/c_program_bsp/HAL/src/alt_tick.c:96-139 | one alarm: called back if and only if its true deadline is reached |
| AlarmScheduler.Scheduler.Fire | DE0_NANO/software/c_program_bsp/HAL/src/alt_tick.c:115-138 | the callback, then exactly what its answer asks for |
| AlarmScheduler.Scheduler.Callback | DE0_NANO/software/c_program_bsp/HAL/src/alt_tick.c:117 | a callback starts idle alarms and stops and restarts its own, in any order |
| AlarmScheduler.Scheduler.Rearm | DE0_NANO/software/c_program_bsp/HAL/src/alt_tick.c:124-136 | the new 32-bit time and flag stand for the deadline plus the answer |
| FdRuns.Exclusion | DE0_NANO/software/c_program_bsp/HAL/src/alt_open.c:64-92 | over any sequence of calls none of which ends the lock, the holder keeps it and no descriptor joins it on the device |
| FdRuns.CallKeepsHolder | DE0_NANO/software/c_program_bsp/HAL/src/alt_open.c:138-166 | one call adds no descriptor to a held device, and ends the lock if and only if it is a close of a non-standard holder, TIOCNXCL on it, or a successful redirection of it |
| FdRuns.ClosedStandardHolds | DE0_NANO/software/c_program_bsp/HAL/src/alt_release_fd.c:44-51 | a run in which standard output is locked and closed, and still holds the lock |
| FdRuns.HeldOpenFails | DE0_NANO/software/c_program_bsp/HAL/src/alt_open.c:79-92 | opening a held device fails with EACCES, or EMFILE if the pool is full |
| FdRuns.RunKeepsInv | DE0_NANO/software/c_program_bsp/HAL/src/alt_dev.c:118-149 | the pool invariant holds after every sequence of calls |
| FdRuns.Reachable | DE0_NANO/software/c_program_bsp/HAL/src/alt_dev.c:118-149 | in every reachable pool 0..2 are bound, everything above the mark is free, and no device has two lock holders |
| FdRuns.ReachableOpen | DE0_NANO/software/c_program_bsp/HAL/src/alt_open.c:130-170 | open succeeds if and only if the name is known, an entry is free, the device is not held and the driver agrees; it gives the least free descriptor, never a standard one |
| FdRuns.FailedOpenKeeps | DE0_NANO/software/c_program_bsp/HAL/src/alt_open.c:161-166 | a failed open leaves every binding and every entry in use as it was |
| FdRuns.GrantMissesOnlyTheMark | DE0_NANO/software/c_program_bsp/HAL/src/alt_fd_lock.c:61-69 | the only sharer a granted lock can have is at the high-water mark |
| FdRuns.LockOutcome | DE0_NANO/software/c_program_bsp/HAL/src/alt_fd_lock.c:54-75 | TIOCEXCL on a device in any reachable pool: granted if and only if no other entry below the mark is on the same device, setting the one bit; otherwise EACCES with the pool unchanged |
| FdRuns.RequestCases | DE0_NANO/software/c_program_bsp/HAL/src/alt_ioctl.c:117-168 | every other ioctl: EBADFD, the unlock of a device, or the driver's answer |
| FdRuns.CloseCases | DE0_NANO/software/c_program_bsp/HAL/src/alt_close.c:75-101 | the answer of close, and that it frees a descriptor above 2 and changes no other entry |
| FdRuns.GetCases | DE0_NANO/software/c_program_bsp/HAL/src/alt_fcntl.c:84-85 | F_GETFL answers all but the two reserved bits and changes nothing |
| FdRuns.SetCases | DE0_NANO/software/c_program_bsp/HAL/src/alt_fcntl.c:86-92 | F_SETFL replaces O_APPEND and O_NONBLOCK, bits 0x4008, and nothing else |
| FdRuns.SetThenGet | DE0_NANO/software/c_program_bsp/HAL/src/alt_fcntl.c:84-92 | what F_GETFL answers after F_SETFL, from what it answered before |
| FdRuns.FcntlErrors | DE0_NANO/software/c_program_bsp/HAL/src/alt_fcntl.c:79-100 | EBADFD for a negative descriptor, EINVAL for any other command, the pool unchanged |
| FdRuns.OpenThenGet | DE0_NANO/software/c_program_bsp/HAL/src/alt_open.c:139-152 | after open, F_GETFL answers the flags given to open without the two reserved bits |
| FdRuns.OpenMarks | DE0_NANO/software/c_program_bsp/HAL/src/alt_open.c:139-152 | the flags of a new descriptor, bit by bit |
| FdRuns.GrantIsSole | DE0_NANO/software/c_program_bsp/HAL/src/alt_fd_lock.c:61-69 | a granted lock is sole ownership if and only if the descriptor at the mark is the one locked or on another device |
| FdRuns.SharedGrant | DE0_NANO/software/c_program_bsp/HAL/src/alt_fd_lock.c:61-69 | a run that ends with a lock granted on a device another descriptor has open |
| FdRuns.LockKeepsInv | DE0_NANO/software/c_program_bsp/HAL/src/alt_fd_lock.c:54-75 | still no device gets two holders |
| FdRuns.RedirectCases | DE0_NANO/software/c_program_bsp/HAL/src/alt_io_redirect.c:58-72 | redirection binds the standard descriptor to what was opened and changes no other binding; if the open fails it changes nothing in use |
| FdRuns.OpenThenClose | DE0_NANO/software/c_program_bsp/HAL/src/alt_close.c:84-95 | closing what was just opened frees that entry and changes no other |
| FdRuns.LockThenUnlock | DE0_NANO/software/c_program_bsp/HAL/src/alt_fd_unlock.c:52-56 | unlocking takes back exactly what a grant set |
| FdTable.OpenCases | DE0_NANO/software/c_program_bsp/HAL/src/alt_open.c:105-171 | open() case by case: errors in the order of the source, the least free entry, lock test over the whole pool |
| FdTable.ScanSeesHolders | DE0_NANO/software/c_program_bsp/HAL/src/alt_open.c:79-87 | the lock scan up to the mark sees every holder in the pool |
| FdTable.OpenFlagsKeep | DE0_NANO/software/c_program_bsp/HAL/src/alt_open.c:138-139 | the caller's flags are stored but for the two reserved ones |
| FdTable.OpenFlagsReserved | DE0_NANO/software/c_program_bsp/HAL/src/alt_open.c:72 | a descriptor just opened is not locked, and marked as a device exactly if it is one |
| FdTable.SetFlagsSets | DE0_NANO/software/c_program_bsp/HAL/src/alt_fcntl.c:86-92 | F_SETFL takes O_APPEND and O_NONBLOCK from its argument |
| FdTable.SetFlagsKeeps | DE0_NANO/software/c_program_bsp/HAL/src/alt_fcntl.c:86-92 | and keeps all other flags, the lock among them |
| FdTable.InitialInv | DE0_NANO/software/c_program_bsp/HAL/src/alt_dev.c:118-149 | the pool the program starts with |
| FdPool.Pool.constructor | DE0_NANO/software/c_program_bsp/HAL/src/alt_dev.c:118-149 | the initial array and mark |
| FdPool.Pool.GetFd | DE0_NANO/software/c_program_bsp/HAL/src/alt_get_fd.c:54-101 | first free entry, mark raised, or EMFILE |
| FdPool.Pool.ReleaseFd | DE0_NANO/software/c_program_bsp/HAL/src/alt_release_fd.c:44-51 | entries above 2 are cleared, others kept |
| FdPool.Pool.FileLocked | DE0_NANO/software/c_program_bsp/HAL/src/alt_open.c:64-92 | marks the descriptor, then scans up to and including the mark |
| FdPool.Pool.Open | DE0_NANO/software/c_program_bsp/HAL/src/alt_open.c:105-171 | the in-place open is the step of the pool value |
| FdPool.Pool.Close | DE0_NANO/software/c_program_bsp/HAL/src/alt_close.c:64-101 | the in-place close is the step of the pool value |
| FdPool.Pool.Fcntl | DE0_NANO/software/c_program_bsp/HAL/src/alt_fcntl.c:66-101 | the in-place fcntl is the step of the pool value, whose answers and effects GetCases, SetCases and FcntlErrors give |
| FdPool.Pool.FdLock | DE0_NANO/software/c_program_bsp/HAL/src/alt_fd_lock.c:54-75 | scans below the mark, then grants or refuses; LockOutcome says when |
| FdPool.Pool.FdUnlock | DE0_NANO/software/c_program_bsp/HAL/src/alt_fd_unlock.c:52-56 | clears the lock flag |
| FdPool.Pool.Ioctl | DE0_NANO/software/c_program_bsp/HAL/src/alt_ioctl.c:106-168 | lock and unlock for devices only; anything else goes to the driver |
| FdPool.Pool.OpenFd | DE0_NANO/software/c_program_bsp/HAL/src/alt_io_redirect.c:58-72 | copies the opened entry over a standard one and frees it |
| FdPool.Pool.IoRedirect | DE0_NANO/software/c_program_bsp/HAL/src/alt_io_redirect.c:85-94 | output, input, error, in that order |
| NumberPrint.ReadsBack | DE0_NANO/software/c_program_bsp/HAL/src/alt_log_printf.c:206-300 | for every word, sign, base, width and zero flag the printed field reads back as the argument, the most negative one included |
| NumberPrint.FieldWidth | DE0_NANO/software/c_program_bsp/HAL/src/alt_log_printf.c:256-280 | the field is as long as the larger of the width and sign plus digits, with as few digits as hold the value |
| NumberPrint.PrintInteger | DE0_NANO/software/c_program_bsp/HAL/src/alt_log_printf.c:206-300 | the printing loops produce that field |
| NumberPrint.LargestPlace | DE0_NANO/software/c_program_bsp/HAL/src/alt_log_printf.c:246-254 | digit count and largest place value; the 32-bit products do not overflow |
| NumberPrint.PrintDigits | DE0_NANO/software/c_program_bsp/HAL/src/alt_log_printf.c:282-299 | dividing by place values prints the digits in order |
| NumberPrint.PrintLead | DE0_NANO/software/c_program_bsp/HAL/src/alt_log_printf.c:256-280 | zeros go after the sign, spaces before it |
| NumberPrint.RepChar | DE0_NANO/software/c_program_bsp/HAL/src/alt_log_printf.c:106-110 | as many characters as asked for, none for a negative count |
| NumberPrint.LeadDigit | DE0_NANO/software/c_program_bsp/HAL/src/alt_log_printf.c:284-298 | the quotient by the place value is the first digit, the remainder holds the others |
| NumberPrint.NumeralValue | DE0_NANO/software/c_program_bsp/HAL/src/alt_log_printf.c:284-298 | the digits of a value say the value |
| NumberPrint.OctalWritten | DE0_NANO/software/c_program_bsp/HAL/src/alt_log_printf.c:246-299 | in base 8 the digits printed are those of plain positional notation, as few as hold the value |
| NumberPrint.DecimalWritten | DE0_NANO/software/c_program_bsp/HAL/src/alt_log_printf.c:246-299 | the same in base 10 |
| NumberPrint.HexadecimalWritten | DE0_NANO/software/c_program_bsp/HAL/src/alt_log_printf.c:246-299 | the same in base 16, with letters of either case |
| NumberPrint.WrittenSays | DE0_NANO/software/c_program_bsp/HAL/src/alt_log_printf.c:281-296 | what is written in a base says the value in that base |
| NumberPrint.DigitCountExact | DE0_NANO/software/c_program_bsp/HAL/src/alt_log_printf.c:246-254 | the digit count is the least that holds the value |
| NumberPrint.PrintHex | DE0_NANO/software/c_program_bsp/HAL/src/alt_printf.c:84-113 | shifting nibbles prints the same characters as the plain %x of the division-based printer |
| NumberPrint.NibbleIsDigit | DE0_NANO/software/c_program_bsp/HAL/src/alt_printf.c:104-111 | each nibble is the next digit |
| LogPrintf.LogPrintf | DE0_NANO/software/c_program_bsp/HAL/src/alt_log_printf.c:114-341 | the character-by-character state machine prints what the directives mean, which IntegersPrint, CharactersPrint, OthersPrint and OptionsIgnored give letter by letter |
| LogPrintf.SmallPrintf | DE0_NANO/software/c_program_bsp/HAL/src/alt_printf.c:51-132 | the loop of alt_printf prints what its directives mean |
| LogPrintf.PrintfsAgree | DE0_NANO/software/c_program_bsp/HAL/src/alt_printf.c:58-128 | on every format whose directives both know, the two implementations print the same text |
| LogPrintf.WidthIsObeyed | DE0_NANO/software/c_program_bsp/HAL/src/alt_log_printf.c:163-193 | a decimal width in the format is the width of the field, zero flag or not, and the rest of the format follows |
| LogPrintf.IntegersPrint | DE0_NANO/software/c_program_bsp/HAL/src/alt_log_printf.c:202-317 | %d and %i print the signed word in decimal, %u the unsigned one, %o octal, %x and %X hexadecimal in either case; padded on the left to a width by blanks, or by zeros after the sign; one argument each |
| LogPrintf.CharactersPrint | DE0_NANO/software/c_program_bsp/HAL/src/alt_log_printf.c:319-334 | %c prints the low byte as a character, %s the string, after blanks up to a width; one argument each |
| LogPrintf.OthersPrint | DE0_NANO/software/c_program_bsp/HAL/src/alt_log_printf.c:132-168 | plain text is copied, %% prints a percent sign, unknown letters print nothing and take no argument |
| LogPrintf.OptionsIgnored | DE0_NANO/software/c_program_bsp/HAL/src/alt_log_printf.c:172-199 | digits after a point and the letter l change nothing |
| LogPrintf.Example | DE0_NANO/software/c_program_bsp/HAL/src/alt_log_printf.c:114-341 | a text in full: with the arguments -8, 8 and 171, %d%o%X prints -810AB |
| LogPrintf.PrintField | DE0_NANO/software/c_program_bsp/HAL/src/alt_log_printf.c:195-334 | the letter of a directive |
| WallClock.ReadAfterSet | DE0_NANO/software/c_program_bsp/HAL/src/alt_gettod.c:89-112 | read k ticks after it was set to a normalised non-negative time, the clock shows exactly k ticks more, normalised, without the clamp, while neither set product, counter nor seconds overflow |
| WallClock.ReadLater | DE0_NANO/software/c_program_bsp/HAL/src/alt_gettod.c:89-112 | read k ticks after it was set to any normalised time, while neither tick counter nor seconds overflow, the clock shows exactly k ticks more if and only if the lost carries are whole seconds, or, where the clamp is taken, the right time is zero |
| WallClock.ReadBack | DE0_NANO/software/c_program_bsp/HAL/src/alt_settod.c:80-84 | read at once, the clock shows the normalised time it was set to if and only if the carries lost by the 32-bit product are whole seconds, or it was set to zero and the clamp hides a negative error |
| WallClock.ReadBackFails | DE0_NANO/software/c_program_bsp/HAL/src/alt_settod.c:83-84 | a concrete failure: set to 100 s, read 100.967296 s |
| WallClock.WholeSeconds | DE0_NANO/software/c_program_bsp/HAL/src/alt_settod.c:83-84 | a multiple of 2^32 microseconds is whole seconds exactly if the factor is a multiple of 15625 |
| WallClock.TicksSplit | DE0_NANO/software/c_program_bsp/HAL/src/alt_gettod.c:91-93 | seconds by division and microseconds below a second add up to the ticks |
| WallClock.Normalise | DE0_NANO/software/c_program_bsp/HAL/src/alt_gettod.c:95-112 | the borrow and carry loops give the quotient and remainder by a second, or zero if clamped |
| WallClock.Clock.Set | DE0_NANO/software/c_program_bsp/HAL/src/alt_settod.c:72-96 | what is stored, and the error without a clock |
| WallClock.Clock.Get | DE0_NANO/software/c_program_bsp/HAL/src/alt_gettod.c:70-124 | what is returned, and the error without a clock |
| HallFilter.OutputIsLatest | code/edge_detect/edge_detection.v:35-57 | the output is the value of the latest constant n-sample window that was in the register, reset counting as zeros; both directions |
| HallFilter.ChangesApart | code/edge_detect/edge_detection.v:39-57 | two changes of the output are at least n clocks apart |
| HallFilter.ShortPulsesFiltered | code/edge_detect/edge_detection.v:39-46 | fewer than n samples, high or low, at any time, between two samples equal to the output never show: the output keeps its value while any of them is in the register |
| HallFilter.OutputHolds | code/edge_detect/edge_detection.v:39-57 | from any moment the output keeps its value until a window of n opposite samples was in the register |
| HallFilter.RegisterIsWindow | code/edge_detect/edge_detection.v:78-88 | the shift register is the last n samples |
| HallFilter.EdgeDetection.Clock | code/edge_detect/edge_detection.v:49-54 | one clock edge on both registers |
| HallFilter.EdgeDetection.Shift | code/edge_detect/edge_detection.v:84-86 | the loop shifts by one and takes the new sample in |
| HallFilter.EdgeDetection.AllBits | code/edge_detect/edge_detection.v:35-36 | the reduction operators |
| Pid.IncrementalIsPositional | code/PID/PID.v:15-28 | after every error sequence the incremental output is the positional form modulo 2^n, for all gains |
| Pid.Increment | code/PID/PID.v:15 | the change of the positional form is the increment |
| Pid.Controller.Clock | code/PID/PID.v:17-29 | one clock edge |
| Commutation.LatestLegal | code/pattern_generator/fw_rv_commutation.v:43-98 | the state is that of the latest legal hall sample, or A |
| Commutation.Bridge | code/pattern_generator/fw_rv_commutation.v:101-112 | exactly one high and one low switch, never of the same leg; the opposite direction swaps them; PatternPwm.TwelveRows says which |
| Commutation.Fsm.NextState | code/pattern_generator/fw_rv_commutation.v:43-88 | in each of the six states the chain of comparisons yields the state the hall code stands for, and keeps the state for the codes that stand for none |
| Commutation.Fsm.Clock | code/pattern_generator/fw_rv_commutation.v:92-98 | after an edge the state is that of the hall code, the old one for a code that stands for none, or A on reset |
| Pwm.DutyExact | code/pattern_generator/pwm_generator.v:12-16 | over any full period from any counter value the output is high for exactly the duty |
| Pwm.BeforeWrap | code/pattern_generator/pwm_generator.v:12-15 | until the counter wraps the output is high while the counter is below the duty |
| Pwm.PwmGenerator.Clock | code/pattern_generator/pwm_generator.v:12-38 | one clock edge of comparison and counter |
| Pwm.PwmGenerator.Reset | code/pattern_generator/pwm_generator.v:32-38 | the asynchronous reset clears only the counter |
| PatternPwm.PeriodExact | code/pattern_generator/pattern_PWM.V:63-99 | over any 2^n clocks whose hall codes do not move the state the selected high side is on for exactly the duty and the others never |
| PatternPwm.NoShootThrough | code/pattern_generator/pattern_PWM.V:63-104 | in every state of the drive no leg has both switches on, one low side is on, at most one high side |
| PatternPwm.DrivesLatest | code/pattern_generator/pattern_PWM.V:63-104 | after any clocks from reset the switches that can be on are those of the state the latest legal hall code stands for |
| PatternPwm.TwelveRows | code/pattern_generator/fw_rv_commutation.v:43-112 | from hall code and direction to the wires, all twelve rows: after any clocks whose last possible code it is, which low switch is on and which high side follows the PWM, on for exactly the duty over a period |
| PatternPwm.ResetRow | code/pattern_generator/fw_rv_commutation.v:92-112 | from reset, until the first possible code, the wires are those of code 101 |
| Words.Pow2Adds | code/pattern_generator/pwm_generator.v:27-38 | the number of values of a register: every bit doubles it |
| PatternPwm.RunState | code/pattern_generator/pattern_PWM.V:63-78 | in the drive the state follows the hall samples alone |

## Left out

- UartDriver.JtagUart.Read: an execution that keeps spinning is cut off after a number of laps given by the caller (`StillWaiting`), because the source's spin loops have no bound of their own; TakeEndsSpin says exactly what ends them.
- UartDriver.JtagUart.Write: cut off in the same way; the caller's data is a value, so a negative byte count is the empty one; between the last test of host_inactive and the return nothing is interleaved, since no shared memory is touched there.
- UartDriver.JtagUart.Close: cut off in the same way.
- UartDriver.JtagUart.ReadControl: RI, WI and the room only; dummy reads of the control register and the writing back of the activity bit are not steps of their own.
- AlarmScheduler.Scheduler.Tick: callbacks that stop other alarms, or ask for deadlines with no 32-bit form, are excluded, since the source is not right for them; the callback and context fields of an alarm and the operating system's tick hook are not represented.
- FdPool.Pool.Open: the driver's open callback may set the private field and the status only; it does not change flags or other entries.
- NumberPrint.PrintHex: `(v & (0xF << shift)) >> shift` is stated as division and remainder by powers of 16.
- LogPrintf.LogPrintf: arguments are 32-bit words, each with the string it would point to; formats contain no NUL; a width too large for an int is not wrapped; the `l` modifier has no effect as int and long agree.
- WallClock.Clock.Get: the carry into a seconds field that is already at its maximum, which is undefined in the source, is excluded.
- The uC/OS-II branches (event flags, semaphores), which are empty macros in this build.
- The small polled UART driver and the option that drops bytes on a full FIFO.
- Register access, interrupt registration, boot code, cache maintenance, system call stubs and the Eclipse, Qsys and PCB files.
- The speed measurement chain, the LCD, PLL and ADC blocks, the clock dividers, and the commutation variants the top level does not instantiate.
- Name lookup in the device and file system lists: what it finds is a parameter.
