# The Nios II HAL, modelled and proved

A Dafny model of the parts of the Nios II hardware abstraction layer under
`interrupts_example/software/bsp` that hold state, and proofs about them. `dafny verify
dfyconfig.toml` checks everything.

| files | subject |
|---|---|
| `UartRing`, `UartSystem`, `UartInvariant`, `UartTheorems`, `UartTimeouts`, `UartDriver` | the interrupt-driven JTAG UART driver: two rings shared by foreground calls and an interrupt routine, and the protocol of the enable bits |
| `AlarmTime`, `AlarmModel`, `AlarmList`, `AlarmClock`, `AlarmWalk`, `AlarmLinks`, `AlarmRings` | alarms: 32-bit deadlines, the intrusive list, and a tick that walks it while callbacks change it |
| `Errno`, `Lists` | error numbers; lists without duplicates |
| `Arithmetic`, `Numerals`, `LogFormat`, `LogSyntax`, `LogPrintf`, `AltPrintf` | words and numerals, and the two printf's |
| `TimeOfDay` | setting and getting the time of day |
| `FdModel`, `FdTheorems`, `FdFlags`, `FdPool` | the file-descriptor pool and its exclusive locks |
| `IrqNesting`, `IrqSections`, `IrqDispatch` | nested interrupts, interruptible sections, and the dispatcher |
| `Heap`, `Profiler` | `sbrk` and the profiler's slabs |
| `CacheFlush` | flushing ranges from the caches |

Code that updates objects is written as classes and loops, each method proved against a function
or a step of a model; what the code is for is then proved of the model, over all inputs and runs.

**The UART.** `UartSystem` is a transition system. Its steps are single accesses to shared state:
sampling the indices, copying one byte, publishing an index, masking interrupts, raising an enable
bit, writing CONTROL, one pass of each interrupt loop, the timeout callback, ioctl, and the host at
the other end. `UartTheorems` speaks of every state that any run can reach. `UartDriver` is the
driver as code; its ghost variable `run` records the step that each access amounts to, so a valid
driver is in a reachable state. The buffer length is symbolic, at least 2. Assumed of the hardware:
RI is shown only while RE is set and the receive FIFO is not empty; WI only while WE is set and
WSPACE is positive; a read of DATA with RVALID 0 also has RAVAIL 0. Assumed of the processor:
interrupt code runs to its end before the foreground goes on, and not while interrupts are masked.
A device that also shows RI and WI whenever there is cause is called `exact`; only what holds when
the interrupt routine returns depends on it.
At most one `write` and one `read` are in progress. The step model lets them overlap; the class
runs one at a time.

**Alarms.** `AlarmModel` has all registered alarms as a value, and the same with unbounded
deadlines; the methods of `AlarmClock.Clock` do on the heap what its events do. `Tick` takes what
each callback would answer, whether it stops its own alarm and which unregistered alarms it starts.
`AlarmWalk` treats callbacks that stop other alarms too, on lists as values, and `AlarmLinks` those
that start registered ones, on the links, where such a list is none any more. `AlarmRings` has
callbacks that stop any alarms and start any unregistered ones, on the links.

**Formats.** Strings are given without their terminating null. Widths that the format spells out
must fit an int, and the arguments must go with the format, as the C code takes for granted.

**Descriptors.** What a name stands for and what a driver's open, close and ioctl return are
parameters. Descriptors passed in are assumed inside the pool, and open where the driver is
dereferenced.

**Interrupts.** `IrqNesting` is the machine of registers, lines and nested handlers. The methods of
`IrqDispatch.Cpu` record in `run` the events they amount to. A handler is assumed to call the
opening and closing functions as their documentation asks.

**Registers.** 32-bit registers of interrupt lines are given by the set of their one bits; lemmas on
bit vectors show that masks and shifts are these set operations. Error numbers that the repository
takes from the C library have newlib's values.

## Where the code differs from its documentation

- `alt_fd_lock` stops short of the slot at `alt_max_fd` (`alt_fd_lock.c:61`), so a lock can be
  granted on a device that is open there too: `LockExactly`, `SharedLockGranted`. Still no two
  descriptors ever hold one lock: `OneHolder`.
- `close` on a standard stream does not release its lock (`alt_release_fd.c:46`): `CloseDropsLock`,
  `ClosedStreamLocksOut`.
- `fcntl` sets flags of free slots too (`alt_fcntl.c:78-92`), which a later failing `open` clears:
  `FailedOpen`, `FailedOpenLosesFlags`.
- `settimeofday` multiplies in 32 bits, so an immediate `gettimeofday` need not return what was set
  (`alt_settod.c:83-84`): `SetThenGet` has the exact condition, `WrappedSetIsLost` an instance.
- `gettimeofday` computes seconds and microseconds apart; at tick rates below a million that do not
  divide it the time steps back at times, and at one tick a second it turns negative after 2^31
  ticks (`alt_gettod.c:91-93`): `ForwardsExactly`, `SecondsRunOut`.
- `alt_alarm_start` with the longest delay fires on the next tick, and the alarm then runs one tick
  ahead (`alt_alarm_start.c:82-96`): `FirstCallExact`, `PeriodicExactly`.
- An alarm that is started while it is registered makes the list endless (`alt_llist.h:93-97`), as
  long as callbacks stop at most their own alarms: `AlarmClock.Clock.Start`, `RestartTraps`; a stop
  of another alarm can mend it: `StoppingOpensTheTrap`. A callback may start a registered alarm
  without harm to the walk that is under way exactly if the walk is past that alarm:
  `RingWalkExactly`, `StartingTheNextHangs`.
- A callback that stops the alarm saved as `next` makes `alt_tick` loop for ever
  (`alt_tick.c:102`): `WalkEndsExactly`, `FairWalkExactly`.
- `alt_irq_enable` and `alt_irq_disable` write IENABLE without the priority mask
  (`alt_legacy_irq.h:75-76`, `93-94`). In an interruptible section they undo the mask: the line of
  the section itself gets through, and so does any other active one. `EnableExactly`,
  `DisableExactly` and `EnableLetsIn` have the conditions, `EnableHonoursMask` and
  `DisableHonoursMask` what they come to for the first such call, `ReenteredByOwnLine` and
  `LowerPriorityLetIn` runs.
- `alt_iic_isr_register` compares a signed number (`alt_iic_isr_register.c:79-82`), so it refuses the
  numbers from 32 to 2^31 - 1 only: `Cpu.Register`.
- `alt_irq_handler` is entered with something pending, or does not return
  (`alt_irq_handler.c:141-155`): `InnerLoopEndsExactly`.
- The cache flushes compute addresses in 32 bits (`alt_dcache_flush.c:78-83`): a range that reaches
  the top of the address space is not flushed, and the loop never ends for one that stops short of
  the top by less than a line and beyond the last address that the loop visits: `FlushRange`,
  `AllFlushedExactly`, `LastLineIsLost`.
- `mcount_allocate` does not look at a failing `sbrk` (`alt_gmon.c:139`): `AllocateExactly`,
  `RunsStayInPlaceExactly`, `RefusedSlab`.

## Model

| member | source | states |
|---|---|---|
| `UartTheorems.TransmitLossless` | interrupts_example/software/bsp/drivers/src/altera_avalon_jtag_uart_write.c:100-127 | In every reachable state of every interleaving, the bytes accepted so far are the bytes written to DATA followed by the ring contents from tx_out to tx_in, the ring holds at most len - 1 bytes, and the data of the call in progress is what it has put in plus what it still has to put in |
| `UartTheorems.ReceiveLossless` | interrupts_example/software/bsp/drivers/src/altera_avalon_jtag_uart_read.c:115-142 | In every reachable state, the valid bytes taken from DATA are the bytes returned by all finished calls, then those the current call has, then the ring contents; a copy in progress has a prefix of the ring contents |
| `UartTheorems.ReceiveNeverClobbers` | interrupts_example/software/bsp/drivers/src/altera_avalon_jtag_uart_init.c:132-154 | The interrupt routine pops DATA only when the ring holds fewer than len - 1 bytes, and the slot it fills is none that a read in progress is copying from |
| `UartTheorems.CopyNeverClobbers` | interrupts_example/software/bsp/drivers/src/altera_avalon_jtag_uart_write.c:105-126 | Every byte that write() copies lands inside the buffer and in a slot that holds no unsent byte |
| `UartTheorems.SendNeverDrops` | interrupts_example/software/bsp/drivers/src/altera_avalon_jtag_uart_init.c:169-184 | Every byte the routine writes to DATA finds room there and is the next unsent byte in order; one pass writes at most the WSPACE it read |
| `UartTheorems.NothingStranded` | interrupts_example/software/bsp/drivers/src/altera_avalon_jtag_uart_init.c:156-194 | Outside critical sections the device has the enable bits of irq_enable; RE is off only while the receive ring is full or a read that made room has yet to turn it on, WE only while the transmit ring is empty or a write that filled it has yet to turn it on |
| `UartTheorems.WaitersAreServed` | interrupts_example/software/bsp/drivers/src/altera_avalon_jtag_uart_write.c:178-184 | While write() waits in vain the transmit interrupt is on and the ring full; while read() waits in vain the receive interrupt is on and the ring empty |
| `UartTheorems.WaitTestsExact` | interrupts_example/software/bsp/drivers/src/altera_avalon_jtag_uart_read.c:168-178 | The unlocked wait tests have no ABA case: the index equals its sample exactly if nothing has arrived (been sent) since it was sampled |
| `UartTheorems.IsrPassesBounded` | interrupts_example/software/bsp/drivers/src/altera_avalon_jtag_uart_init.c:117-196 | At the top of the interrupt loop the passes handled plus the potential (receive room, unsent bytes, enabled sources) never exceed 2 * (len - 1) + 2, whatever the host sends |
| `UartTheorems.IsrPassLowersPotential` | interrupts_example/software/bsp/drivers/src/altera_avalon_jtag_uart_init.c:117-196 | Every pass that finds something to do ends with the potential lower than it began |
| `UartTheorems.LongWaitsNeverExpire` | interrupts_example/software/bsp/drivers/src/altera_avalon_jtag_uart_init.c:215-222 | host_inactive never reaches a timeout of INT_MAX - 1 or INT_MAX, so these waits never end by timeout; they are what TIOCSTIMEOUT sets for anything outside 2 .. INT_MAX - 1 |
| `UartTheorems.HistoriesGrow` | interrupts_example/software/bsp/drivers/src/altera_avalon_jtag_uart_init.c:144-183 | Along every run the histories of accepted, sent, taken, delivered and returned bytes only get longer |
| `UartTimeouts.InactiveExactly` | interrupts_example/software/bsp/drivers/src/altera_avalon_jtag_uart_init.c:203-225 | After every run host_inactive is the number of calls of the timeout callback since the last one that found AC set, or since the start, except that it stops at INT_MAX - 2 |
| `UartTimeouts.HostGoneExactly` | interrupts_example/software/bsp/drivers/src/altera_avalon_jtag_uart_init.c:203-225 | After every run the driver takes the host for gone if and only if the last calls of the callback, as many as the timeout says, all found AC clear, and the timeout is at most INT_MAX - 2 |
| `UartTimeouts.AlwaysSeenNeverGone` | interrupts_example/software/bsp/drivers/src/altera_avalon_jtag_uart_init.c:208-213 | If every call of the callback found AC set, the count is 0 and the host is not taken for gone |
| `UartTimeouts.AcExactly` | interrupts_example/software/bsp/drivers/src/altera_avalon_jtag_uart_init.c:208-213 | After every run AC is set if and only if the host has shown itself since the last call of the callback, which acknowledges it (or AC was set at the start and there was no call) |
| `UartTheorems.ReachableStep` | interrupts_example/software/bsp/drivers/src/altera_avalon_jtag_uart_init.c:106-197 | Every enabled step of a reachable state leads to a reachable state, so the theorems hold of all interleavings |
| `UartInvariant.InitInv` | interrupts_example/software/bsp/drivers/src/altera_avalon_jtag_uart_init.c:66-100 | The state after initialisation satisfies the invariant, for every len of at least 2 and either start value of the timeout |
| `UartInvariant.StepInv` | interrupts_example/software/bsp/drivers/src/altera_avalon_jtag_uart_init.c:106-197 | Each of the foreground, interrupt, timeout, ioctl and host steps keeps the invariant |
| `UartInvariant.RunInv` | interrupts_example/software/bsp/drivers/src/altera_avalon_jtag_uart_init.c:106-197 | Every state of every run satisfies the invariant |
| `UartInvariant.RxFullExact` | interrupts_example/software/bsp/drivers/src/altera_avalon_jtag_uart_init.c:137-139 | The test (rx_in + 1) % len == rx_out holds exactly if the ring holds len - 1 bytes |
| `UartInvariant.TxEmptyExact` | interrupts_example/software/bsp/drivers/src/altera_avalon_jtag_uart_init.c:174 | The test tx_out == tx_in holds exactly if nothing is unsent |
| `UartRing.SlotInjective` | interrupts_example/software/bsp/drivers/src/altera_avalon_jtag_uart_write.c:183-187 | Running numbers less than a lap apart share a slot only if they are equal |
| `UartRing.WriteRunExact` | interrupts_example/software/bsp/drivers/src/altera_avalon_jtag_uart_write.c:109-117 | The three-way computation of write() is the smaller of the free slots and the slots before the end of the buffer, zero exactly if the ring is full |
| `UartRing.ReadRunExact` | interrupts_example/software/bsp/drivers/src/altera_avalon_jtag_uart_read.c:125-131 | The two-way computation of read() is the smaller of the bytes present and the slots before the end of the buffer, zero exactly if the ring is empty |
| `UartRing.ContentsIsTail` | interrupts_example/software/bsp/drivers/src/altera_avalon_jtag_uart_read.c:125-140 | A buffer that agrees slot by slot with a history holds, between its indices, exactly the tail of that history |
| `UartDriver.JtagUart.constructor` | interrupts_example/software/bsp/drivers/src/altera_avalon_jtag_uart_init.c:66-100 | Initialisation leaves the initial state of the step system, whatever the device has already received: rings empty, RE on, WE off, the timeout INT_MAX exactly if the alarm could not be started, and the default otherwise |
| `UartDriver.JtagUart.Irq` | interrupts_example/software/bsp/drivers/src/altera_avalon_jtag_uart_init.c:106-197 | The interrupt routine, with the host active before each register access, begins with the entering step, ends after at most 2 * len passes, and its last step reads a CONTROL that shows neither RI nor WI; if the device shows these whenever there is cause, then on return the FIFO is empty or RE off, and WSPACE 0 or WE off |
| `UartDriver.JtagUart.QuietMeansDone` | interrupts_example/software/bsp/drivers/src/altera_avalon_jtag_uart_init.c:106-197 | In that case everything that could be moved has been, unless a call that has just moved bytes is about to turn the interrupt on again: nothing is left to receive or the receive ring is full, and the device has no room or everything accepted has been sent; a call in its wait loop goes on waiting only if the device has nothing for it either |
| `UartDriver.JtagUart.ReceiveByte` | interrupts_example/software/bsp/drivers/src/altera_avalon_jtag_uart_init.c:137-150 | One receive pass is exactly the receive step of the system: a valid byte leaves the FIFO for slot rx_in and rx_in moves on, an invalid one ends the loop |
| `UartDriver.JtagUart.SendByte` | interrupts_example/software/bsp/drivers/src/altera_avalon_jtag_uart_init.c:176-183 | One transmit pass is exactly the transmit step: the byte at tx_out goes to DATA and tx_out moves on |
| `UartDriver.JtagUart.Timeout` | interrupts_example/software/bsp/drivers/src/altera_avalon_jtag_uart_init.c:203-225 | The callback is exactly one timeout step: AC seen clears it and host_inactive, otherwise host_inactive grows up to INT_MAX - 2; it asks to be called again after one second of ticks |
| `UartDriver.JtagUart.Write` | interrupts_example/software/bsp/drivers/src/altera_avalon_jtag_uart_write.c:83-215 | A positive result is the number of bytes accepted, and they are the first bytes of the data; a negative one, EWOULDBLOCK or EIO, means none was; a short result means the ring was found full, and from a blocking call also that the host was found gone; a call that still waits after so many rounds has looked in each of them, and found that nothing had been sent since its sample, and the host present |
| `UartDriver.JtagUart.RoundForRoom` | interrupts_example/software/bsp/drivers/src/altera_avalon_jtag_uart_write.c:178-184 | One round of the wait ends it whenever something has been sent since the sample, and never but for that or because the host is gone |
| `UartDriver.JtagUart.Read` | interrupts_example/software/bsp/drivers/src/altera_avalon_jtag_uart_read.c:100-203 | A positive result is the number of bytes moved to the front of the buffer, next in line of everything received, with RE on again; a negative one means none; a short result means the ring was found empty, and a blocking call without bytes also that the host was found gone; a call that still waits after so many rounds has looked in each of them, and found that nothing had arrived since its sample, and the host present |
| `UartDriver.JtagUart.RoundForData` | interrupts_example/software/bsp/drivers/src/altera_avalon_jtag_uart_read.c:168-178 | The same for data that has arrived |
| `UartDriver.JtagUart.Close` | interrupts_example/software/bsp/drivers/src/altera_avalon_jtag_uart_init.c:241-254 | A close that returns 0 has seen everything sent or the host gone; EWOULDBLOCK comes only from a non-blocking one with bytes left; one that still waits has found bytes left and the host present in each round; one that finds nothing left returns 0 |
| `UartDriver.JtagUart.SetTimeout` | interrupts_example/software/bsp/drivers/src/altera_avalon_jtag_uart_ioctl.c:60-68 | The timeout becomes as asked for 2 .. INT_MAX - 1 and INT_MAX - 1 for anything else, and is final once INT_MAX |
| `UartDriver.JtagUart.GetConnected` | interrupts_example/software/bsp/drivers/src/altera_avalon_jtag_uart_ioctl.c:70-77 | Reports 1 exactly if the host is not considered gone, or ENOTTY without a timeout |
| `AlarmTime.CallsRefineIdeal` | interrupts_example/software/bsp/HAL/src/alt_tick.c:96-141 | The 32-bit alarm with its rollover flag calls back in exactly the ticks in which an alarm with unbounded time does, for every counter value, every sequence of periods and any number of wraps |
| `AlarmTime.FirstCallExact` | interrupts_example/software/bsp/HAL/src/alt_alarm_start.c:82-96 | The first callback runs in exactly the (nticks + 1)-th tick if and only if nticks < 2^32 - 1 or the counter is at 2^32 - 1; otherwise in the very next tick |
| `AlarmTime.CallsPeriodic` | interrupts_example/software/bsp/HAL/src/alt_tick.c:117-137 | After a call that returned p >= 1 the next one comes exactly p ticks later, after a call that returned 0 none comes |
| `AlarmTime.PeriodicExactly` | interrupts_example/software/bsp/HAL/src/alt_alarm_start.c:82-96 | From alt_alarm_start() on this holds for all returned periods if and only if nticks < 2^32 - 1 or the counter is at 2^32 - 1 |
| `AlarmTime.LagsAfterLongestDelay` | interrupts_example/software/bsp/HAL/src/alt_tick.c:127-137 | After the longest delay, started anywhere else, a callback that asks for two ticks is called again after one |
| `AlarmModel.RunsRefineIdeal` | interrupts_example/software/bsp/HAL/src/alt_tick.c:96-141 | Over every run of starting unregistered alarms with delays below the longest (or with the counter about to wrap), stopping and ticking any number of them, and any number of counter wraps, each tick calls exactly the alarms whose unbounded deadlines have come, in list order |
| `AlarmModel.FreshRunsRefineIdeal` | interrupts_example/software/bsp/HAL/src/alt_tick.c:96-141 | The same, under the same conditions, from an empty list, whatever the counter |
| `AlarmModel.TickRefines` | interrupts_example/software/bsp/HAL/src/alt_tick.c:96-141 | One tick calls the same alarms, keeps the same ones and leaves the same times to go as with unbounded deadlines |
| `AlarmModel.StartsInFront` | interrupts_example/software/bsp/HAL/src/alt_alarm_start.c:82-98 | Starting unregistered alarms one after the other puts them in front of the list, the last one first, each with its own deadline |
| `AlarmTime.TickRepresents` | interrupts_example/software/bsp/HAL/src/alt_tick.c:96-141 | One tick is due exactly if the countdown is at its end, and keeps the meaning of time and flag |
| `AlarmTime.RolloverMeansNextLap` | interrupts_example/software/bsp/HAL/src/alt_alarm_start.c:84-96 | Between ticks, with less than a lap to go, the flag is set exactly if the deadline lies beyond the next wrap of the counter, and the deadline is never the present |
| `AlarmTime.StartRepresents` | interrupts_example/software/bsp/HAL/src/alt_alarm_start.c:78-98 | alt_alarm_start() with nticks < 2^32 - 1, or with the counter about to wrap, sets a deadline nticks + 1 ticks away |
| `AlarmList.Insert` | interrupts_example/software/bsp/HAL/inc/sys/alt_llist.h:90-98 | The heap is again a well-formed circular doubly linked list, with the entry first and the rest in order; no timer changes; an entry that is in the list already leaves the head leading into a ring without the head |
| `AlarmList.TrappedNeverBack` | interrupts_example/software/bsp/HAL/inc/sys/alt_llist.h:90-98 | A walk along such a ring never comes back to the head |
| `AlarmList.Remove` | interrupts_example/software/bsp/HAL/inc/sys/alt_llist.h:105-117 | The list loses exactly the entry, which is linked to itself; removing a removed entry again changes nothing |
| `AlarmClock.Clock.SysclkInit` | interrupts_example/software/bsp/HAL/inc/sys/alt_alarm.h:93-104 | The rate is set by the first call and by no later one, unless it was 0; later ones return -1 |
| `AlarmClock.Clock.Start` | interrupts_example/software/bsp/HAL/src/alt_alarm_start.c:64-112 | Fails with ENOTSUP without a clock and EINVAL without an alarm, changing nothing; otherwise it is the start event of the model: the alarm is first in the list with its deadline set and no other changes; starting one that is registered already leaves links that lead from the head into a ring without it, where a walk never ends as long as callbacks stop at most their own alarms |
| `AlarmClock.Clock.Stop` | interrupts_example/software/bsp/HAL/src/alt_tick.c:66-73 | It is the stop event of the model: the alarm leaves the list; one stopped already changes nothing |
| `AlarmClock.Clock.Visit` | interrupts_example/software/bsp/HAL/src/alt_tick.c:100-141 | An alarm is called exactly if it is due; what its callback starts goes to the front; it leaves the list if it asks to, and otherwise has its next deadline |
| `AlarmClock.Clock.Tick` | interrupts_example/software/bsp/HAL/src/alt_tick.c:87-148 | It is the tick event of the model, on the heap, followed by the start events of what the called callbacks start: every alarm registered at the start is visited once, in order; the called ones are exactly the due ones; the list afterwards is what they have started, the last one first, and then exactly the alarms that stay, in order, and is well formed |
| `AlarmWalk.WalkEndsExactly` | interrupts_example/software/bsp/HAL/src/alt_tick.c:100-141 | With callbacks that stop any alarms and start unregistered ones, the walk ends if and only if no visit stops the alarm already saved as next; it then visits every alarm registered at its start, in order, except those stopped before their turn |
| `AlarmWalk.StoppingTheNextHangs` | interrupts_example/software/bsp/HAL/src/alt_tick.c:102 | Two alarms of which the first stops the second: the walk never ends |
| `AlarmWalk.OwnStopsAreSafe` | interrupts_example/software/bsp/HAL/src/alt_tick.c:119-124 | With callbacks that stop only their own alarms and start none that is registered, or that another callback starts too, the walk ends, and visits every alarm registered at its start exactly once, in order |
| `AlarmWalk.StuckForever` | interrupts_example/software/bsp/HAL/inc/sys/alt_llist.h:115-116 | A walk that has come to a stopped alarm whose own callback does not start it again never leaves it |
| `AlarmLinks.RingWalkExactly` | interrupts_example/software/bsp/HAL/src/alt_tick.c:100-141 | On the links themselves, with callbacks that start any alarms, registered ones included, and stop at most their own, in any order: the walk ends if and only if no alarm of the list starts one that stands behind it there; it then visits each alarm exactly once, in order |
| `AlarmLinks.StartingTheNextHangs` | interrupts_example/software/bsp/HAL/inc/sys/alt_llist.h:93-97 | Two alarms of which the first starts the second, which is registered: the walk never ends |
| `AlarmLinks.NeverReturns` | interrupts_example/software/bsp/HAL/src/alt_tick.c:100-141 | A walk among alarms that lead only to each other, with the head leading to them too, never ends, whatever the callbacks start, as long as they stop at most their own alarms |
| `AlarmLinks.RestartTraps` | interrupts_example/software/bsp/HAL/inc/sys/alt_llist.h:93-97 | After any alarm of a list has been started again, the next walk never ends, whatever the callbacks start, as long as they stop at most their own alarms |
| `AlarmLinks.StoppingOpensTheTrap` | interrupts_example/software/bsp/HAL/inc/sys/alt_llist.h:110-116 | Three alarms, the second of them started again: when its callback stops the third, the walk ends after visiting the second, the first and the second |
| `AlarmRings.FairWalkExactly` | interrupts_example/software/bsp/HAL/src/alt_tick.c:100-141 | On the links, with callbacks that stop any alarms and start any that are not registered at that moment, in any order (an alarm stopped while it comes next is not started again by the one that stops it or by its own callback): the walk ends if and only if no visit stops the alarm that comes next; it then visits the rest in order, and the links are again those of a list |
| `AlarmRings.DoneIsRing` | interrupts_example/software/bsp/HAL/inc/sys/alt_llist.h:90-117 | Insertions of unregistered alarms and removals of any, in any order and number, leave the links of the list that results |
| `AlarmRings.AloneForever` | interrupts_example/software/bsp/HAL/inc/sys/alt_llist.h:115-116 | A walk that has come to a stopped alarm never leaves it, whatever its callback starts and stops, unless it starts that alarm itself |
| `AlarmLinks.InsertedIsRing` | interrupts_example/software/bsp/HAL/inc/sys/alt_llist.h:90-98 | The four assignments of the insertion turn the ring of a list into the ring of the list with the alarm in front |
| `AlarmLinks.RemovedIsRing` | interrupts_example/software/bsp/HAL/inc/sys/alt_llist.h:105-117 | Those of the removal turn it into the ring of the list without the alarm, which is linked to itself |
| `LogPrintf.Printer.Printf` | interrupts_example/software/bsp/HAL/src/alt_log_printf.c:114-341 | For every format and matching arguments the state machine prints what the recursive reading of the format says |
| `LogPrintf.Printer.Turn` | interrupts_example/software/bsp/HAL/src/alt_log_printf.c:130-339 | One turn of the main loop keeps what has been printed followed by what is to come |
| `LogPrintf.Printer.OtherChar` | interrupts_example/software/bsp/HAL/src/alt_log_printf.c:170-337 | The same for a character inside a directive, entered from either state |
| `LogPrintf.Printer.Letter` | interrupts_example/software/bsp/HAL/src/alt_log_printf.c:200-336 | Each conversion takes exactly one argument and prints its field; an unknown letter prints and takes nothing |
| `LogPrintf.Printer.IntegerPrint` | interrupts_example/software/bsp/HAL/src/alt_log_printf.c:206-297 | Padding, sign and digits come out as the field of the value |
| `LogPrintf.Printer.PutDigits` | interrupts_example/software/bsp/HAL/src/alt_log_printf.c:281-296 | The digit loop prints the numeral of the value in exactly the counted number of digits |
| `LogPrintf.CountDigits` | interrupts_example/software/bsp/HAL/src/alt_log_printf.c:247-255 | The count is the number of digits and the place value the largest power within the value; it stays within 32 bits |
| `LogPrintf.Printer.StringPrint` | interrupts_example/software/bsp/HAL/src/alt_log_printf.c:324-333 | A string comes out in a field of at least its own length, padded in front |
| `LogPrintf.Printer.RepChar` | interrupts_example/software/bsp/HAL/src/alt_log_printf.c:106-110 | Prints the character r times, not at all for r <= 0 |
| `LogPrintf.EmitOne` | interrupts_example/software/bsp/HAL/src/alt_log_printf.c:286-295 | One digit step: the digits emitted, weighted with their places, plus the rest still make the value |
| `LogFormat.FieldFillsWidth` | interrupts_example/software/bsp/HAL/src/alt_log_printf.c:257-279 | A directive prints exactly max(width, natural length) characters, with spaces before everything or zeros between sign and digits |
| `LogSyntax.FormatsMean` | interrupts_example/software/bsp/HAL/src/alt_log_printf.c:130-339 | For every sequence of pieces (plain characters, %%, and directives with or without flag, width, precision and l), the arguments go with the spelled format exactly if they go with the pieces, and the output is then what the pieces mean: each directive its argument in a field of the width that is written in it, an unknown letter nothing |
| `LogSyntax.DirectiveFillsWidth` | interrupts_example/software/bsp/HAL/src/alt_log_printf.c:174-197 | A directive with a width w of 1 .. INT_MAX, written in decimal, prints exactly max(w, natural length) characters |
| `LogSyntax.ScanWidth` | interrupts_example/software/bsp/HAL/src/alt_log_printf.c:179-189 | A number written in decimal is read as that number, for every number and whatever follows |
| `LogSyntax.CutShortPrintsNothing` | interrupts_example/software/bsp/HAL/src/alt_log_printf.c:127-130 | A format that breaks off in a directive prints nothing for it |
| `LogSyntax.ConversionsMean` | interrupts_example/software/bsp/HAL/src/alt_log_printf.c:204-321 | d and i print the signed number in decimal, u the word in decimal, o in octal, x and X in hex, for every word |
| `LogSyntax.ArgumentsFit` | interrupts_example/software/bsp/HAL/src/alt_log_printf.c:204-336 | Words go with the integer conversions, characters with c, strings with s, and nothing else |
| `LogSyntax.DigitsAre` | interrupts_example/software/bsp/HAL/src/alt_log_printf.c:287-292 | The sixteen digits in either case |
| `LogFormat.SignedValue` | interrupts_example/software/bsp/HAL/src/alt_log_printf.c:238-245 | A signed conversion prints the number that the 32 bits stand for, -2^31 included |
| `Numerals.NumeralUnique` | interrupts_example/software/bsp/HAL/src/alt_log_printf.c:281-296 | A number has only one list of digits without leading zero |
| `Numerals.Numeral` | interrupts_example/software/bsp/HAL/src/alt_log_printf.c:247-296 | Every number has a list of digits in range whose positional value it is, without leading zero unless it is zero |
| `AltPrintf.AltPrinter.Printf` | interrupts_example/software/bsp/HAL/src/alt_printf.c:58-126 | For every format and matching arguments the output is that of a recursive reading: unknown letters print nothing, a final percent sign ends it |
| `AltPrintf.AltPrinter.Hex` | interrupts_example/software/bsp/HAL/src/alt_printf.c:82-111 | The shift-based conversion prints the base-16 numeral of every 32-bit value, 0 included |
| `AltPrintf.AltPrinter.PutFrom` | interrupts_example/software/bsp/HAL/src/alt_printf.c:101-110 | From the highest digit that is not zero down, the digits are the numeral |
| `AltPrintf.HighestDigit` | interrupts_example/software/bsp/HAL/src/alt_printf.c:96-99 | The search ends within the word, at the highest digit that is not zero |
| `AltPrintf.MaskIsDigit` | interrupts_example/software/bsp/HAL/src/alt_printf.c:104 | On 32-bit words the mask selects the digit in its place, for all eight shifts |
| `AltPrintf.PrintfsAgree` | interrupts_example/software/bsp/HAL/src/alt_printf.c:82-111 | On formats with only %x, %c, %s and %%, both printers accept the same arguments and print the same characters |
| `AltPrintf.UnknownPrintsNothing` | interrupts_example/software/bsp/HAL/src/alt_printf.c:72-120 | A directive with an unknown letter prints nothing and takes no argument |
| `TimeOfDay.SetThenGet` | interrupts_example/software/bsp/HAL/src/alt_settod.c:80-84 | A get k ticks after a set reads exactly the set time plus k ticks, normalised and never clamped, if and only if the 32-bit product of the setter wrapped a multiple of 15625 times, such as not at all (time 0 read back on the same tick aside); at the same tick for every rate, later for rates dividing a million |
| `TimeOfDay.GetsAreMonotone` | interrupts_example/software/bsp/HAL/src/alt_gettod.c:91-94 | For rates dividing a million, two gets after an exact set differ by exactly the ticks between them |
| `TimeOfDay.WrappedSetIsLost` | interrupts_example/software/bsp/HAL/src/alt_settod.c:83-84 | At 100 ticks a second and 429497 ticks after reset, a get on the tick of the set is 967296 microseconds out |
| `TimeOfDay.ForwardsExactly` | interrupts_example/software/bsp/HAL/src/alt_gettod.c:91-94 | Of the times read without a set, none is earlier than the one read a tick before, as long as the tick counter does not wrap, if and only if the rate divides a million and is not 1, or exceeds a million |
| `TimeOfDay.UptimeIsRead` | interrupts_example/software/bsp/HAL/src/alt_gettod.c:91-94 | Without a set, a get reads the uptime exactly as long as the seconds are below 2^31, afterwards a negative time |
| `TimeOfDay.SecondsRunOut` | interrupts_example/software/bsp/HAL/src/alt_gettod.c:91 | At one tick a second the read time turns negative at tick 2^31 |
| `TimeOfDay.CarryKeepsInstant` | interrupts_example/software/bsp/HAL/src/alt_gettod.c:95-112 | The two loops keep the instant and put the microseconds in range, except that an instant before zero becomes zero |
| `TimeOfDay.CarryExactly` | interrupts_example/software/bsp/HAL/src/alt_gettod.c:95-112 | For all seconds and microseconds of 32 bits: borrowing keeps the instant, or leaves zero if it lies before zero; carrying keeps it exactly if the seconds then fit |
| `TimeOfDay.Carry` | interrupts_example/software/bsp/HAL/src/alt_gettod.c:95-112 | The loops leave the carried time |
| `TimeOfDay.WallClock.SetTimeOfDay` | interrupts_example/software/bsp/HAL/src/alt_settod.c:72-96 | Sets offset and zone, or without a clock fails with ENOSYS in errno and changes nothing |
| `TimeOfDay.WallClock.GetTimeOfDay` | interrupts_example/software/bsp/HAL/src/alt_gettod.c:71-124 | Fills the time and, if given, the zone; without a clock returns -ENOTSUP and updates neither |
| `FdTheorems.OpenExactly` | interrupts_example/software/bsp/HAL/src/alt_open.c:105-171 | open() succeeds exactly if the name is known, a slot is free, no descriptor anywhere in the pool has a lock on the device and the driver agrees; the descriptor was free, is at least 3, and nothing else changes |
| `FdTheorems.MarkScanIsFullScan` | interrupts_example/software/bsp/HAL/src/alt_open.c:79-87 | After the allocation no slot above alt_max_fd is in use, and the scan up to it finds a lock exactly if one exists in the whole pool |
| `FdTheorems.FailedOpen` | interrupts_example/software/bsp/HAL/src/alt_open.c:161-166 | A failed open leaves all devices, reports the matching error, and leaves all flags too exactly if the slot it tried carried none |
| `FdTheorems.LockExactly` | interrupts_example/software/bsp/HAL/src/alt_fd_lock.c:61-69 | A lock is granted exactly if every other descriptor on the device sits at index alt_max_fd; a granted lock is shared exactly if one does |
| `FdTheorems.InclusiveBoundWouldDo` | interrupts_example/software/bsp/HAL/src/alt_fd_lock.c:61 | With an inclusive bound the scan would see every other descriptor |
| `FdTheorems.SharedLockGranted` | interrupts_example/software/bsp/HAL/src/alt_fd_lock.c:61-69 | Two opens of a device, then a lock on the first: granted although the second is open |
| `FdTheorems.OneHolder` | interrupts_example/software/bsp/HAL/src/alt_fd_lock.c:61-69 | After any run of calls at most one descriptor holds the lock on a device |
| `FdTheorems.CloseDropsLock` | interrupts_example/software/bsp/HAL/src/alt_release_fd.c:44-51 | close() drops the lock of its descriptor exactly if it is not a standard stream |
| `FdTheorems.ClosedStreamLocksOut` | interrupts_example/software/bsp/HAL/src/alt_release_fd.c:44-51 | A run: output redirected to a device, locked and closed; the device still cannot be opened |
| `FdTheorems.FailedOpenLosesFlags` | interrupts_example/software/bsp/HAL/src/alt_open.c:139-163 | A run: flags set on a free slot, then a failing open in it; they are gone |
| `FdTheorems.LockHoldsOverRuns` | interrupts_example/software/bsp/HAL/src/alt_ioctl.c:127-139 | While a descriptor holds a lock, over any run of calls that neither unlocks it nor closes it, no open of that device succeeds; for a standard stream, over any run that neither unlocks nor redirects it, closing included |
| `FdTheorems.KeepsHolding` | interrupts_example/software/bsp/HAL/src/alt_fcntl.c:86-92 | No other single call takes a lock away, fcntl() included |
| `FdTheorems.RunInv` | interrupts_example/software/bsp/HAL/src/alt_get_fd.c:77-89 | Every run of calls keeps the pool invariant |
| `FdFlags.OpenKeepsFlags` | interrupts_example/software/bsp/HAL/src/alt_open.c:139-147 | After a successful open, of a device or a file, F_GETFL reports exactly the low 30 bits of the flags given, bit by bit; bit 30 of the word tells a device, and bit 31 is clear |
| `FdFlags.FcntlExactly` | interrupts_example/software/bsp/HAL/src/alt_fcntl.c:66-101 | F_SETFL takes O_APPEND and O_NONBLOCK, set or clear, from its argument and leaves all other bits and descriptors; F_GETFL reports the low 30 bits and changes nothing; anything else fails with EINVAL, a descriptor below zero with EBADFD |
| `FdFlags.IoctlExactly` | interrupts_example/software/bsp/HAL/src/alt_ioctl.c:106-168 | On a device TIOCNXCL clears the lock bit and a granted TIOCEXCL sets it, and neither changes another bit or descriptor; a refused one changes nothing; all other requests are the driver's, with its negative results in errno |
| `FdFlags.CloseExactly` | interrupts_example/software/bsp/HAL/src/alt_close.c:64-101 | close() reports what the driver said and frees a slot above 2 either way, with no flags left in it; nothing else changes |
| `FdFlags.RedirectExactly` | interrupts_example/software/bsp/HAL/src/alt_io_redirect.c:58-72 | After a redirection whose open succeeded the stream has the device and flags, the slot that the open took is free again, and nothing else has changed; after one that failed the streams are as before |
| `FdFlags.MarkBits` | interrupts_example/software/bsp/HAL/inc/priv/alt_file.h:122-133 | The lock is bit 31 of the word and the device mark bit 30 |
| `FdModel.ApplyInv` | interrupts_example/software/bsp/HAL/src/alt_get_fd.c:77-89 | Every call keeps: nothing allocated above the high-water mark, standard streams never free, locks only on device descriptors without a lower one on the same device |
| `FdModel.InitInv` | interrupts_example/software/bsp/HAL/src/alt_dev.c:118-149 | The initial pool satisfies the invariant |
| `FdModel.FcntlBits` | interrupts_example/software/bsp/HAL/src/alt_fcntl.c:86-92 | F_SETFL changes neither the lock bit nor the device bit |
| `FdPool.Descriptors.GetFd` | interrupts_example/software/bsp/HAL/src/alt_get_fd.c:54-101 | Takes the lowest free slot and raises the mark to it, or fails with EMFILE and changes nothing |
| `FdPool.Descriptors.ReleaseFd` | interrupts_example/software/bsp/HAL/src/alt_release_fd.c:44-51 | Frees a slot above 2, and nothing else |
| `FdPool.Descriptors.IsFileLocked` | interrupts_example/software/bsp/HAL/src/alt_open.c:64-92 | Marks the slot as a device and fails exactly if another slot up to the mark holds a lock on it |
| `FdPool.Descriptors.OpenFile` | interrupts_example/software/bsp/HAL/src/alt_open.c:105-171 | The coded open does what the pool model says, result and errno included |
| `FdPool.Descriptors.CloseFile` | interrupts_example/software/bsp/HAL/src/alt_close.c:64-101 | The same for close() |
| `FdPool.Descriptors.FdLock` | interrupts_example/software/bsp/HAL/src/alt_fd_lock.c:54-75 | Sets the lock exactly if no other slot below the mark has the device |
| `FdPool.Descriptors.FdUnlock` | interrupts_example/software/bsp/HAL/src/alt_fd_unlock.c:52-56 | Clears the lock, always |
| `FdPool.Descriptors.IoctlFile` | interrupts_example/software/bsp/HAL/src/alt_ioctl.c:106-168 | The coded ioctl does what the pool model says |
| `FdPool.Descriptors.FcntlFile` | interrupts_example/software/bsp/HAL/src/alt_fcntl.c:66-101 | The coded fcntl does what the pool model says |
| `FdPool.Descriptors.RedirectStream` | interrupts_example/software/bsp/HAL/src/alt_io_redirect.c:58-72 | A stream takes over the new descriptor, whose slot is given back; a failed open leaves the stream alone |
| `FdPool.Descriptors.IoRedirect` | interrupts_example/software/bsp/HAL/src/alt_io_redirect.c:85-94 | The three streams are redirected one after the other, output first |
| `IrqNesting.NestingRespectsPriority` | interrupts_example/software/bsp/HAL/inc/priv/alt_legacy_irq.h:118-149 | In every reachable state, even with handlers that enable and disable lines as long as they honour the mask: IENABLE is the active lines under the mask, the mask is that of the innermost open handler, every handler on top of another has a lower number, and at most 32 are nested |
| `IrqNesting.PreemptedByHigherOnly` | interrupts_example/software/bsp/HAL/inc/priv/alt_legacy_irq.h:118-133 | A handler called inside an open section has a lower number than its priority |
| `IrqSections.BalancedPairsRestore` | interrupts_example/software/bsp/HAL/inc/priv/alt_legacy_irq.h:118-149 | Whatever a handler and those that interrupt it do, with lines enabled and disabled by the foreground only: when the pairs are balanced all registers are as before |
| `IrqSections.PairRestoresExactly` | interrupts_example/software/bsp/HAL/inc/priv/alt_legacy_irq.h:118-149 | One pair puts all registers back exactly if IENABLE was the active lines under the mask and PIE was off |
| `IrqSections.EnableExactly` | interrupts_example/software/bsp/HAL/inc/priv/alt_legacy_irq.h:86-99 | In every reachable state, also after handlers have enabled and disabled lines honouring the mask: enabling a line leaves IENABLE the active lines under the mask exactly if no section is open, or the new line and every active one have lower numbers than the innermost section |
| `IrqSections.DisableExactly` | interrupts_example/software/bsp/HAL/inc/priv/alt_legacy_irq.h:68-81 | In every reachable state: disabling a line does exactly if no section is open, or every other active line has a lower number than the innermost section |
| `IrqSections.EnableHonoursMask` | interrupts_example/software/bsp/HAL/inc/priv/alt_legacy_irq.h:86-99 | The case that only the foreground has enabled and disabled lines before: enabling one keeps IENABLE within the mask exactly if no handler has an open section; in an open section it always lets in the line of that section itself, whichever line is enabled |
| `IrqSections.DisableHonoursMask` | interrupts_example/software/bsp/HAL/inc/priv/alt_legacy_irq.h:68-81 | The same case: disabling a line keeps it so exactly if no section is open, or it is the line of the innermost section and no higher number is active; another line lets in that of the section |
| `IrqSections.NestedNeverHonours` | interrupts_example/software/bsp/HAL/inc/priv/alt_legacy_irq.h:68-99 | The same case: in nested sections neither call ever does |
| `IrqSections.EnableLetsIn` | interrupts_example/software/bsp/HAL/inc/priv/alt_legacy_irq.h:86-99 | In every reachable state, also after handlers have enabled and disabled lines honouring the mask: in an open section a line can interrupt exactly if it is active with a lower number; once any line has been enabled there, exactly if it is active or the one enabled; the section's own line is among these if only the foreground had enabled and disabled lines before |
| `IrqSections.ReenteredByOwnLine` | interrupts_example/software/bsp/HAL/inc/priv/alt_legacy_irq.h:93-94 | A run for every two lines: the handler of one enables the other in its section, and is called again on top of itself |
| `IrqSections.LowerPriorityLetIn` | interrupts_example/software/bsp/HAL/inc/priv/alt_legacy_irq.h:93-94 | A run for every two lines: the handler of one enables the other in its section, and is interrupted by it, whatever its priority |
| `IrqSections.OwnLineOffFirst` | interrupts_example/software/bsp/HAL/inc/priv/alt_legacy_irq.h:68-99 | A run for every line: its handler disables it and then opens its section; the run honours the mask, and in the section disabling any line honours it too, and enabling one exactly if its number is lower |
| `IrqSections.NestingIsInvisible` | interrupts_example/software/bsp/HAL/inc/priv/alt_legacy_irq.h:118-149 | Whatever happens while a handler runs, sections that it opens and handlers that interrupt it included, with lines enabled and disabled by the foreground only: once it has returned, registers and stack are as if it had only changed the lines |
| `IrqNesting.RunInv` | interrupts_example/software/bsp/HAL/inc/priv/alt_legacy_irq.h:118-149 | Every run of interrupts, handlers, sections and foreground calls keeps the invariant |
| `IrqNesting.MaskIsBelow` | interrupts_example/software/bsp/HAL/inc/priv/alt_legacy_irq.h:126 | On 32-bit words (1 << p) - 1 has exactly the bits below p |
| `IrqNesting.AndIsIntersection` | interrupts_example/software/bsp/HAL/inc/priv/alt_legacy_irq.h:128 | The bits of a conjunction of words are those of both |
| `IrqNesting.OrIsInsertion` | interrupts_example/software/bsp/HAL/inc/priv/alt_legacy_irq.h:93 | x \| (1 << j) has the bits of x and bit j |
| `IrqNesting.AndNotIsRemoval` | interrupts_example/software/bsp/HAL/inc/priv/alt_legacy_irq.h:75 | x & ~(1 << j) has the bits of x but bit j |
| `IrqDispatch.ServesLowest` | interrupts_example/software/bsp/HAL/src/alt_irq_handler.c:128-159 | Every handler called is that of the lowest line in the latest sample, whatever lines are raised meanwhile |
| `IrqDispatch.NoOvertaking` | interrupts_example/software/bsp/HAL/src/alt_irq_handler.c:128-159 | A handler runs before one of higher priority only if the line of that one was raised in between |
| `IrqDispatch.InnerLoopEndsExactly` | interrupts_example/software/bsp/HAL/src/alt_irq_handler.c:141-155 | The inner loop ends if and only if something is pending, and then before the mask is shifted out |
| `IrqDispatch.AllServed` | interrupts_example/software/bsp/HAL/src/alt_irq_handler.c:128-159 | Every pending line is served |
| `IrqDispatch.QuietWorldAscends` | interrupts_example/software/bsp/HAL/src/alt_irq_handler.c:128-159 | If no line is raised, the pending ones are served once each in ascending order |
| `IrqDispatch.Cpu.Dispatch` | interrupts_example/software/bsp/HAL/src/alt_irq_handler.c:128-159 | Entered with something pending it ends with nothing pending after exactly these calls, none of them through an empty table entry; entered with nothing pending it never ends |
| `IrqDispatch.Cpu.Interrupt` | interrupts_example/software/bsp/HAL/src/alt_irq_handler.c:80-167 | An interrupt from end to end serves everything pending and leaves the handlers below and PIE as they were |
| `IrqDispatch.Cpu.TracedRespectsPriority` | interrupts_example/software/bsp/HAL/inc/priv/alt_legacy_irq.h:118-149 | The registers and the stack of the coded calls obey the nesting theorem as long as enabling and disabling honoured the mask |
| `IrqDispatch.Cpu.FindLowest` | interrupts_example/software/bsp/HAL/src/alt_irq_handler.c:141-155 | The inner loop stops at the lowest set bit of a sample that is not empty, and never with an empty one |
| `IrqDispatch.Cpu.Register` | interrupts_example/software/bsp/HAL/src/alt_iic_isr_register.c:75-101 | Below 32 it fills the table entry and enables the line, or with no handler disables it, with PIE as before, and a line is enabled only with a handler; numbers from 32 up to 2^31 - 1, and only these, are refused with EINVAL; numbers of 2^31 and above, and only these, pass the signed test with an index below the table |
| `IrqDispatch.Cpu.Interruptible` | interrupts_example/software/bsp/HAL/inc/priv/alt_legacy_irq.h:118-133 | Called by a running handler with its number, it is the opening event of the nesting machine, and returns the mask to put back |
| `IrqDispatch.Cpu.NonInterruptible` | interrupts_example/software/bsp/HAL/inc/priv/alt_legacy_irq.h:139-149 | Called with what the opening returned, it is the closing event |
| `IrqDispatch.Cpu.IrqEnable` | interrupts_example/software/bsp/HAL/inc/priv/alt_legacy_irq.h:86-99 | It is the enabling event of the nesting machine; interrupts are off while the registers change, and PIE is restored |
| `IrqDispatch.Cpu.IrqDisable` | interrupts_example/software/bsp/HAL/inc/priv/alt_legacy_irq.h:68-81 | It is the disabling event, likewise |
| `Heap.RunsStayInPlaceExactly` | interrupts_example/software/bsp/HAL/src/alt_gmon.c:133-148 | After any interleaving of sbrk() with non-negative increments and record allocations, even if other requests fail, exactly if no slab was refused: blocks and records are word aligned and inside the heap; no two blocks, no two records, and no record and block of another caller overlap; no record spans slabs |
| `Heap.RefusedSlab` | interrupts_example/software/bsp/HAL/src/alt_gmon.c:137-147 | A run in which a slab is refused: the record gets the address -1 |
| `Heap.AllocateExactly` | interrupts_example/software/bsp/HAL/src/alt_gmon.c:133-148 | A record allocation leaves all blocks and records in their places exactly if it does not ask in vain for a slab |
| `Heap.RunsAreSound` | interrupts_example/software/bsp/HAL/src/alt_sbrk.c:73-95 | Runs keep the invariant that addresses only go up and the slab in use reaches to the end of its block |
| `Heap.SbrkSound` | interrupts_example/software/bsp/HAL/src/alt_sbrk.c:76-95 | sbrk() keeps it, whether it succeeds or fails |
| `Heap.SbrkExactly` | interrupts_example/software/bsp/HAL/src/alt_sbrk.c:76-95 | sbrk() of a non-negative increment fails if and only if no word-aligned address from the end on leaves room below the limit; otherwise it returns the lowest that does, and the heap then ends right above |
| `Heap.RecordExactly` | interrupts_example/software/bsp/HAL/src/alt_gmon.c:133-148 | A record that fits what is left of the slab is cut from it and the heap does not move; another is the first of a new slab, at the lowest word-aligned address with room for one, and is refused if and only if there is none |
| `Profiler.Allocator.SbrkCall` | interrupts_example/software/bsp/HAL/src/alt_sbrk.c:68-136 | Rounds the end up to a word and returns it, extended by the increment, or returns -1 |
| `Profiler.Allocator.McountAllocate` | interrupts_example/software/bsp/HAL/src/alt_gmon.c:133-148 | Cuts the record from the slab in use or from a new one |
| `Profiler.Allocator.McountRecord` | interrupts_example/software/bsp/HAL/src/alt_gmon.c:159-207 | A new arc heads its function's list and a new function its bucket's; if the heap is not exhausted both are records that no list knew, and every list still ends |
| `Profiler.AllocationIsFresh` | interrupts_example/software/bsp/HAL/src/alt_gmon.c:133-148 | A granted record lies at or above the slab pointer of before |
| `Profiler.FnAdded` | interrupts_example/software/bsp/HAL/src/alt_gmon.c:184-194 | Adding a function puts it, with its address and no arcs, at the front of its bucket; every other list of functions is as it was, and so is every other record |
| `Profiler.ArcAdded` | interrupts_example/software/bsp/HAL/src/alt_gmon.c:196-204 | Adding an arc puts it, with its caller and a count of one, at the front of its function's list; every other list of arcs is as it was, and so is every other arc, and every function but for that head |
| `Profiler.FnKeepsChains` | interrupts_example/software/bsp/HAL/src/alt_gmon.c:184-194 | Adding a function keeps every bucket and every function a list that ends |
| `Profiler.ArcKeepsChains` | interrupts_example/software/bsp/HAL/src/alt_gmon.c:196-204 | So does adding an arc |
| `CacheFlush.FlushesAreTouched` | interrupts_example/software/bsp/HAL/src/alt_dcache_flush.c:78-94 | The flushes number the lines touched or one more; one more exactly if the range starts inside a line and is empty or ends before the last round |
| `CacheFlush.LinesInOrder` | interrupts_example/software/bsp/HAL/src/alt_dcache_flush.c:80-83 | They hit consecutive lines from that of the start on |
| `CacheFlush.EveryByteFlushed` | interrupts_example/software/bsp/HAL/src/alt_dcache_flush.c:78-94 | Every byte of the range lies in a flushed line |
| `CacheFlush.TrimmingLosesNoIndex` | interrupts_example/software/bsp/HAL/src/alt_icache_flush.c:53-74 | With flush by index, trimming the length to the cache still hits every index that the whole range would |
| `CacheFlush.FlushRange` | interrupts_example/software/bsp/HAL/src/alt_dcache_flush.c:78-94 | The loop ends exactly if it does not jump over an end between the last address that it can reach and the top of the address space, and then flushes exactly these addresses, all inside the address space; none but an unaligned start if the range reaches the top |
| `CacheFlush.IcacheFlush` | interrupts_example/software/bsp/HAL/src/alt_icache_flush.c:42-84 | The instruction cache: the length is always trimmed to the cache; the call ends exactly under that condition, and hits exactly the indices that the whole range would hit, if what is left ends below the top |
| `CacheFlush.DcacheFlush` | interrupts_example/software/bsp/HAL/src/alt_dcache_flush.c:57-97 | The data cache: with flush by address nothing is trimmed; with flush by index the length is, and exactly the indices are hit that the whole range would hit, if what is left ends below the top; the call ends exactly under the condition of the loop, and by address covers every byte exactly if the range ends below the top, or starts inside the last line and ends with it |
| `CacheFlush.AllFlushedExactly` | interrupts_example/software/bsp/HAL/src/alt_dcache_flush.c:78-94 | What is flushed covers every byte of the range exactly if the range ends below the top, or starts inside the last line and ends with it |
| `CacheFlush.LastLineIsLost` | interrupts_example/software/bsp/HAL/src/alt_dcache_flush.c:78-83 | The last 32-byte line: a range over half of it hangs the loop, one over all of it flushes nothing |

## Left out

- uC/OS-II branches, semaphores and event flags, which compile to nothing in this configuration.
- The small polled UART driver and the option to drop characters when no host is connected.
- Control-register builtins and inline assembly, replaced by the register state and the assumptions above; the assembler exception entry and the fast path of the profiler.
- UartDriver.JtagUart.Write: a wait loop is watched for at most `patience` rounds; a call still waiting then is reported as such, and how long the host takes is not modelled. The class runs write and read one at a time; `UartSystem` interleaves them. Data of negative length does not occur.
- UartDriver.JtagUart.Read: the same, and for `space` below zero, which reads nothing in the code.
- UartDriver.JtagUart.Close: the same bound on the rounds of its wait loop.
- UartDriver.JtagUart.Timeout: the read of AC and the write that clears it are one step.
- AlarmClock.Clock.Tick: callbacks stop no alarm but their own, and start none that was registered when the tick began or that another callback starts too; other stops and starts are in `AlarmWalk`, `AlarmLinks` and `AlarmRings`, where timers are not looked at.
- AlarmWalk.WalkEndsExactly: callbacks that start an alarm which is registered, or which another callback also stops or starts in the same tick; such starts are in `AlarmRings`, and those of registered alarms, without stops of other alarms, in `AlarmLinks`.
- AlarmRings.FairWalkExactly: an alarm that is stopped while it comes next, and started again by the one that stops it or by its own callback.
- LogPrintf.Printer.Printf: `%c` prints its argument as it is, without the cut to eight bits at the port; waiting for the port is not modelled.
- TimeOfDay.WallClock.SetTimeOfDay: seconds and microseconds are 32 bits wide; a 64-bit time_t is not modelled.
- FdPool.Descriptors.OpenFile: the `priv` field of a descriptor, and looking up names in the device and filesystem lists.
- IrqDispatch.Cpu.Register: what an access outside the table does; the model stops at the access.
- IrqDispatch.Cpu.Dispatch: handlers change nothing but the lines and the list of calls: they open no section, enable and disable nothing and are not interrupted. `NestingIsInvisible` shows that sections and the handlers that interrupt them there leave registers and stack as if they had only changed the lines, but the calls of those handlers are not in the list. Also the variant with the interrupt-vector custom instruction; each handler is assumed to make its own device drop its line, and finitely many lines to be raised while it runs; the endless inner loop is watched for `patience` rounds.
- IrqDispatch.Cpu.Interrupt: the same handlers.
- Profiler.Allocator.SbrkCall: the stack-limit checks and the variant with a configured maximum, which is a limit like the linker's; wrap-around of addresses.
- PC sampling in the profiler, direct-driver variants, DMA and flash wrappers, stub system calls, start-up code, `alt_busy_sleep`, and the memory tester under `tt_qsys_design`: forwarding, constants or assembly.
