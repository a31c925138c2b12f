/** The interrupt-driven JTAG UART driver as a system of small steps.

    Foreground write() and read() calls, the interrupt routine, the timeout callback, ioctl()
    and the host at the other end of the cable interleave freely, subject to two rules of the
    processor: interrupt code runs only while no foreground call holds interrupts masked, and
    foreground code runs only while no interrupt routine is active.  The host is never stopped.

    The hardware is assumed to behave as follows: RI is shown only while RE is set and the
    receive FIFO is not empty; WI is shown only while WE is set and WSPACE is positive; a read
    of DATA that finds no byte (RVALID 0) also reports RAVAIL 0; a byte written to DATA while
    WSPACE is 0 is lost. */
module UartSystem {
  import opened Arithmetic
  import opened UartRing

  const DEFAULT_TIMEOUT := 10

  /** The driver's own state record; `len` is ALTERA_AVALON_JTAG_UART_BUF_LEN. `re` and `we`
      are the two bits of irq_enable. */
  datatype Driver = Driver(
    len: nat,
    rxBuf: seq<Byte>, rxIn: nat, rxOut: nat,
    txBuf: seq<Byte>, txIn: nat, txOut: nat,
    re: bool, we: bool,
    hostInactive: nat, timeout: nat)

  /** The device: enable bits as last written to CONTROL, and the two FIFOs. */
  datatype Hardware = Hardware(re: bool, we: bool, rxFifo: seq<Byte>, wspace: nat, ac: bool)

  /** What has happened so far: bytes write() has put into the ring, bytes the device has
      taken from DATA, valid bytes read from DATA, bytes read() has taken out of the ring,
      and bytes handed to callers by finished read() calls. */
  datatype History = History(
    accepted: seq<Byte>, sent: seq<Byte>,
    taken: seq<Byte>, delivered: seq<Byte>, returned: seq<Byte>)

  datatype WriterPc =
    | WIdle       // no call in progress
    | WTest       // at the test of the fill loop
    | WCopy       // inside memcpy
    | WEnable     // fill loop left, interrupts still on
    | WMasked     // interrupts masked
    | WRaised     // irq_enable has WE, CONTROL not yet written
    | WWritten    // CONTROL written, interrupts still masked
    | WAfter      // interrupts restored
    | WWait       // in the wait loop
    | WLeft       // wait loop left, final test ahead

  /** The locals of one write() call for `data`, begun when `base` bytes had been accepted.
      `rest` is what ptr and count still describe; `outAt` is how many bytes had been sent when
      `out` was sampled; `published` tells that tx_in has moved since WE was last raised. */
  datatype Writer = Writer(
    pc: WriterPc, data: seq<Byte>, base: nat, rest: seq<Byte>, nonblock: bool,
    in_: nat, out: nat, n: nat, copied: nat, outAt: nat, published: bool)

  datatype ReaderPc =
    | RIdle
    | RTest       // at the test of the outer loop
    | RDrain      // about to sample the indices
    | RCopy       // inside memcpy
    | RAfter      // drain loop left
    | RWait       // in the wait loop
    | RLeft       // wait loop left, final test ahead
    | RFinish     // outer loop left
    | RMasked
    | RRaised
    | RWritten

  /** The locals of one read() call.  `got` is what has left the ring for the caller's buffer,
      `part` what the memcpy in progress has copied; `inAt` is how many bytes had been taken
      from DATA when `in_` was sampled. */
  datatype Reader = Reader(
    pc: ReaderPc, space: nat, nonblock: bool, got: seq<Byte>, part: seq<Byte>,
    in_: nat, out: nat, n: nat, inAt: nat)

  /** Where the interrupt routine is.  `handled` counts finished passes of its outer loop in
      this activation and `start` is the potential when the current pass began. */
  datatype Isr =
    | IIdle
    | ITop(handled: nat)
    | IRx(wi: bool, space: nat, avail: bool, stopped: bool, start: int, handled: nat)
    | ITx(space: nat, start: int, handled: nat)

  datatype State = State(drv: Driver, hw: Hardware, w: Writer, r: Reader, isr: Isr, h: History)

  datatype Step =
    // write()
    | WStart(data: seq<Byte>, wNonblock: bool)
    | WTake | WFillDone | WCopyByte | WPublish
    | WMask | WRaise | WControl | WUnmask
    | WReturn | WPark | WLeave | WResume | WGiveUp
    // read()
    | RStart(space: nat, rNonblock: bool)
    | REnter | RTake | RCopyByte | RPublish | RPark | RLeave | RResume | RStop
    | RMask | RRaise | RControl | RUnmask | RReturnEmpty
    // interrupt routine
    | IsrEnter | IsrControl(ri: bool, wi: bool)
    | IsrReceive | IsrReceiveEnd | IsrSend | IsrSendEnd
    // timeout callback, ioctl(TIOCSTIMEOUT) and the host
    | TimerTick | SetTimeout(arg: int)
    | HostSend(b: Byte) | HostDrain | HostPresent

  function RxUsed(s: State): int { |s.h.taken| - |s.h.delivered| }
  function TxUsed(s: State): int { |s.h.accepted| - |s.h.sent| }

  /** Room in the receive ring + bytes waiting for transmission + enabled interrupt sources. */
  function Potential(s: State): int {
    s.drv.len - 1 - RxUsed(s) + TxUsed(s) + (if s.drv.re then 1 else 0) + (if s.drv.we then 1 else 0)
  }

  predicate WriterMasked(s: State) { s.w.pc in {WMasked, WRaised, WWritten} }
  predicate ReaderMasked(s: State) { s.r.pc in {RMasked, RRaised, RWritten} }

  /** Interrupt code may run, and so may any foreground call. */
  predicate Unmasked(s: State) { !WriterMasked(s) && !ReaderMasked(s) }

  predicate InRange(s: State) {
    && s.drv.len >= 2
    && |s.drv.rxBuf| == s.drv.len && s.drv.rxIn < s.drv.len && s.drv.rxOut < s.drv.len
    && |s.drv.txBuf| == s.drv.len && s.drv.txIn < s.drv.len && s.drv.txOut < s.drv.len
  }

  predicate RxFull(s: State)
    requires InRange(s)
  {
    Advance(s.drv.rxIn, 1, s.drv.len) == s.drv.rxOut
  }

  predicate HostGone(s: State) { s.drv.hostInactive >= s.drv.timeout }

  /** When a step may be taken. */
  predicate Enabled(s: State, step: Step)
    requires InRange(s)
  {
    match step
    case WStart(_, _) => WriterMay(s, WIdle)
    case WTake => WriterMay(s, WTest) && s.w.rest != []
    case WFillDone => WriterMay(s, WTest) && s.w.rest == []
    case WCopyByte => WriterMay(s, WCopy) && s.w.copied < s.w.n <= |s.w.rest| && s.w.in_ + s.w.n <= s.drv.len
    case WPublish => WriterMay(s, WCopy) && s.w.copied == s.w.n <= |s.w.rest|
    case WMask => WriterMay(s, WEnable)
    case WRaise => WriterMay(s, WMasked)
    case WControl => WriterMay(s, WRaised)
    case WUnmask => WriterMay(s, WWritten)
    case WReturn => WriterMay(s, WAfter) && (s.w.rest == [] || s.w.nonblock)
    case WPark => WriterMay(s, WAfter) && s.w.rest != [] && !s.w.nonblock
    case WLeave => WriterMay(s, WWait) && (s.w.out != s.drv.txOut || HostGone(s))
    case WResume => WriterMay(s, WLeft) && s.w.out != s.drv.txOut
    case WGiveUp => WriterMay(s, WLeft) && s.w.out == s.drv.txOut

    case RStart(_, _) => ReaderMay(s, RIdle)
    case REnter => ReaderMay(s, RTest)
    case RTake => ReaderMay(s, RDrain)
    case RCopyByte => ReaderMay(s, RCopy) && |s.r.part| < s.r.n && s.r.out + s.r.n <= s.drv.len
    case RPublish => ReaderMay(s, RCopy) && |s.r.part| == s.r.n <= s.r.space
    case RPark => ReaderMay(s, RAfter)
    case RLeave => ReaderMay(s, RWait) && (s.r.in_ != s.drv.rxIn || HostGone(s))
    case RResume => ReaderMay(s, RLeft) && s.r.in_ != s.drv.rxIn
    case RStop => ReaderMay(s, RLeft) && s.r.in_ == s.drv.rxIn
    case RMask => ReaderMay(s, RFinish) && s.r.got != []
    case RRaise => ReaderMay(s, RMasked)
    case RControl => ReaderMay(s, RRaised)
    case RUnmask => ReaderMay(s, RWritten)
    case RReturnEmpty => ReaderMay(s, RFinish) && s.r.got == []

    case IsrEnter => s.isr.IIdle? && Unmasked(s)
    case IsrControl(ri, wi) =>
      && s.isr.ITop?
      && (ri ==> s.hw.re && s.hw.rxFifo != [])
      && (wi ==> s.hw.we && s.hw.wspace > 0)
    case IsrReceive => s.isr.IRx? && !s.isr.stopped && !RxFull(s)
    case IsrReceiveEnd => s.isr.IRx? && (s.isr.stopped || RxFull(s))
    case IsrSend => s.isr.ITx? && s.isr.space > 0 && s.drv.txOut != s.drv.txIn
    case IsrSendEnd => s.isr.ITx? && (s.isr.space == 0 || s.drv.txOut == s.drv.txIn)

    case TimerTick => s.isr.IIdle? && Unmasked(s)
    case SetTimeout(_) => s.isr.IIdle? && Unmasked(s)
    case HostSend(_) => true
    case HostDrain => true
    case HostPresent => true
  }

  predicate WriterMay(s: State, pc: WriterPc) { s.w.pc == pc && s.isr.IIdle? && !ReaderMasked(s) }
  predicate ReaderMay(s: State, pc: ReaderPc) { s.r.pc == pc && s.isr.IIdle? && !WriterMasked(s) }

  /** What a step does. */
  function Apply(s: State, step: Step): State
    requires InRange(s) && Enabled(s, step)
  {
    if IsWriterStep(step) then ApplyWriter(s, step)
    else if IsReaderStep(step) then ApplyReader(s, step)
    else ApplyOther(s, step)
  }

  /** Steps of the interrupt routine, the timeout callback, ioctl() and the host. */
  function ApplyOther(s: State, step: Step): State
    requires InRange(s) && Enabled(s, step) && !IsWriterStep(step) && !IsReaderStep(step)
  {
    match step
    case IsrEnter => s.(isr := ITop(0))
    case IsrControl(ri, wi) => s.(isr := AfterControl(s, ri, wi))
    case IsrReceive => Receive(s)
    case IsrReceiveEnd => ReceiveEnd(s)
    case IsrSend => Send(s)
    case IsrSendEnd => SendEnd(s)

    case TimerTick => Timeout(s)
    case SetTimeout(arg) => s.(drv := s.drv.(timeout := NewTimeout(s.drv.timeout, arg)))
    case HostSend(_) => ApplyHost(s, step)
    case HostDrain => ApplyHost(s, step)
    case HostPresent => ApplyHost(s, step)
  }

  /** The host sends a byte, takes one from the transmit FIFO, or shows that it is there. */
  function ApplyHost(s: State, step: Step): State
    requires step.HostSend? || step.HostDrain? || step.HostPresent?
  {
    match step
    case HostSend(b) => s.(hw := s.hw.(rxFifo := s.hw.rxFifo + [b]))
    case HostDrain => s.(hw := s.hw.(wspace := s.hw.wspace + 1))
    case HostPresent => s.(hw := s.hw.(ac := true))
  }

  predicate IsWriterStep(step: Step) {
    step.WStart? || step.WTake? || step.WFillDone? || step.WCopyByte? || step.WPublish? || step.WMask?
    || step.WRaise? || step.WControl? || step.WUnmask? || step.WReturn? || step.WPark? || step.WLeave?
    || step.WResume? || step.WGiveUp?
  }

  predicate IsReaderStep(step: Step) {
    step.RStart? || step.REnter? || step.RTake? || step.RCopyByte? || step.RPublish? || step.RPark?
    || step.RLeave? || step.RResume? || step.RStop? || step.RMask? || step.RRaise? || step.RControl?
    || step.RUnmask? || step.RReturnEmpty?
  }

  function ApplyWriter(s: State, step: Step): State
    requires InRange(s) && IsWriterStep(step) && Enabled(s, step)
  {
    match step
    case WStart(data, nonblock) =>
      s.(w := Writer(WTest, data, |s.h.accepted|, data, nonblock, 0, 0, 0, 0, 0, false))
    case WTake =>
      var n := WriteRun(s.drv.len, s.drv.txIn, s.drv.txOut);
      s.(w := s.w.(pc := if n == 0 then WEnable else WCopy,
                   in_ := s.drv.txIn, out := s.drv.txOut, outAt := |s.h.sent|,
                   n := Min(n, |s.w.rest|), copied := 0))
    case WFillDone => s.(w := s.w.(pc := WEnable))
    case WCopyByte =>
      s.(drv := s.drv.(txBuf := s.drv.txBuf[s.w.in_ + s.w.copied := s.w.rest[s.w.copied]]),
         w := s.w.(copied := s.w.copied + 1))
    case WPublish =>
      s.(drv := s.drv.(txIn := Advance(s.w.in_, s.w.n, s.drv.len)),
         h := s.h.(accepted := s.h.accepted + s.w.rest[..s.w.n]),
         w := s.w.(pc := WTest, rest := s.w.rest[s.w.n..], published := true))
    case WMask => s.(w := s.w.(pc := WMasked))
    case WRaise => s.(w := s.w.(pc := WRaised), drv := s.drv.(we := true))
    case WControl => s.(w := s.w.(pc := WWritten), hw := s.hw.(re := s.drv.re, we := s.drv.we))
    case WUnmask => s.(w := s.w.(pc := WAfter, published := false))
    case WReturn => s.(w := s.w.(pc := WIdle))
    case WPark => s.(w := s.w.(pc := WWait))
    case WLeave => s.(w := s.w.(pc := WLeft))
    case WResume => s.(w := s.w.(pc := WTest))
    case WGiveUp => s.(w := s.w.(pc := WIdle))
  }

  function ApplyReader(s: State, step: Step): State
    requires InRange(s) && IsReaderStep(step) && Enabled(s, step)
  {
    match step
    case RStart(space, nonblock) =>
      s.(r := Reader(RTest, space, nonblock, [], [], 0, 0, 0, 0))
    case REnter => s.(r := s.r.(pc := if s.r.space > 0 then RDrain else RFinish))
    case RTake =>
      var n := ReadRun(s.drv.len, s.drv.rxIn, s.drv.rxOut);
      s.(r := s.r.(pc := if n == 0 then RAfter else RCopy,
                   in_ := s.drv.rxIn, inAt := |s.h.taken|, out := s.drv.rxOut,
                   n := Min(n, s.r.space), part := []))
    case RCopyByte =>
      s.(r := s.r.(part := s.r.part + [s.drv.rxBuf[s.r.out + |s.r.part|]]))
    case RPublish =>
      s.(drv := s.drv.(rxOut := Advance(s.r.out, s.r.n, s.drv.len)),
         h := s.h.(delivered := s.h.delivered + s.r.part),
         r := s.r.(pc := if s.r.space > s.r.n then RDrain else RAfter,
                   space := s.r.space - s.r.n, got := s.r.got + s.r.part, part := []))
    case RPark => s.(r := s.r.(pc := if s.r.got != [] || s.r.nonblock then RFinish else RWait))
    case RLeave => s.(r := s.r.(pc := RLeft))
    case RResume => s.(r := s.r.(pc := RTest))
    case RStop => s.(r := s.r.(pc := RFinish))
    case RMask => s.(r := s.r.(pc := RMasked))
    case RRaise => s.(r := s.r.(pc := RRaised), drv := s.drv.(re := true))
    case RControl => s.(r := s.r.(pc := RWritten), hw := s.hw.(re := s.drv.re, we := s.drv.we))
    case RUnmask =>
      s.(r := s.r.(pc := RIdle, got := []), h := s.h.(returned := s.h.returned + s.r.got))
    case RReturnEmpty => s.(r := s.r.(pc := RIdle))
  }

  /** The interrupt routine has read CONTROL. */
  function AfterControl(s: State, ri: bool, wi: bool): Isr
    requires s.isr.ITop?
  {
    if ri then IRx(wi, s.hw.wspace, true, false, Potential(s), s.isr.handled)
    else if wi then ITx(s.hw.wspace, Potential(s), s.isr.handled)
    else IIdle
  }

  /** One pass of the receive loop with room in the ring: read DATA, keep a valid byte. */
  function Receive(s: State): State
    requires InRange(s) && s.isr.IRx?
  {
    if s.hw.rxFifo == [] then
      s.(isr := s.isr.(avail := false, stopped := true))
    else
      var b := s.hw.rxFifo[0];
      s.(hw := s.hw.(rxFifo := s.hw.rxFifo[1..]),
         drv := s.drv.(rxBuf := s.drv.rxBuf[s.drv.rxIn := b], rxIn := Advance(s.drv.rxIn, 1, s.drv.len)),
         h := s.h.(taken := s.h.taken + [b]),
         isr := s.isr.(avail := |s.hw.rxFifo| > 1))
  }

  /** After the receive loop: mask RE if data is left behind, then go on to transmission. */
  function ReceiveEnd(s: State): State
    requires s.isr.IRx?
  {
    var next := if s.isr.wi then ITx(s.isr.space, s.isr.start, s.isr.handled) else ITop(s.isr.handled + 1);
    if s.isr.avail then
      s.(drv := s.drv.(re := false), hw := s.hw.(re := false, we := s.drv.we), isr := next)
    else
      s.(isr := next)
  }

  /** One byte from the ring to DATA; the device keeps it only if it has room. */
  function Send(s: State): State
    requires InRange(s) && s.isr.ITx? && s.isr.space > 0
  {
    var b := s.drv.txBuf[s.drv.txOut];
    var drv := s.drv.(txOut := Advance(s.drv.txOut, 1, s.drv.len));
    var next := ITx(s.isr.space - 1, s.isr.start, s.isr.handled);
    if s.hw.wspace > 0 then
      s.(drv := drv, hw := s.hw.(wspace := s.hw.wspace - 1), isr := next, h := s.h.(sent := s.h.sent + [b]))
    else
      s.(drv := drv, isr := next)
  }

  /** After the transmit loop: mask WE if the device had room for more than the ring held. */
  function SendEnd(s: State): State
    requires s.isr.ITx?
  {
    var next := ITop(s.isr.handled + 1);
    if s.isr.space > 0 then
      s.(drv := s.drv.(we := false), hw := s.hw.(re := s.drv.re, we := false), isr := next)
    else
      s.(isr := next)
  }

  /** The callback that runs once a second. */
  function Timeout(s: State): State {
    if s.hw.ac then
      s.(hw := s.hw.(re := s.drv.re, we := s.drv.we, ac := false), drv := s.drv.(hostInactive := 0))
    else if s.drv.hostInactive < INT_MAX - 2 then
      s.(drv := s.drv.(hostInactive := s.drv.hostInactive + 1))
    else
      s
  }

  /** TIOCSTIMEOUT; INT_MAX means "cannot tell whether there is a host" and is final. */
  function NewTimeout(timeout: nat, arg: int): nat {
    if timeout != INT_MAX then
      if 2 <= arg < INT_MAX then arg else INT_MAX - 1
    else
      timeout
  }

  /** After altera_avalon_jtag_uart_init(): rings empty, receive interrupt on, transmit off.
      `alarm` tells whether the timeout alarm could be started. */
  predicate Init(s: State) {
    && s.drv.len >= 2 && |s.drv.rxBuf| == |s.drv.txBuf| == s.drv.len
    && s.drv.rxIn == s.drv.rxOut == s.drv.txIn == s.drv.txOut == 0
    && s.drv.re && !s.drv.we && s.hw.re && !s.hw.we
    && s.drv.hostInactive == 0 && s.drv.timeout in {DEFAULT_TIMEOUT, INT_MAX}
    && s.w == Writer(WIdle, [], 0, [], false, 0, 0, 0, 0, 0, false)
    && s.r == Reader(RIdle, 0, false, [], [], 0, 0, 0, 0)
    && s.isr == IIdle
    && s.h == History([], [], [], [], [])
  }

  ghost predicate Next(s: State, t: State) {
    InRange(s) && exists step :: Enabled(s, step) && t == Apply(s, step)
  }

  /** A run: the initial state followed by any number of steps. */
  ghost predicate IsRun(run: seq<State>) {
    && |run| > 0
    && Init(run[0])
    && forall i :: 0 < i < |run| ==> Next(run[i - 1], run[i])
  }
}
