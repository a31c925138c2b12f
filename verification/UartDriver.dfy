/** The JTAG UART driver as code: the state record with its two buffers, the interrupt routine,
    the timeout callback, write(), read(), ioctl() and close().

    `run` is an auxiliary record of everything that has happened.  Every access to shared state
    appends the step of UartSystem it amounts to, so a driver that satisfies Valid() is in a
    reachable state of that system and all of UartTheorems holds of it.  Between any two
    accesses Interfere() lets the interrupt routine, the timeout callback and the host do
    anything they can do there. */
module UartDriver {
  import opened Arithmetic
  import opened Errno
  import opened UartRing
  import opened UartSystem
  import opened UartInvariant
  import opened UartTheorems

  /** What a call has come to: it returned, or it was still in its wait loop when we stopped
      looking. */
  datatype Outcome = Returned(value: int) | StillWaiting

  /** What a wait loop waits for: room in the transmit ring, data in the receive ring, or an empty
      transmit ring. */
  datatype Awaited = Room | Data | Drained

  /** A call with these locals finds in state s that it has to go on waiting. */
  predicate InVain(what: Awaited, w: Writer, r: Reader, s: State) {
    match what
    case Room => s.w == w && w.pc == WWait && w.out == s.drv.txOut
    case Data => s.r == r && r.pc == RWait && r.in_ == s.drv.rxIn
    case Drained => s.drv.txOut != s.drv.txIn
  }

  /** The last looks, given by positions in the run, are so many rounds of a wait: in each the call
      looked at its index in vain, and then found the host present, or else the wait had ended. */
  ghost predicate Watched(what: Awaited, w: Writer, r: Reader, run: seq<State>, looks: seq<nat>, rounds: nat)
    decreases rounds
  {
    rounds == 0 ||
    (&& |looks| >= 2
     && var n := |looks| - 2;
        && looks[n] <= looks[n + 1] < |run| && (rounds > 1 && n > 0 ==> looks[n - 1] <= looks[n])
        && InVain(what, w, r, run[looks[n]]) && !HostGone(run[looks[n + 1]])
        && Watched(what, w, r, run, looks[..n], rounds - 1))
  }

  lemma {:induction false} StillWatched(what: Awaited, w: Writer, r: Reader, before: seq<State>, after: seq<State>,
                                        looks: seq<nat>, rounds: nat)
    requires before <= after && Watched(what, w, r, before, looks, rounds)
    ensures Watched(what, w, r, after, looks, rounds)
    decreases rounds
  {
    hide InVain;
    if rounds > 0 {
      StillWatched(what, w, r, before, after, looks[..|looks| - 2], rounds - 1);
    }
  }

  lemma {:induction false} WatchedAmongMore(what: Awaited, w: Writer, r: Reader, run: seq<State>, earlier: seq<nat>,
                                            looks: seq<nat>, rounds: nat)
    requires Watched(what, w, r, run, looks, rounds)
    ensures Watched(what, w, r, run, earlier + looks, rounds)
    decreases rounds
  {
    hide InVain;
    if rounds > 0 {
      var n := |looks| - 2;
      assert (earlier + looks)[..|earlier| + n] == earlier + looks[..n];
      WatchedAmongMore(what, w, r, run, earlier, looks[..n], rounds - 1);
      if rounds > 1 {
        assert |looks[..n]| >= 2;
      }
    }
  }

  /** One more round. */
  lemma WatchedOnce(what: Awaited, w: Writer, r: Reader, before: seq<State>, run: seq<State>, looks: seq<nat>,
                    rounds: nat, index: nat, host: nat)
    requires before <= run && Watched(what, w, r, before, looks, rounds)
    requires index <= host < |run| && (looks != [] ==> looks[|looks| - 1] <= index)
    requires InVain(what, w, r, run[index]) && !HostGone(run[host])
    ensures Watched(what, w, r, run, looks + [index] + [host], rounds + 1)
  {
    StillWatched(what, w, r, before, run, looks, rounds);
    var longer := looks + [index] + [host];
    assert longer[..|longer| - 2] == looks;
    hide InVain, HostGone;
  }

  /** The device registers, and the bytes that have gone through DATA in either direction.  RI and
      WI are never shown without cause; an `exact` device shows them whenever there is cause. */
  class JtagPort {
    const exact: bool
    var re: bool
    var we: bool
    var rxFifo: seq<Byte>
    var wspace: nat
    var ac: bool
    ghost var wire: seq<Byte>
    ghost var popped: seq<Byte>

    constructor (wspace: nat, exact: bool)
      ensures !re && !we && rxFifo == [] && this.wspace == wspace && !ac && wire == [] && popped == []
      ensures this.exact == exact
    {
      re, we, rxFifo, this.wspace, ac, wire, popped := false, false, [], wspace, false, [], [];
      this.exact := exact;
    }

    ghost function View(): Hardware
      reads this
    {
      Hardware(re, we, rxFifo, wspace, ac)
    }

    method ReadControl() returns (ri: bool, wi: bool, space: nat, active: bool)
      ensures ri ==> re && rxFifo != []
      ensures wi ==> we && wspace > 0
      ensures exact ==> ri == (re && rxFifo != []) && wi == (we && wspace > 0)
      ensures space == wspace && active == ac
    {
      var r, w: bool := *, *;
      ri, wi := (exact || r) && re && rxFifo != [], (exact || w) && we && wspace > 0;
      space, active := wspace, ac;
    }

    method WriteControl(re: bool, we: bool, clearAc: bool)
      modifies this`re, this`we, this`ac
      ensures this.re == re && this.we == we && ac == (old(ac) && !clearAc)
    {
      this.re, this.we := re, we;
      if clearAc {
        ac := false;
      }
    }

    method ReadData() returns (valid: bool, b: Byte, avail: bool)
      modifies this`rxFifo, this`popped
      ensures valid == (old(rxFifo) != [])
      ensures valid ==> b == old(rxFifo)[0] && rxFifo == old(rxFifo)[1..] && popped == old(popped) + [b]
      ensures valid ==> avail == (|old(rxFifo)| > 1)
      ensures !valid ==> !avail && rxFifo == old(rxFifo) && popped == old(popped)
    {
      if rxFifo == [] {
        valid, b, avail := false, 0, false;
      } else {
        valid, b, avail := true, rxFifo[0], |rxFifo| > 1;
        rxFifo := rxFifo[1..];
        popped := popped + [b];
      }
    }

    method WriteData(b: Byte)
      modifies this`wspace, this`wire
      ensures old(wspace) > 0 ==> wspace == old(wspace) - 1 && wire == old(wire) + [b]
      ensures old(wspace) == 0 ==> wspace == 0 && wire == old(wire)
    {
      if wspace > 0 {
        wspace := wspace - 1;
        wire := wire + [b];
      }
    }
  }

  class JtagUart {
    const len: nat
    const dev: JtagPort
    const rxBuf: array<Byte>
    const txBuf: array<Byte>
    var rxIn: nat
    var rxOut: nat
    var txIn: nat
    var txOut: nat
    var re: bool
    var we: bool
    var hostInactive: nat
    var timeout: nat

    ghost var accepted: seq<Byte>
    ghost var delivered: seq<Byte>
    ghost var returned: seq<Byte>
    ghost var writer: Writer
    ghost var reader: Reader
    ghost var isr: Isr
    ghost var run: seq<State>
    ghost var looks: seq<nat>

    ghost function View(): State
      reads this, dev, rxBuf, txBuf
    {
      State(Driver(len, rxBuf[..], rxIn, rxOut, txBuf[..], txIn, txOut, re, we, hostInactive, timeout),
            dev.View(), writer, reader, isr,
            History(accepted, dev.wire, dev.popped, delivered, returned))
    }

    ghost predicate Valid()
      reads this, dev, rxBuf, txBuf
    {
      len >= 2 && rxBuf != txBuf && |run| > 0 && IsRun(run) && run[|run| - 1] == View()
    }

    /** altera_avalon_jtag_uart_init(); `alarm` is whether the timeout alarm could be started. */
    constructor (len: nat, dev: JtagPort, alarm: bool)
      requires len >= 2 && dev.wire == [] && dev.popped == []
      modifies dev
      ensures Valid() && Open() && writer.pc == WIdle && reader.pc == RIdle
      ensures fresh(rxBuf) && fresh(txBuf) && this.dev == dev && this.len == len
      ensures run == [View()] && Init(View())
      ensures timeout == if alarm then DEFAULT_TIMEOUT else INT_MAX
    {
      this.len, this.dev := len, dev;
      rxBuf, txBuf := new Byte[len](_ => 0), new Byte[len](_ => 0);
      rxIn, rxOut, txIn, txOut := 0, 0, 0, 0;
      timeout := DEFAULT_TIMEOUT;
      re, we := true, false;
      hostInactive := 0;
      accepted, delivered, returned := [], [], [];
      writer := Writer(WIdle, [], 0, [], false, 0, 0, 0, 0, 0, false);
      reader := Reader(RIdle, 0, false, [], [], 0, 0, 0, 0);
      isr := IIdle;
      new;
      dev.WriteControl(re, we, false);
      if !alarm {
        timeout := INT_MAX;
      }
      run := [View()];
    }

    /** No interrupt routine is active and no critical section is open. */
    ghost predicate Open()
      reads this
    {
      isr == IIdle
      && writer.pc !in {WMasked, WRaised, WWritten}
      && reader.pc !in {RMasked, RRaised, RWritten}
    }

    lemma ValidInv()
      requires Valid()
      ensures InRange(View()) && Inv(View())
    {
      RunInv(run, |run| - 1);
    }

    /** Append to `run` the step that the last access amounts to. */
    ghost method Record(step: Step)
      requires len >= 2 && rxBuf != txBuf && IsRun(run) && InRange(run[|run| - 1]) && Enabled(run[|run| - 1], step)
      requires View() == Apply(run[|run| - 1], step)
      modifies this`run
      ensures Valid() && run == old(run) + [View()]
    {
      hide Apply, Enabled, InRange, Init;
      assert Next(run[|run| - 1], View());
      run := run + [View()];
    }

    ghost method RecordWriter(step: Step)
      requires len >= 2 && rxBuf != txBuf && IsRun(run) && InRange(run[|run| - 1]) && IsWriterStep(step) && Enabled(run[|run| - 1], step)
      requires View() == ApplyWriter(run[|run| - 1], step)
      modifies this`run
      ensures Valid() && run == old(run) + [View()]
    {
      hide ApplyWriter, Enabled, InRange;
      Record(step);
    }

    ghost method RecordReader(step: Step)
      requires len >= 2 && rxBuf != txBuf && IsRun(run) && InRange(run[|run| - 1]) && IsReaderStep(step) && Enabled(run[|run| - 1], step)
      requires View() == ApplyReader(run[|run| - 1], step)
      modifies this`run
      ensures Valid() && run == old(run) + [View()]
    {
      hide ApplyReader, Enabled, InRange;
      Record(step);
    }

    ghost method RecordOther(step: Step)
      requires len >= 2 && rxBuf != txBuf && IsRun(run) && InRange(run[|run| - 1]) && !IsWriterStep(step) && !IsReaderStep(step)
      requires Enabled(run[|run| - 1], step)
      requires View() == ApplyOther(run[|run| - 1], step)
      modifies this`run
      ensures Valid() && run == old(run) + [View()]
    {
      hide ApplyOther, Enabled, InRange;
      Record(step);
    }

    // what the steps that are not foreground steps amount to

    static lemma HostStepIs(s: State, step: Step)
      requires InRange(s) && (step.HostSend? || step.HostDrain? || step.HostPresent?)
      ensures !IsWriterStep(step) && !IsReaderStep(step) && Enabled(s, step) && ApplyOther(s, step) == ApplyHost(s, step)
    {
      hide ApplyHost, InRange;
    }

    static lemma TimerTickIs(s: State)
      requires InRange(s) && s.isr.IIdle? && Unmasked(s)
      ensures !IsWriterStep(TimerTick) && !IsReaderStep(TimerTick) && Enabled(s, TimerTick)
      ensures ApplyOther(s, TimerTick) == UartSystem.Timeout(s)
    {
      hide UartSystem.Timeout, InRange;
    }

    static lemma ReceiveEndIs(s: State)
      requires InRange(s) && s.isr.IRx? && (s.isr.stopped || RxFull(s))
      ensures !IsWriterStep(IsrReceiveEnd) && !IsReaderStep(IsrReceiveEnd) && Enabled(s, IsrReceiveEnd)
      ensures ApplyOther(s, IsrReceiveEnd) == ReceiveEnd(s)
    {
      hide ReceiveEnd, InRange, RxFull;
    }

    static lemma SendIs(s: State)
      requires InRange(s) && s.isr.ITx? && s.isr.space > 0 && s.drv.txOut != s.drv.txIn
      ensures !IsWriterStep(IsrSend) && !IsReaderStep(IsrSend) && Enabled(s, IsrSend)
      ensures ApplyOther(s, IsrSend) == Send(s)
    {
      hide Send, InRange;
    }

    static lemma SendEndIs(s: State)
      requires InRange(s) && s.isr.ITx? && (s.isr.space == 0 || s.drv.txOut == s.drv.txIn)
      ensures !IsWriterStep(IsrSendEnd) && !IsReaderStep(IsrSendEnd) && Enabled(s, IsrSendEnd)
      ensures ApplyOther(s, IsrSendEnd) == SendEnd(s)
    {
      hide SendEnd, InRange;
    }

    /** Write irq_enable to CONTROL, acknowledging AC if asked to. */
    method WriteEnables(clearAc: bool)
      modifies dev`re, dev`we, dev`ac
      ensures View() == old(View()).(hw := old(View()).hw.(re := re, we := we, ac := old(dev.ac) && !clearAc))
    {
      dev.WriteControl(re, we, clearAc);
    }

    // ---------------------------------------------------------------- the host and the clock

    /** The host does anything it likes to its ends of the FIFOs. */
    method HostActivity()
      requires Valid()
      modifies dev`rxFifo, dev`wspace, dev`ac, this`run
      ensures Valid() && old(run) <= run
      ensures old(dev.rxFifo) <= dev.rxFifo && old(dev.wspace) <= dev.wspace
    {
      var steps: nat := *;
      while steps > 0
        invariant Valid() && old(run) <= run
        invariant old(dev.rxFifo) <= dev.rxFifo && old(dev.wspace) <= dev.wspace
      {
        var kind: nat, b: Byte := *, *;
        HostStep(kind, b);
        steps := steps - 1;
      }
    }

    method HostAct(kind: nat, b: Byte) returns (ghost step: Step)
      modifies dev`rxFifo, dev`wspace, dev`ac
      ensures step.HostSend? || step.HostDrain? || step.HostPresent?
      ensures View() == ApplyHost(old(View()), step)
      ensures old(dev.rxFifo) <= dev.rxFifo && old(dev.wspace) <= dev.wspace
    {
      if kind == 0 {
        dev.rxFifo := dev.rxFifo + [b];
        step := HostSend(b);
      } else if kind == 1 {
        dev.wspace := dev.wspace + 1;
        step := HostDrain;
      } else {
        dev.ac := true;
        step := HostPresent;
      }
    }

    method HostStep(kind: nat, b: Byte)
      requires Valid()
      modifies dev`rxFifo, dev`wspace, dev`ac, this`run
      ensures Valid() && old(run) <= run
      ensures old(dev.rxFifo) <= dev.rxFifo && old(dev.wspace) <= dev.wspace
    {
      ValidInv();
      ghost var s := View();
      hide Inv, IsRun, InRange, View, Enabled, ApplyOther, ApplyHost, IsWriterStep, IsReaderStep;
      ghost var step := HostAct(kind, b);
      HostStepIs(s, step);
      RecordOther(step);
    }

    /** The alarm callback; it asks to be called again in a second. */
    method Timeout(ticksPerSecond: nat) returns (next: nat)
      requires Valid() && Open()
      modifies this`hostInactive, this`run, dev`re, dev`we, dev`ac
      ensures Valid() && Open() && run == old(run) + [View()]
      ensures View() == UartSystem.Timeout(old(View()))
      ensures next == ticksPerSecond
    {
      ValidInv();
      TimerTickIs(View());
      hide Inv, IsRun, InRange, Enabled, ApplyOther, IsWriterStep, IsReaderStep;
      var ri, wi, space, active := dev.ReadControl();
      if active {
        WriteEnables(true);
        hostInactive := 0;
      } else if hostInactive < INT_MAX - 2 {
        hostInactive := hostInactive + 1;
      }
      RecordOther(TimerTick);
      next := ticksPerSecond;
    }

    // ---------------------------------------------------------------- the interrupt routine

    ghost method Enter()
      requires Valid() && Open()
      modifies this`isr, this`run
      ensures Valid() && isr == ITop(0) && run == old(run) + [View()] && View() == old(View()).(isr := ITop(0))
    {
      ValidInv();
      hide Inv, IsRun, Apply, Advance;
      hide Receive, ReceiveEnd, Send, SendEnd, AfterControl, UartSystem.Timeout, NewTimeout;
      isr := ITop(0);
      RecordOther(IsrEnter);
    }

    method SampleControl() returns (ri: bool, wi: bool, space: nat)
      requires Valid() && isr.ITop?
      modifies this`isr, this`run
      ensures Valid() && run == old(run) + [View()]
      ensures View() == old(View()).(isr := AfterControl(old(View()), ri, wi))
      ensures dev.exact ==> ri == (dev.re && dev.rxFifo != []) && wi == (dev.we && dev.wspace > 0)
      ensures ri ==> isr.IRx? && isr.wi == wi && isr.space == space && isr.avail && !isr.stopped
      ensures !ri && wi ==> isr.ITx? && isr.space == space
      ensures !ri && !wi ==> isr.IIdle?
      ensures isr != IIdle ==> isr.handled == old(isr.handled) && isr.start == Potential(old(View()))
    {
      ValidInv();
      hide Inv, IsRun, Apply, Advance;
      hide Receive, ReceiveEnd, Send, SendEnd, UartSystem.Timeout, NewTimeout, Potential;
      var active;
      ri, wi, space, active := dev.ReadControl();
      isr := AfterControl(View(), ri, wi);
      RecordOther(IsrControl(ri, wi));
    }

    /** Read DATA and keep a valid byte. */
    method PopIntoRing() returns (valid: bool, avail: bool)
      requires InRange(View()) && isr.IRx? && rxBuf != txBuf
      modifies this`rxIn, rxBuf, dev`rxFifo, dev`popped
      ensures View() == Receive(old(View())).(isr := isr)
      ensures Receive(old(View())).isr == isr.(avail := avail, stopped := isr.stopped || !valid)
      ensures |dev.popped| == |old(dev.popped)| + (if valid then 1 else 0)
    {
      hide Advance;
      ghost var s := View();
      var b;
      valid, b, avail := dev.ReadData();
      if valid {
        rxBuf[rxIn] := b;
        rxIn := Advance(rxIn, 1, len);
        assert rxBuf[..] == s.drv.rxBuf[s.drv.rxIn := b];
      }
    }

    /** One pass of the receive loop that found room in the ring. */
    method ReceiveByte() returns (valid: bool, avail: bool)
      requires Valid() && isr.IRx? && !isr.stopped
      requires Advance(rxIn, 1, len) != rxOut
      modifies this`rxIn, this`isr, this`run, rxBuf, dev`rxFifo, dev`popped
      ensures Valid() && run == old(run) + [View()]
      ensures InRange(old(View())) && View() == Receive(old(View()))
      ensures isr == old(isr).(avail := avail, stopped := !valid)
      ensures |dev.popped| == |old(dev.popped)| + (if valid then 1 else 0)
    {
      ValidInv();
      hide Inv, IsRun, Apply, Advance;
      hide ReceiveEnd, Send, SendEnd, AfterControl, UartSystem.Timeout, NewTimeout;
      assert Enabled(View(), IsrReceive);
      hide Enabled, Receive;
      valid, avail := PopIntoRing();
      isr := isr.(avail := avail, stopped := !valid);
      hide InRange;
      RecordOther(IsrReceive);
    }

    /** Mask RE if data is left behind. */
    method MaskReceive(avail: bool)
      requires isr.IRx? && isr.avail == avail
      modifies this`re, dev`re, dev`we, dev`ac
      ensures View() == ReceiveEnd(old(View())).(isr := isr)
    {
      if avail {
        re := false;
        WriteEnables(false);
      }
    }

    /** After the receive loop. */
    method EndReceive(avail: bool)
      requires Valid() && isr.IRx? && (isr.stopped || Advance(rxIn, 1, len) == rxOut) && isr.avail == avail
      modifies this`re, this`isr, this`run, dev`re, dev`we, dev`ac
      ensures Valid() && run == old(run) + [View()] && View() == ReceiveEnd(old(View()))
      ensures isr == if old(isr.wi) then ITx(old(isr.space), old(isr.start), old(isr.handled))
                     else ITop(old(isr.handled) + 1)
    {
      ValidInv();
      ReceiveEndIs(View());
      hide Inv, IsRun, InRange, Advance, Enabled, ApplyOther, IsWriterStep, IsReaderStep;
      MaskReceive(avail);
      isr := if isr.wi then ITx(isr.space, isr.start, isr.handled) else ITop(isr.handled + 1);
      RecordOther(IsrReceiveEnd);
    }

    /** One pass of the transmit loop. */
    method SendByte()
      requires Valid() && isr.ITx? && isr.space > 0 && txOut != txIn
      modifies this`txOut, this`isr, this`run, dev`wspace, dev`wire
      ensures Valid() && run == old(run) + [View()]
      ensures InRange(old(View())) && View() == Send(old(View()))
      ensures isr == ITx(old(isr.space) - 1, old(isr.start), old(isr.handled))
    {
      ValidInv();
      SendIs(View());
      hide Inv, IsRun, Advance, Enabled, ApplyOther, IsWriterStep, IsReaderStep;
      ghost var s := View();
      dev.WriteData(txBuf[txOut]);
      txOut := Advance(txOut, 1, len);
      isr := ITx(isr.space - 1, isr.start, isr.handled);
      RecordOther(IsrSend);
    }

    /** Mask WE if the device has room left. */
    method MaskTransmit(space: nat)
      requires isr.ITx? && isr.space == space
      modifies this`we, dev`re, dev`we, dev`ac
      ensures View() == SendEnd(old(View())).(isr := isr)
    {
      if space > 0 {
        we := false;
        WriteEnables(false);
      }
    }

    /** After the transmit loop. */
    method EndSend(space: nat)
      requires Valid() && isr.ITx? && isr.space == space && (space == 0 || txOut == txIn)
      modifies this`we, this`isr, this`run, dev`re, dev`we, dev`ac
      ensures Valid() && run == old(run) + [View()] && View() == SendEnd(old(View()))
      ensures isr == ITop(old(isr.handled) + 1)
    {
      ValidInv();
      SendEndIs(View());
      hide Inv, IsRun, InRange, Enabled, ApplyOther, IsWriterStep, IsReaderStep;
      MaskTransmit(space);
      isr := ITop(isr.handled + 1);
      RecordOther(IsrSendEnd);
    }

    /** The receive half of a pass: empty the device into the ring while there is room. */
    method ReceiveAll()
      requires Valid() && isr.IRx? && isr.avail && !isr.stopped
      modifies this`rxIn, this`re, this`isr, this`run, rxBuf, dev
      ensures Valid() && old(run) <= run
      ensures isr == if old(isr.wi) then ITx(old(isr.space), old(isr.start), old(isr.handled))
                     else ITop(old(isr.handled) + 1)
    {
      hide Inv, IsRun, Advance, View;
      var avail := true;
      ReceiveBound();
      while true
        invariant Valid() && old(run) <= run
        invariant isr == old(isr).(avail := avail)
        invariant |dev.popped| < |delivered| + len
        decreases |delivered| + len - |dev.popped|
      {
        if Advance(rxIn, 1, len) == rxOut {
          break;
        }
        HostActivity();
        var valid;
        valid, avail := ReceiveByte();
        ReceiveBound();
        if !valid {
          break;
        }
      }
      EndReceive(avail);
    }

    lemma ReceiveBound()
      requires Valid()
      ensures |delivered| <= |dev.popped| < |delivered| + len
    {
      ValidInv();
    }

    /** The transmit half of a pass: fill the device from the ring. */
    method SendAll(space0: nat)
      requires Valid() && isr.ITx? && isr.space == space0
      modifies this`txOut, this`we, this`isr, this`run, dev
      ensures Valid() && old(run) <= run
      ensures isr == ITop(old(isr.handled) + 1)
    {
      hide Inv, IsRun, Advance, View;
      var space := space0;
      while space > 0 && txOut != txIn
        invariant Valid() && old(run) <= run
        invariant isr == old(isr).(space := space)
      {
        HostActivity();
        SendByte();
        space := space - 1;
      }
      EndSend(space);
    }

    lemma IsrInView()
      ensures View().isr == isr
    {
    }

    lemma HandledBound()
      requires Valid() && isr.ITop?
      ensures isr.handled <= 2 * len
    {
      ValidInv();
    }

    /** The device has nothing that the interrupt routine would be called for. */
    ghost predicate Quiet()
      reads dev
    {
      (dev.rxFifo == [] || !dev.re) && (dev.wspace == 0 || !dev.we)
    }

    /** Then everything that could be moved has been, unless a call that has just moved bytes is
        about to turn the interrupt on again: either nothing is left to receive or the receive ring
        is full, and either the device has no room or there is nothing left to send.  A call in its
        wait loop goes on waiting only if the device has nothing for it either. */
    lemma QuietMeansDone()
      requires Valid() && Open() && Quiet()
      ensures reader.pc in {RIdle, RTest, RWait, RLeft} ==> dev.rxFifo == [] || |dev.popped| - |delivered| == len - 1
      ensures writer.pc in {WIdle, WAfter, WWait, WLeft} ==> dev.wspace == 0 || dev.wire == accepted
      ensures reader.pc == RWait ==> dev.rxFifo == [] || reader.in_ != rxIn
      ensures writer.pc == WWait ==> dev.wspace == 0 || writer.out != txOut
    {
      hide IsRun, Slot;
      ValidInv();
      WaitersAreServed(View());
    }

    /** The interrupt routine, with the host free to act before every register access.  However
        much the host sends, it ends after at most 2 * len passes; it begins with the step that
        enters it, and the last thing it does is read a CONTROL that shows neither RI nor WI. */
    method Irq() returns (ghost passes: nat)
      requires Valid() && Open()
      modifies this`rxIn, this`txOut, this`re, this`we, this`isr, this`run, rxBuf, dev
      ensures Valid() && Open() && passes <= 2 * len
      ensures old(run) + [old(View()).(isr := ITop(0))] <= run && |run| >= |old(run)| + 2
      ensures var s := run[|run| - 2]; s.isr == ITop(passes) && View() == s.(isr := AfterControl(s, false, false))
      ensures dev.exact ==> Quiet()
    {
      hide Inv, IsRun, Advance, View;
      Enter();
      ghost var entered := run;
      HandledBound();
      while true
        invariant Valid() && entered <= run && isr.ITop? && isr.handled <= 2 * len
        decreases 2 * len - isr.handled
      {
        HostActivity();
        passes := isr.handled;
        IsrInView();
        var ri, wi, space := SampleControl();
        if !ri && !wi {
          break;
        }
        if ri {
          ReceiveAll();
        }
        if wi {
          SendAll(space);
        }
        HandledBound();
      }
    }

    /** Everything that can happen between two foreground accesses with interrupts on. */
    method Interfere()
      requires Valid() && Open()
      modifies this`rxIn, this`txOut, this`re, this`we, this`hostInactive, this`isr, this`run, rxBuf, dev
      ensures Valid() && Open() && old(run) <= run
      ensures old(dev.wire) <= dev.wire && old(dev.popped) <= dev.popped
    {
      hide Inv, IsRun, View;
      var events: nat := *;
      while events > 0
        invariant Valid() && Open() && old(run) <= run
      {
        var kind: nat, ticksPerSecond: nat := *, *;
        if kind == 0 {
          HostActivity();
        } else if kind == 1 {
          ghost var passes := Irq();
        } else {
          var next := Timeout(ticksPerSecond);
        }
        events := events - 1;
      }
      Grown(old(run));
    }

    /** The bytes that have gone through DATA stay gone. */
    twostate lemma Grown(before: seq<State>)
      requires old(Valid()) && Valid() && before == old(run) <= run
      ensures old(dev.wire) <= dev.wire && old(dev.popped) <= dev.popped
    {
      HistoriesGrow(run, |before| - 1, |run| - 1);
      assert run[|before| - 1] == before[|before| - 1];
    }

    // ---------------------------------------------------------------- write()

    /** Steps of write() that only move its program counter, to `pc`. */
    ghost predicate WriterMoves(step: Step, pc: WriterPc)
      reads this
    {
      && isr == IIdle && reader.pc !in {RMasked, RRaised, RWritten}
      && match step
         case WFillDone => writer.pc == WTest && writer.rest == [] && pc == WEnable
         case WMask => writer.pc == WEnable && pc == WMasked
         case WUnmask => writer.pc == WWritten && pc == WAfter
         case WReturn => writer.pc == WAfter && (writer.rest == [] || writer.nonblock) && pc == WIdle
         case WPark => writer.pc == WAfter && writer.rest != [] && !writer.nonblock && pc == WWait
         case WLeave => writer.pc == WWait && (writer.out != txOut || hostInactive >= timeout) && pc == WLeft
         case WResume => writer.pc == WLeft && writer.out != txOut && pc == WTest
         case WGiveUp => writer.pc == WLeft && writer.out == txOut && pc == WIdle
         case _ => false
    }

    lemma WriterMoveIs(step: Step, pc: WriterPc)
      requires WriterMoves(step, pc) && InRange(View())
      ensures IsWriterStep(step) && Enabled(View(), step)
      ensures ApplyWriter(View(), step)
              == View().(w := writer.(pc := pc, published := writer.published && step != WUnmask))
    {
      hide WriteRun, Slot, Advance, InRange;
    }

    ghost method MoveWriter(step: Step, pc: WriterPc)
      requires Valid() && WriterMoves(step, pc)
      modifies this`writer, this`run
      ensures Valid() && old(run) <= run && |old(run)| < |run|
      ensures writer == old(writer).(pc := pc, published := old(writer.published) && step != WUnmask)
    {
      ValidInv();
      WriterMoveIs(step, pc);
      hide Inv, IsRun, InRange, Enabled, ApplyWriter, WriterMoves;
      ghost var s := View();
      writer := writer.(pc := pc, published := writer.published && step != WUnmask);
      assert View() == s.(w := writer);
      hide View;
      RecordWriter(step);
    }

    ghost method StartWrite(data: seq<Byte>, nonblock: bool)
      requires Valid() && Open() && writer.pc == WIdle
      modifies this`writer, this`run
      ensures Valid() && old(run) <= run
      ensures writer == Writer(WTest, data, |accepted|, data, nonblock, 0, 0, 0, 0, 0, false)
    {
      ValidInv();
      hide Inv, IsRun, Apply, Advance, InRange, WriteRun, Slot;
      writer := Writer(WTest, data, |accepted|, data, nonblock, 0, 0, 0, 0, 0, false);
      RecordWriter(WStart(data, nonblock));
    }

    ghost method NoteTake(n: nat)
      requires Valid() && Open() && writer.pc == WTest && writer.rest != []
      requires InRange(View()) && n == WriteRun(len, txIn, txOut)
      modifies this`writer, this`run
      ensures Valid() && Open() && old(run) <= run && |old(run)| < |run|
      ensures writer == old(writer).(pc := if n == 0 then WEnable else WCopy, in_ := txIn, out := txOut,
                outAt := |dev.wire|, n := Min(n, |old(writer.rest)|), copied := 0)
    {
      hide Inv, IsRun, Apply, Advance, WriteRun, Slot;
      assert Enabled(View(), WTake);
      hide Enabled, InRange;
      writer := writer.(pc := if n == 0 then WEnable else WCopy, in_ := txIn, out := txOut,
                outAt := |dev.wire|, n := Min(n, |writer.rest|), copied := 0);
      RecordWriter(WTake);
    }

    /** Sample both indices and compute how much fits contiguously. */
    method SampleTx() returns (in_: nat, out: nat, n: nat)
      requires Valid() && Open() && writer.pc == WTest && writer.rest != []
      modifies this`rxIn, this`txOut, this`re, this`we, this`hostInactive, this`isr, this`run, rxBuf, dev
      modifies this`writer
      ensures Valid() && Open() && old(run) <= run && |old(run)| < |run|
      ensures old(dev.wire) <= dev.wire && old(dev.popped) <= dev.popped
      ensures in_ == txIn && out == txOut && InRange(View()) && n == WriteRun(len, txIn, txOut)
      ensures writer == old(writer).(pc := if n == 0 then WEnable else WCopy, in_ := in_, out := out,
                outAt := |dev.wire|, n := Min(n, |old(writer.rest)|), copied := 0)
    {
      hide Inv, IsRun, Advance, WriteRun, Slot;
      in_ := txIn;
      Interfere();
      ValidInv();
      out := txOut;
      n := ContiguousRoom(in_, out);
      NoteTake(n);
      ValidInv();
    }

    method ContiguousRoom(in_: nat, out: nat) returns (n: nat)
      requires in_ < len && out < len
      ensures n == WriteRun(len, in_, out)
    {
      if in_ < out {
        n := out - 1 - in_;
      } else if out > 0 {
        n := len - in_;
      } else {
        n := len - 1 - in_;
      }
    }

    /** One byte of the memcpy into the ring. */
    method CopyByteIn(b: Byte, k: nat)
      requires Valid() && Open() && writer.pc == WCopy && writer.copied < writer.n <= |writer.rest|
      requires writer.in_ + writer.n <= len
      requires k == writer.in_ + writer.copied && b == writer.rest[writer.copied]
      modifies this`writer, this`run, txBuf
      ensures Valid() && Open() && old(run) <= run
      ensures writer == old(writer).(copied := old(writer.copied) + 1)
    {
      ValidInv();
      hide Inv, IsRun, Apply, Advance, InRange, WriteRun, Slot;
      assert Enabled(View(), WCopyByte);
      hide Enabled;
      ghost var s := View();
      txBuf[k] := b;
      assert txBuf[..] == s.drv.txBuf[k := b];
      writer := writer.(copied := writer.copied + 1);
      RecordWriter(WCopyByte);
    }

    method PublishTx(in_: nat, n: nat)
      requires Valid() && Open() && writer.pc == WCopy && writer.copied == writer.n == n <= |writer.rest|
      requires writer.in_ == in_
      modifies this`txIn, this`writer, this`accepted, this`run
      ensures Valid() && Open() && old(run) <= run
      ensures writer == old(writer).(pc := WTest, rest := old(writer.rest)[n..], published := true)
      ensures accepted == old(accepted) + old(writer.rest)[..n]
    {
      ValidInv();
      hide Inv, IsRun, Apply, Advance, WriteRun, Slot;
      assert Enabled(View(), WPublish);
      hide Enabled, InRange;
      txIn := Advance(in_, n, len);
      accepted := accepted + writer.rest[..n];
      writer := writer.(pc := WTest, rest := writer.rest[n..], published := true);
      RecordWriter(WPublish);
    }

    /** Some state from number `from` of the run on had a full transmit ring. */
    static ghost predicate WasFull(run: seq<State>, from: nat) {
      exists i :: from <= i < |run| && TxUsed(run[i]) == run[i].drv.len - 1
    }

    /** Some state from number `from` of the run on found the host gone. */
    static ghost predicate WasGone(run: seq<State>, from: nat) {
      exists i :: from <= i < |run| && HostGone(run[i])
    }

    lemma RoomIsExact(n: nat)
      requires Valid() && InRange(View()) && n == WriteRun(len, txIn, txOut)
      ensures |dev.wire| <= |accepted| < |dev.wire| + len
      ensures n == 0 <==> |accepted| - |dev.wire| == len - 1
      ensures n == 0 ==> forall from: nat :: from < |run| ==> WasFull(run, from)
    {
      ValidInv();
      WriteRunExact(len, |accepted|, |dev.wire|);
      if n == 0 {
        assert TxUsed(run[|run| - 1]) == run[|run| - 1].drv.len - 1;
      }
    }

    lemma CopyInFits()
      requires Valid() && writer.pc == WCopy
      ensures writer.in_ + writer.n <= len && 0 < writer.n <= |writer.rest|
    {
      ValidInv();
    }

    /** The memcpy of n bytes into the ring, and the new tx_in. */
    method CopyIn(data: seq<Byte>, p: nat, in_: nat, n: nat)
      requires Valid() && Open() && writer.pc == WCopy && writer.copied == 0 && writer.n == n && writer.in_ == in_
      requires p + n <= |data| && writer.rest == data[p..] && in_ + n <= len
      modifies this`rxIn, this`txOut, this`re, this`we, this`hostInactive, this`isr, this`run, rxBuf, dev
      modifies this`txIn, this`accepted, this`writer, txBuf
      ensures Valid() && Open() && old(run) <= run
      ensures accepted == old(accepted) + data[p..p + n]
      ensures writer == old(writer).(pc := WTest, rest := data[p + n..], published := true, copied := n)
      ensures |old(dev.wire)| <= |dev.wire|
    {
      hide Inv, IsRun, Advance, View, WriteRun, Slot;
      for j := 0 to n
        invariant Valid() && Open() && old(run) <= run
        invariant writer == old(writer).(copied := j) && accepted == old(accepted)
        invariant |old(dev.wire)| <= |dev.wire|
      {
        Interfere();
        CopyByteIn(data[p + j], in_ + j);
      }
      assert data[p..][..n] == data[p..p + n] && data[p..][n..] == data[p + n..];
      Interfere();
      PublishTx(in_, n);
    }

    static lemma Joined(data: seq<Byte>, a: nat, b: nat, c: nat)
      requires a <= b <= c <= |data|
      ensures data[a..b] + data[b..c] == data[a..c]
    {
    }

    /** The fill loop of write(): from data[p0..] on, as much as the ring takes. */
    method FillRing(data: seq<Byte>, p0: nat) returns (p: nat, out: nat)
      requires Valid() && Open() && writer.pc == WTest && p0 <= |data| && writer.rest == data[p0..]
      modifies this`rxIn, this`txOut, this`re, this`we, this`hostInactive, this`isr, this`run, rxBuf, dev
      modifies this`txIn, this`accepted, this`writer, txBuf
      ensures Valid() && Open() && old(run) <= run
      ensures p0 <= p <= |data| && accepted == old(accepted) + data[p0..p]
      ensures writer.pc == WEnable && writer.rest == data[p..] && writer.nonblock == old(writer.nonblock)
      ensures p < |data| ==> writer.out == out && WasFull(run, |old(run)|) && |old(run)| < |run|
      ensures p0 < |data| && |old(accepted)| - |old(dev.wire)| < len - 1 ==> p0 < p
    {
      hide Inv, IsRun, Advance, View, WriteRun, Slot, WasFull;
      p, out := p0, 0;
      while p < |data|
        invariant Valid() && Open() && old(run) <= run
        invariant p0 <= p <= |data| && accepted == old(accepted) + data[p0..p]
        invariant writer.pc == WTest && writer.rest == data[p..] && writer.nonblock == old(writer.nonblock)
        invariant |old(dev.wire)| <= |dev.wire|
      {
        var in_, n;
        in_, out, n := SampleTx();
        RoomIsExact(n);
        if n == 0 {
          return;
        }
        n := Min(n, |data| - p);
        CopyInFits();
        CopyIn(data, p, in_, n);
        Joined(data, p0, p, p + n);
        p := p + n;
      }
      MoveWriter(WFillDone, WEnable);
    }

    method RaiseWe()
      requires Valid() && writer.pc == WMasked && isr == IIdle && reader.pc == RIdle
      modifies this`we, this`writer, this`run
      ensures Valid() && old(run) <= run && writer == old(writer).(pc := WRaised)
    {
      ValidInv();
      hide Inv, IsRun, Apply, Advance, InRange, WriteRun, Slot;
      assert Enabled(View(), WRaise);
      hide Enabled;
      we := true;
      writer := writer.(pc := WRaised);
      RecordWriter(WRaise);
    }

    method ControlForWriter()
      requires Valid() && writer.pc == WRaised && isr == IIdle && reader.pc == RIdle
      modifies dev`re, dev`we, dev`ac, this`writer, this`run
      ensures Valid() && old(run) <= run && writer == old(writer).(pc := WWritten)
    {
      ValidInv();
      hide Inv, IsRun, Apply, Advance, InRange, WriteRun, Slot;
      assert Enabled(View(), WControl);
      hide Enabled;
      WriteEnables(false);
      writer := writer.(pc := WWritten);
      RecordWriter(WControl);
    }

    /** The critical section that turns the transmit interrupt on: the host may act inside it,
        interrupt code may not. */
    method EnableTransmit()
      requires Valid() && Open() && writer.pc == WEnable && reader.pc == RIdle
      modifies this`we, this`writer, this`run, dev
      ensures Valid() && Open() && old(run) <= run
      ensures writer == old(writer).(pc := WAfter, published := false)
    {
      hide Inv, IsRun, View;
      MoveWriter(WMask, WMasked);
      HostActivity();
      RaiseWe();
      HostActivity();
      ControlForWriter();
      HostActivity();
      MoveWriter(WUnmask, WAfter);
    }

    lemma WaitingFacts()
      requires Valid() && writer.pc in {WWait, WLeft}
      ensures writer.outAt <= |dev.wire| && |accepted| == writer.outAt + len - 1
      ensures writer.out == txOut <==> |dev.wire| == writer.outAt
    {
      ValidInv();
      SlotInjective(writer.outAt, |dev.wire|, len);
    }

    lemma GoneNow(from: nat)
      requires Valid() && hostInactive >= timeout && from < |run|
      ensures WasGone(run, from)
    {
      assert HostGone(run[|run| - 1]);
    }

    static lemma StillGone(before: seq<State>, after: seq<State>, from: nat, earlier: nat)
      requires before <= after && earlier <= from && WasGone(before, from)
      ensures WasGone(after, earlier)
    {
      var i :| from <= i < |before| && HostGone(before[i]);
      assert after[i] == before[i];
    }

    static lemma StillFull(before: seq<State>, after: seq<State>, from: nat, earlier: nat)
      requires before <= after && earlier <= from && WasFull(before, from)
      ensures WasFull(after, earlier)
    {
      var i :| from <= i < |before| && TxUsed(before[i]) == before[i].drv.len - 1;
      assert after[i] == before[i];
    }

    /** The accesses of the wait loops, each noted in `looks`. */
    method LookAtTx() returns (out: nat, in_: nat)
      requires Valid() && Open()
      modifies this`rxIn, this`txOut, this`re, this`we, this`hostInactive, this`isr, this`run, rxBuf, dev, this`looks
      ensures Valid() && Open() && old(run) <= run && |old(dev.wire)| <= |dev.wire|
      ensures out == txOut && in_ == txIn && looks == old(looks) + [|run| - 1]
      ensures InVain(Room, writer, reader, run[|run| - 1]) <==> writer.pc == WWait && writer.out == out
      ensures InVain(Drained, writer, reader, run[|run| - 1]) <==> out != in_
    {
      hide Inv, IsRun;
      Interfere();
      looks := looks + [|run| - 1];
      out, in_ := txOut, txIn;
    }

    method LookAtRx() returns (in_: nat)
      requires Valid() && Open()
      modifies this`rxIn, this`txOut, this`re, this`we, this`hostInactive, this`isr, this`run, rxBuf, dev, this`looks
      ensures Valid() && Open() && old(run) <= run && |old(dev.popped)| <= |dev.popped|
      ensures in_ == rxIn && looks == old(looks) + [|run| - 1]
      ensures InVain(Data, writer, reader, run[|run| - 1]) <==> reader.pc == RWait && reader.in_ == in_
    {
      hide Inv, IsRun;
      Interfere();
      looks := looks + [|run| - 1];
      in_ := rxIn;
    }

    method LookAtHost() returns (gone: bool)
      requires Valid() && Open()
      modifies this`rxIn, this`txOut, this`re, this`we, this`hostInactive, this`isr, this`run, rxBuf, dev, this`looks
      ensures Valid() && Open() && old(run) <= run
      ensures gone == HostGone(run[|run| - 1]) && looks == old(looks) + [|run| - 1]
      ensures gone <==> hostInactive >= timeout
    {
      hide Inv, IsRun;
      Interfere();
      looks := looks + [|run| - 1];
      gone := hostInactive >= timeout;
    }

    /** The same in one test with another look, so that nothing comes between. */
    method LookAtHostNow() returns (gone: bool)
      requires Valid() && Open()
      modifies this`looks
      ensures Valid() && Open()
      ensures gone == HostGone(run[|run| - 1]) && looks == old(looks) + [|run| - 1]
      ensures gone <==> hostInactive >= timeout
    {
      hide Inv, IsRun;
      looks := looks + [|run| - 1];
      gone := hostInactive >= timeout;
    }

    /** Those of these looks that are not among the first `from` end in so many rounds in vain. */
    ghost predicate Waited(what: Awaited, from: nat, rounds: nat)
      reads this
    {
      from <= |looks| && Watched(what, writer, reader, run, looks[from..], rounds)
    }

    /** No look since then, or the last one was not later than now. */
    ghost predicate LooksPast(from: nat)
      reads this
    {
      from <= |looks| && (from < |looks| ==> looks[|looks| - 1] < |run|)
    }

    /** One round of the wait loop of write(): it ends the wait if there is room or the host is gone. */
    method RoundForRoom(out: nat, ghost from: nat, ghost rounds: nat) returns (ended: bool)
      requires Valid() && Open() && writer.pc == WWait && writer.out == out
      requires LooksPast(from) && Waited(Room, from, rounds)
      modifies this`rxIn, this`txOut, this`re, this`we, this`hostInactive, this`isr, this`run, rxBuf, dev, this`looks
      ensures Valid() && Open() && old(run) <= run && |old(looks)| <= |looks|
      ensures old(out != txOut) ==> ended
      ensures ended ==> out != txOut || hostInactive >= timeout
      ensures !ended ==> LooksPast(from) && Waited(Room, from, rounds + 1)
    {
      hide Inv, IsRun, Advance, Slot, Watched, View, InVain, HostGone, Contents;
      WaitingFacts();
      ghost var before, earlier := run, looks[from..];
      var now, in_ := LookAtTx();
      WaitingFacts();
      if out != now {
        return true;
      }
      ghost var seen := |run| - 1;
      ended := LookAtHost();
      if !ended {
        assert looks[from..] == earlier + [seen] + [|run| - 1];
        OneMoreRound(Room, from, before, earlier, rounds, seen);
      }
    }

    /** The wait loop of write().  `patience` is how many rounds we watch: a call still waiting then
        has found no room and the host present in each of them. */
    method SpinForRoom(out: nat, patience: nat) returns (ended: bool)
      requires Valid() && Open() && writer.pc == WWait && writer.out == out
      modifies this`rxIn, this`txOut, this`re, this`we, this`hostInactive, this`isr, this`run, rxBuf, dev
      modifies this`writer, this`looks
      ensures Valid() && Open() && old(run) <= run && |old(looks)| <= |looks|
      ensures !ended ==> writer == old(writer) && Waited(Room, |old(looks)|, patience + 1)
      ensures ended ==> writer == old(writer).(pc := WLeft)
      ensures ended ==> out != txOut || WasGone(run, |old(run)|)
      ensures old(out != txOut) ==> ended
    {
      hide Inv, IsRun, View, Advance, Slot, WasGone, Watched, Waited, LooksPast, HostGone, InVain;
      var rounds := patience;
      ghost var from := |looks|;
      NothingWatched(Room, from);
      while true
        invariant Valid() && Open() && old(run) <= run && writer == old(writer) && from <= |looks|
        invariant 0 <= rounds <= patience && LooksPast(from) && Waited(Room, from, patience - rounds)
        invariant old(out != txOut) ==> out != txOut && rounds == patience
        decreases rounds
      {
        ended := RoundForRoom(out, from, patience - rounds);
        if ended {
          break;
        }
        if rounds == 0 {
          return;
        }
        rounds := rounds - 1;
      }
      MoveWriter(WLeave, WLeft);
      if hostInactive >= timeout {
        GoneNow(|old(run)|);
      }
    }

    lemma WaitedSince(what: Awaited, first: nat, from: nat, rounds: nat)
      requires first <= from && Waited(what, from, rounds)
      ensures Waited(what, first, rounds)
    {
      WatchedAmongMore(what, writer, reader, run, looks[first..from], looks[from..], rounds);
      assert looks[first..] == looks[first..from] + looks[from..];
    }

    lemma OneMoreRound(what: Awaited, from: nat, before: seq<State>, earlier: seq<nat>, rounds: nat, index: nat)
      requires before <= run && Watched(what, writer, reader, before, earlier, rounds)
      requires from <= |looks| && looks[from..] == earlier + [index] + [|run| - 1]
      requires index < |run| && (earlier != [] ==> earlier[|earlier| - 1] <= index)
      requires InVain(what, writer, reader, run[index]) && !HostGone(run[|run| - 1])
      ensures Waited(what, from, rounds + 1)
    {
      hide Watched, InVain, HostGone;
      WatchedOnce(what, writer, reader, before, run, earlier, rounds, index, |run| - 1);
    }

    lemma NothingWatched(what: Awaited, from: nat)
      requires from == |looks|
      ensures Waited(what, from, 0) && LooksPast(from)
    {
    }

    /** The wait for room after a fill that left data over, and the test after it. */
    method AwaitRoom(out: nat, patience: nat, ghost from: nat, ghost first: nat) returns (ended: bool, room: bool)
      requires Valid() && Open() && writer.pc == WAfter && writer.out == out
      requires writer.rest != [] && !writer.nonblock && from <= |run| && WasFull(run, from) && first <= |looks|
      modifies this`rxIn, this`txOut, this`re, this`we, this`hostInactive, this`isr, this`run, rxBuf, dev
      modifies this`writer, this`looks
      ensures Valid() && Open() && old(run) <= run && |old(looks)| <= |looks|
      ensures !ended ==> writer == old(writer).(pc := WWait) && Waited(Room, first, patience + 1)
      ensures ended && room ==> writer == old(writer).(pc := WTest) && |accepted| - |dev.wire| < len - 1
      ensures ended && !room ==> writer == old(writer).(pc := WIdle) && WasGone(run, from) && WasFull(run, from)
    {
      hide Inv, IsRun, View, Advance, Slot, WasGone, WasFull, Waited;
      room := false;
      MoveWriter(WPark, WWait);
      ghost var parked := |run|;
      ended := SpinForRoom(out, patience);
      if !ended {
        WaitedSince(Room, first, |old(looks)|, patience + 1);
      } else {
        room := DecideRoom(out, parked);
        if !room {
          StillGone(run, run, parked, from);
          StillFull(old(run), run, from, from);
        }
      }
    }

    /** The test after the wait loop. */
    method DecideRoom(out: nat, ghost from: nat) returns (room: bool)
      requires Valid() && Open() && writer.pc == WLeft && writer.out == out
      requires out != txOut || WasGone(run, from)
      modifies this`rxIn, this`txOut, this`re, this`we, this`hostInactive, this`isr, this`run, rxBuf, dev
      modifies this`writer
      ensures Valid() && Open() && old(run) <= run
      ensures room ==> writer == old(writer).(pc := WTest) && |accepted| - |dev.wire| < len - 1
      ensures !room ==> writer == old(writer).(pc := WIdle) && WasGone(run, from)
    {
      hide Inv, IsRun, View, Advance, Slot, WasGone;
      WaitingFacts();
      Interfere();
      WaitingFacts();
      room := out != txOut;
      if room {
        MoveWriter(WResume, WTest);
      } else {
        MoveWriter(WGiveUp, WIdle);
        StillGone(old(run), run, from, from);
      }
    }

    /** What write() and read() return for p bytes moved. */
    static function Result(p: nat, nonblock: bool): (r: int)
      ensures p > 0 ==> r == p
      ensures p == 0 ==> r < 0
    {
      if p != 0 then p else if nonblock then -EWOULDBLOCK else -EIO
    }

    /** One round of the outer loop of write() up to its wait: fill, then enable. */
    method FillAndEnable(data: seq<Byte>, p0: nat, ghost from: nat) returns (p: nat, out: nat)
      requires Valid() && Open() && writer.pc == WTest && p0 <= |data| && writer.rest == data[p0..]
      requires reader.pc == RIdle && from <= |run|
      modifies this`rxIn, this`txOut, this`re, this`we, this`hostInactive, this`isr, this`run, rxBuf, dev
      modifies this`txIn, this`accepted, this`writer, txBuf
      ensures Valid() && Open() && old(run) <= run
      ensures p0 <= p <= |data| && accepted == old(accepted) + data[p0..p]
      ensures writer.pc == WAfter && writer.rest == data[p..] && writer.nonblock == old(writer.nonblock)
      ensures p < |data| ==> writer.out == out && WasFull(run, from)
      ensures p0 < |data| && |old(accepted)| - |old(dev.wire)| < len - 1 ==> p0 < p
    {
      hide Inv, IsRun, View, Advance, Slot, WasGone, WasFull;
      p, out := FillRing(data, p0);
      ghost var filled := run;
      EnableTransmit();
      if p < |data| {
        StillFull(filled, run, |old(run)|, from);
      }
    }

    /** altera_avalon_jtag_uart_write().  A positive result is the number of bytes accepted, and
        these are the first bytes of `data`; a negative one means that none was.  A call that
        accepts less than everything found the ring full, and a blocking one also found the
        host gone.  Every call ends unless it waits for room, and it resumes a wait only to
        accept at least one more byte. */
    method Write(data: seq<Byte>, nonblock: bool, patience: nat) returns (r: Outcome)
      requires Valid() && Open() && writer.pc == WIdle && reader.pc == RIdle
      modifies this`rxIn, this`txOut, this`re, this`we, this`hostInactive, this`isr, this`run, rxBuf, dev
      modifies this`txIn, this`accepted, this`writer, txBuf, this`looks
      ensures Valid() && Open() && old(run) <= run
      ensures r.StillWaiting? ==> !nonblock && writer.pc == WWait
      ensures r.StillWaiting? ==> Waited(Room, |old(looks)|, patience + 1)
      ensures r.Returned? ==> writer.pc == WIdle && r.value <= |data|
      ensures r.Returned? && r.value > 0 ==> accepted == old(accepted) + data[..r.value]
      ensures r.Returned? && r.value <= 0 ==>
                accepted == old(accepted) && r.value == if nonblock then -EWOULDBLOCK else -EIO
      ensures r.Returned? && r.value < |data| && data != [] ==> WasFull(run, |old(run)|)
      ensures r.Returned? && r.value < |data| && data != [] && !nonblock ==> WasGone(run, |old(run)|)
    {
      hide Inv, IsRun, View, Advance, Slot, WasGone, WasFull, Waited;
      var p, room := 0, false;
      StartWrite(data, nonblock);
      while true
        invariant Valid() && Open() && old(run) <= run && |old(looks)| <= |looks|
        invariant p <= |data| && accepted == old(accepted) + data[..p]
        invariant writer.pc == WTest && writer.rest == data[p..] && writer.nonblock == nonblock
        invariant room ==> p < |data| && |accepted| - |dev.wire| < len - 1
        decreases |data| - p, if room then 0 else 1
      {
        ghost var p0 := p;
        var out, ended;
        p, out := FillAndEnable(data, p, |old(run)|);
        assert data[..p0] + data[p0..p] == data[..p];
        if p == |data| || nonblock {
          ghost var filled := run;
          MoveWriter(WReturn, WIdle);
          if p < |data| {
            StillFull(filled, run, |old(run)|, |old(run)|);
          }
          return Returned(Result(p, nonblock));
        }
        ended, room := AwaitRoom(out, patience, |old(run)|, |old(looks)|);
        if !ended {
          return StillWaiting;
        }
        if !room {
          return Returned(Result(p, nonblock));
        }
      }
    }

    // ---------------------------------------------------------------- read()

    /** Steps of read() that only move its program counter, to `pc`. */
    ghost predicate ReaderMoves(step: Step, pc: ReaderPc)
      reads this
    {
      && isr == IIdle && writer.pc !in {WMasked, WRaised, WWritten}
      && match step
         case REnter => reader.pc == RTest && pc == if reader.space > 0 then RDrain else RFinish
         case RPark => reader.pc == RAfter && pc == if reader.got != [] || reader.nonblock then RFinish else RWait
         case RLeave => reader.pc == RWait && (reader.in_ != rxIn || hostInactive >= timeout) && pc == RLeft
         case RResume => reader.pc == RLeft && reader.in_ != rxIn && pc == RTest
         case RStop => reader.pc == RLeft && reader.in_ == rxIn && pc == RFinish
         case RMask => reader.pc == RFinish && reader.got != [] && pc == RMasked
         case RReturnEmpty => reader.pc == RFinish && reader.got == [] && pc == RIdle
         case _ => false
    }

    lemma ReaderMoveIs(step: Step, pc: ReaderPc)
      requires ReaderMoves(step, pc) && InRange(View())
      ensures IsReaderStep(step) && Enabled(View(), step)
      ensures ApplyReader(View(), step) == View().(r := reader.(pc := pc))
    {
      hide ReadRun, Slot, Advance, InRange;
    }

    ghost method MoveReader(step: Step, pc: ReaderPc)
      requires Valid() && ReaderMoves(step, pc)
      modifies this`reader, this`run
      ensures Valid() && old(run) <= run && |old(run)| < |run|
      ensures reader == old(reader).(pc := pc)
    {
      ValidInv();
      ReaderMoveIs(step, pc);
      hide Inv, IsRun, InRange, Enabled, ApplyReader, ReaderMoves;
      ghost var s := View();
      reader := reader.(pc := pc);
      assert View() == s.(r := reader);
      hide View;
      RecordReader(step);
    }

    ghost method StartRead(space: nat, nonblock: bool)
      requires Valid() && Open() && reader.pc == RIdle
      modifies this`reader, this`run
      ensures Valid() && old(run) <= run
      ensures reader == Reader(RTest, space, nonblock, [], [], 0, 0, 0, 0)
    {
      ValidInv();
      hide Inv, IsRun, Apply, Advance, InRange, ReadRun, Slot;
      reader := Reader(RTest, space, nonblock, [], [], 0, 0, 0, 0);
      RecordReader(RStart(space, nonblock));
    }

    /** Sample both indices and compute how much can be read contiguously. */
    method SampleRx() returns (in_: nat, out: nat, n: nat)
      requires Valid() && Open() && reader.pc == RDrain
      modifies this`rxIn, this`txOut, this`re, this`we, this`hostInactive, this`isr, this`run, rxBuf, dev
      modifies this`reader
      ensures Valid() && Open() && old(run) <= run && |old(run)| < |run|
      ensures old(dev.popped) <= dev.popped
      ensures in_ == rxIn && out == rxOut && InRange(View()) && n == ReadRun(len, rxIn, rxOut)
      ensures reader == old(reader).(pc := if n == 0 then RAfter else RCopy, in_ := in_, inAt := |dev.popped|,
                out := out, n := Min(n, old(reader.space)), part := [])
    {
      hide Inv, IsRun, Apply, Advance, ReadRun, Slot;
      Interfere();
      ValidInv();
      in_, out := rxIn, rxOut;
      n := ContiguousData(in_, out);
      assert Enabled(View(), RTake);
      hide Enabled, InRange;
      reader := reader.(pc := if n == 0 then RAfter else RCopy, in_ := in_, inAt := |dev.popped|,
                out := out, n := Min(n, reader.space), part := []);
      RecordReader(RTake);
    }

    method ContiguousData(in_: nat, out: nat) returns (n: nat)
      requires in_ < len && out < len
      ensures n == ReadRun(len, in_, out)
    {
      if in_ >= out {
        n := in_ - out;
      } else {
        n := len - out;
      }
    }

    /** One byte of the memcpy out of the ring. */
    method CopyByteOut(buffer: array<Byte>, p: nat, k: nat)
      requires Valid() && Open() && reader.pc == RCopy && |reader.part| < reader.n
      requires reader.out + reader.n <= len && k == reader.out + |reader.part|
      requires buffer != rxBuf && buffer != txBuf && p < buffer.Length
      modifies this`reader, this`run, buffer
      ensures Valid() && Open() && old(run) <= run
      ensures reader == old(reader).(part := old(reader.part) + [buffer[p]])
      ensures buffer[..] == old(buffer[..])[p := buffer[p]]
    {
      ValidInv();
      hide Inv, IsRun, Apply, Advance, InRange, ReadRun, Slot;
      assert Enabled(View(), RCopyByte);
      hide Enabled;
      buffer[p] := rxBuf[k];
      reader := reader.(part := reader.part + [buffer[p]]);
      RecordReader(RCopyByte);
    }

    static function Consumed(s: State): (t: State)
      requires s.drv.len > 0 && s.r.n <= s.r.space
    {
      s.(drv := s.drv.(rxOut := Advance(s.r.out, s.r.n, s.drv.len)),
         h := s.h.(delivered := s.h.delivered + s.r.part),
         r := s.r.(pc := if s.r.space > s.r.n then RDrain else RAfter,
                   space := s.r.space - s.r.n, got := s.r.got + s.r.part, part := []))
    }

    static lemma PublishIs(s: State)
      requires InRange(s) && s.r.pc == RCopy && |s.r.part| == s.r.n <= s.r.space && s.isr.IIdle? && !WriterMasked(s)
      ensures IsReaderStep(RPublish) && Enabled(s, RPublish) && ApplyReader(s, RPublish) == Consumed(s)
    {
      hide InRange, Advance, ReadRun;
    }

    method ConsumeRx(out: nat, n: nat)
      requires Valid() && Open() && reader.pc == RCopy && |reader.part| == reader.n == n <= reader.space
      requires reader.out == out
      modifies this`rxOut, this`reader, this`delivered, this`run
      ensures Valid() && Open() && old(run) <= run
      ensures reader == old(reader).(pc := if old(reader.space) > n then RDrain else RAfter,
                space := old(reader.space) - n, got := old(reader.got) + old(reader.part), part := [])
      ensures delivered == old(delivered) + old(reader.part)
    {
      ValidInv();
      PublishIs(View());
      hide Inv, IsRun, InRange, Advance, Enabled, ApplyReader, IsReaderStep, Apply;
      ghost var t := Consumed(View());
      rxOut := Advance(out, n, len);
      delivered := delivered + reader.part;
      reader := t.r;
      assert View() == t;
      hide View, Consumed;
      RecordReader(RPublish);
    }

    /** Some state from number `from` of the run on had an empty receive ring. */
    static ghost predicate WasEmpty(run: seq<State>, from: nat) {
      exists i :: from <= i < |run| && RxUsed(run[i]) == 0
    }

    static lemma StillEmpty(before: seq<State>, after: seq<State>, from: nat, earlier: nat)
      requires before <= after && earlier <= from && WasEmpty(before, from)
      ensures WasEmpty(after, earlier)
    {
      var i :| from <= i < |before| && RxUsed(before[i]) == 0;
      assert after[i] == before[i];
    }

    lemma DataIsExact(n: nat)
      requires Valid() && InRange(View()) && n == ReadRun(len, rxIn, rxOut)
      ensures |delivered| <= |dev.popped| < |delivered| + len
      ensures n == 0 <==> |dev.popped| == |delivered|
      ensures n == 0 ==> forall from: nat :: from < |run| ==> WasEmpty(run, from)
    {
      ValidInv();
      ReadRunExact(len, |dev.popped|, |delivered|);
      if n == 0 {
        assert RxUsed(run[|run| - 1]) == 0;
      }
    }

    lemma CopyOutFits()
      requires Valid() && reader.pc == RCopy
      ensures reader.out + reader.n <= len && 0 < reader.n <= reader.space
    {
      ValidInv();
    }

    /** The memcpy of n bytes out of the ring, and the new rx_out. */
    method CopyOut(buffer: array<Byte>, p: nat, out: nat, n: nat)
      requires Valid() && Open() && reader.pc == RCopy && reader.part == [] && reader.n == n && reader.out == out
      requires buffer != rxBuf && buffer != txBuf && p + n <= buffer.Length
      requires out + n <= len && 0 < n <= reader.space && reader.got == buffer[..p]
      modifies this`rxIn, this`txOut, this`re, this`we, this`hostInactive, this`isr, this`run, rxBuf, dev
      modifies this`rxOut, this`delivered, this`reader, buffer
      ensures Valid() && Open() && old(run) <= run
      ensures buffer[..p] == old(buffer[..p]) && buffer[p + n..] == old(buffer[p + n..])
      ensures delivered == old(delivered) + buffer[p..p + n] && reader.got == buffer[..p + n]
      ensures reader == old(reader).(pc := if old(reader.space) > n then RDrain else RAfter,
                space := old(reader.space) - n, got := reader.got)
      ensures |old(dev.popped)| <= |dev.popped|
    {
      hide Inv, IsRun, Advance, View, ReadRun, Slot;
      for j := 0 to n
        invariant Valid() && Open() && old(run) <= run && delivered == old(delivered)
        invariant |old(dev.popped)| <= |dev.popped|
        invariant reader == old(reader).(part := buffer[p..p + j])
        invariant buffer[..p] == old(buffer[..p]) && buffer[p + n..] == old(buffer[p + n..])
      {
        Interfere();
        ghost var sofar := buffer[p..p + j];
        CopyByteOut(buffer, p + j, out + j);
        assert buffer[p..p + j + 1] == sofar + [buffer[p + j]];
      }
      Interfere();
      ConsumeRx(out, n);
      assert buffer[..p] + buffer[p..p + n] == buffer[..p + n];
    }

    /** One iteration of the drain loop: n is 0 exactly when the ring was found empty. */
    method DrainOnce(buffer: array<Byte>, p: nat, space: nat) returns (n: nat, in_: nat)
      requires Valid() && Open() && reader.pc == RDrain && reader.space == space > 0
      requires buffer != rxBuf && buffer != txBuf && p + space <= buffer.Length && reader.got == buffer[..p]
      modifies this`rxIn, this`txOut, this`re, this`we, this`hostInactive, this`isr, this`run, rxBuf, dev
      modifies this`rxOut, this`delivered, this`reader, buffer
      ensures Valid() && Open() && old(run) <= run && |old(dev.popped)| <= |dev.popped|
      ensures n <= space && reader.space == space - n
      ensures buffer[..p] == old(buffer[..p]) && buffer[p + n..] == old(buffer[p + n..])
      ensures delivered == old(delivered) + buffer[p..p + n] && reader.got == buffer[..p + n]
      ensures reader.pc == (if n == 0 || reader.space == 0 then RAfter else RDrain)
      ensures reader.nonblock == old(reader.nonblock)
      ensures n == 0 ==> reader.in_ == in_ && WasEmpty(run, |old(run)|) && |dev.popped| == |delivered|
    {
      hide Inv, IsRun, View, Advance, Slot, ReadRun, WasEmpty;
      var out;
      in_, out, n := SampleRx();
      DataIsExact(n);
      n := Min(n, space);
      if n > 0 {
        CopyOutFits();
        CopyOut(buffer, p, out, n);
      }
    }

    /** The drain loop of read(): at least one byte if there is one, at most `space`. */
    method DrainRing(buffer: array<Byte>, space0: nat) returns (p: nat, in_: nat)
      requires Valid() && Open() && reader.pc == RDrain && reader.got == [] && reader.space == space0 > 0
      requires buffer != rxBuf && buffer != txBuf && space0 <= buffer.Length
      modifies this`rxIn, this`txOut, this`re, this`we, this`hostInactive, this`isr, this`run, rxBuf, dev
      modifies this`rxOut, this`delivered, this`reader, buffer
      ensures Valid() && Open() && old(run) <= run
      ensures p <= space0 && buffer[p..] == old(buffer[p..])
      ensures delivered == old(delivered) + buffer[..p]
      ensures reader.pc == RAfter && reader.got == buffer[..p] && reader.nonblock == old(reader.nonblock)
      ensures reader.space == space0 - p
      ensures p < space0 ==> reader.in_ == in_ && exists from: nat :: |old(run)| <= from && WasEmpty(run, from)
      ensures |old(dev.popped)| > |old(delivered)| ==> p > 0
    {
      hide Inv, IsRun, View, Advance, Slot, ReadRun, WasEmpty;
      p, in_ := 0, 0;
      while p < space0
        invariant Valid() && Open() && old(run) <= run && |old(dev.popped)| <= |dev.popped|
        invariant p <= space0 && buffer[p..] == old(buffer[p..])
        invariant delivered == old(delivered) + buffer[..p] && reader.got == buffer[..p]
        invariant reader.pc == (if p < space0 then RDrain else RAfter)
        invariant reader.nonblock == old(reader.nonblock) && reader.space == space0 - p
      {
        var n;
        ghost var got := buffer[..p];
        n, in_ := DrainOnce(buffer, p, space0 - p);
        assert got + buffer[p..p + n] == buffer[..p + n];
        if n == 0 {
          return;
        }
        p := p + n;
      }
    }

    method RaiseRe()
      requires Valid() && reader.pc == RMasked && isr == IIdle && writer.pc == WIdle
      modifies this`re, this`reader, this`run
      ensures Valid() && old(run) <= run && re && reader == old(reader).(pc := RRaised)
    {
      ValidInv();
      hide Inv, IsRun, Apply, Advance, InRange, ReadRun, Slot;
      assert Enabled(View(), RRaise);
      hide Enabled;
      re := true;
      reader := reader.(pc := RRaised);
      RecordReader(RRaise);
    }

    method ControlForReader()
      requires Valid() && reader.pc == RRaised && isr == IIdle && writer.pc == WIdle
      modifies dev`re, dev`we, dev`ac, this`reader, this`run
      ensures Valid() && old(run) <= run && dev.re == re && reader == old(reader).(pc := RWritten)
    {
      ValidInv();
      hide Inv, IsRun, Apply, Advance, InRange, ReadRun, Slot;
      assert Enabled(View(), RControl);
      hide Enabled;
      WriteEnables(false);
      reader := reader.(pc := RWritten);
      RecordReader(RControl);
    }

    static lemma UnmaskIs(s: State)
      requires InRange(s) && s.r.pc == RWritten && s.isr.IIdle? && !WriterMasked(s)
      ensures IsReaderStep(RUnmask) && Enabled(s, RUnmask)
      ensures ApplyReader(s, RUnmask)
              == s.(r := s.r.(pc := RIdle, got := []), h := s.h.(returned := s.h.returned + s.r.got))
    {
      hide InRange, Advance, ReadRun;
    }

    ghost method FinishRead()
      requires Valid() && reader.pc == RWritten && isr == IIdle && writer.pc == WIdle
      modifies this`reader, this`returned, this`run
      ensures Valid() && Open() && old(run) <= run && reader.pc == RIdle
      ensures returned == old(returned) + old(reader.got)
    {
      ValidInv();
      UnmaskIs(View());
      hide Inv, IsRun, InRange, Enabled, ApplyReader, IsReaderStep, Apply;
      returned := returned + reader.got;
      reader := reader.(pc := RIdle, got := []);
      RecordReader(RUnmask);
    }

    /** The critical section that turns the receive interrupt on. */
    method EnableReceive()
      requires Valid() && Open() && reader.pc == RFinish && reader.got != [] && writer.pc == WIdle
      modifies this`re, this`reader, this`returned, this`run, dev
      ensures Valid() && Open() && old(run) <= run && reader.pc == RIdle
      ensures returned == old(returned) + old(reader.got)
      ensures re
    {
      hide Inv, IsRun, View;
      MoveReader(RMask, RMasked);
      HostActivity();
      RaiseRe();
      HostActivity();
      ControlForReader();
      HostActivity();
      FinishRead();
    }

    lemma ReaderWaitingFacts()
      requires Valid() && reader.pc in {RWait, RLeft}
      ensures reader.inAt == |delivered| <= |dev.popped| && reader.got == []
      ensures reader.in_ == rxIn <==> |dev.popped| == reader.inAt
    {
      ValidInv();
      SlotInjective(reader.inAt, |dev.popped|, len);
    }

    /** One round of the wait loop of read(). */
    method RoundForData(in_: nat, ghost from: nat, ghost rounds: nat) returns (ended: bool)
      requires Valid() && Open() && reader.pc == RWait && reader.in_ == in_
      requires LooksPast(from) && Waited(Data, from, rounds)
      modifies this`rxIn, this`txOut, this`re, this`we, this`hostInactive, this`isr, this`run, rxBuf, dev, this`looks
      ensures Valid() && Open() && old(run) <= run && |old(looks)| <= |looks|
      ensures old(in_ != rxIn) ==> ended
      ensures ended ==> in_ != rxIn || hostInactive >= timeout
      ensures !ended ==> LooksPast(from) && Waited(Data, from, rounds + 1)
    {
      hide Inv, IsRun, Advance, Slot, Watched, View, InVain, HostGone, Contents;
      ReaderWaitingFacts();
      ghost var before, earlier := run, looks[from..];
      var now := LookAtRx();
      ReaderWaitingFacts();
      if in_ != now {
        return true;
      }
      ghost var seen := |run| - 1;
      ended := LookAtHost();
      if !ended {
        assert looks[from..] == earlier + [seen] + [|run| - 1];
        OneMoreRound(Data, from, before, earlier, rounds, seen);
      }
    }

    /** The wait loop of read().  `patience` is how many rounds we watch: a call still waiting then
        has found no data and the host present in each of them. */
    method SpinForData(in_: nat, patience: nat) returns (ended: bool)
      requires Valid() && Open() && reader.pc == RWait && reader.in_ == in_
      modifies this`rxIn, this`txOut, this`re, this`we, this`hostInactive, this`isr, this`run, rxBuf, dev
      modifies this`reader, this`looks
      ensures Valid() && Open() && old(run) <= run && |old(looks)| <= |looks|
      ensures !ended ==> reader == old(reader) && Waited(Data, |old(looks)|, patience + 1)
      ensures ended ==> reader == old(reader).(pc := RLeft)
      ensures ended ==> in_ != rxIn || WasGone(run, |old(run)|)
      ensures old(in_ != rxIn) ==> ended
    {
      hide Inv, IsRun, View, Advance, Slot, WasGone, Watched, Waited, LooksPast, HostGone, InVain;
      var rounds := patience;
      ghost var from := |looks|;
      NothingWatched(Data, from);
      while true
        invariant Valid() && Open() && old(run) <= run && reader == old(reader) && from <= |looks|
        invariant 0 <= rounds <= patience && LooksPast(from) && Waited(Data, from, patience - rounds)
        invariant old(in_ != rxIn) ==> in_ != rxIn && rounds == patience
        decreases rounds
      {
        ended := RoundForData(in_, from, patience - rounds);
        if ended {
          break;
        }
        if rounds == 0 {
          return;
        }
        rounds := rounds - 1;
      }
      MoveReader(RLeave, RLeft);
      if hostInactive >= timeout {
        GoneNow(|old(run)|);
      }
    }

    /** The wait for data after a drain that found none, and the test after it. */
    method AwaitData(in_: nat, patience: nat, ghost from: nat, ghost first: nat) returns (ended: bool, data: bool)
      requires Valid() && Open() && reader.pc == RWait && reader.in_ == in_
      requires from <= |run| && WasEmpty(run, from) && first <= |looks|
      modifies this`rxIn, this`txOut, this`re, this`we, this`hostInactive, this`isr, this`run, rxBuf, dev
      modifies this`reader, this`looks
      ensures Valid() && Open() && old(run) <= run && |old(looks)| <= |looks|
      ensures !ended ==> reader == old(reader) && Waited(Data, first, patience + 1)
      ensures ended && data ==> reader == old(reader).(pc := RTest) && |dev.popped| > |delivered|
      ensures ended && !data ==> reader == old(reader).(pc := RFinish) && WasGone(run, from) && WasEmpty(run, from)
    {
      hide Inv, IsRun, View, Advance, Slot, WasGone, WasEmpty, Waited;
      data := false;
      ended := SpinForData(in_, patience);
      if !ended {
        WaitedSince(Data, first, |old(looks)|, patience + 1);
      } else {
        data := DecideData(in_, |old(run)|);
        if !data {
          StillGone(run, run, |old(run)|, from);
          StillEmpty(old(run), run, from, from);
        }
      }
    }

    /** The test after the wait loop. */
    method DecideData(in_: nat, ghost from: nat) returns (data: bool)
      requires Valid() && Open() && reader.pc == RLeft && reader.in_ == in_
      requires in_ != rxIn || WasGone(run, from)
      modifies this`rxIn, this`txOut, this`re, this`we, this`hostInactive, this`isr, this`run, rxBuf, dev
      modifies this`reader
      ensures Valid() && Open() && old(run) <= run
      ensures data ==> reader == old(reader).(pc := RTest) && |dev.popped| > |delivered|
      ensures !data ==> reader == old(reader).(pc := RFinish) && WasGone(run, from)
    {
      hide Inv, IsRun, View, Advance, Slot, WasGone;
      ReaderWaitingFacts();
      Interfere();
      ReaderWaitingFacts();
      data := in_ != rxIn;
      if data {
        MoveReader(RResume, RTest);
      } else {
        MoveReader(RStop, RFinish);
        StillGone(old(run), run, from, from);
      }
    }

    /** One round of the outer loop of read() up to its wait. */
    method DrainRound(buffer: array<Byte>, space: nat, ghost from: nat) returns (p: nat, in_: nat)
      requires Valid() && Open() && reader.pc == RTest && reader.got == [] && reader.space == space > 0
      requires buffer != rxBuf && buffer != txBuf && space <= buffer.Length && from <= |run|
      modifies this`rxIn, this`txOut, this`re, this`we, this`hostInactive, this`isr, this`run, rxBuf, dev
      modifies this`rxOut, this`delivered, this`reader, buffer
      ensures Valid() && Open() && old(run) <= run
      ensures p <= space && buffer[p..] == old(buffer[p..])
      ensures delivered == old(delivered) + buffer[..p]
      ensures reader.got == buffer[..p] && reader.nonblock == old(reader.nonblock) && reader.space == space - p
      ensures reader.pc == if p > 0 || reader.nonblock then RFinish else RWait
      ensures p < space ==> reader.in_ == in_ && WasEmpty(run, from)
      ensures |old(dev.popped)| > |old(delivered)| ==> p > 0
    {
      hide Inv, IsRun, View, Advance, Slot, WasEmpty;
      MoveReader(REnter, RDrain);
      ghost var entered := |run|;
      p, in_ := DrainRing(buffer, space);
      ghost var drained := run;
      MoveReader(RPark, if p > 0 || reader.nonblock then RFinish else RWait);
      if p < space {
        ghost var since: nat :| entered <= since && WasEmpty(drained, since);
        StillEmpty(drained, run, since, from);
      }
    }

    /** The end of read(): with data in hand the ring has room, so receive is turned on. */
    method FinishCall(buffer: array<Byte>, p: nat, ghost from: nat)
      requires Valid() && Open() && reader.pc == RFinish && writer.pc == WIdle
      requires p <= buffer.Length && reader.got == buffer[..p] && from <= |run| && buffer != rxBuf
      modifies this`re, this`reader, this`returned, this`run, dev
      ensures Valid() && Open() && old(run) <= run && reader.pc == RIdle
      ensures returned == old(returned) + buffer[..p]
      ensures p > 0 ==> re
      ensures WasEmpty(old(run), from) ==> WasEmpty(run, from)
      ensures WasGone(old(run), from) ==> WasGone(run, from)
    {
      hide Inv, IsRun, View, Advance, Slot, WasGone, WasEmpty;
      if p > 0 {
        EnableReceive();
      } else {
        MoveReader(RReturnEmpty, RIdle);
      }
      if WasEmpty(old(run), from) {
        StillEmpty(old(run), run, from, from);
      }
      if WasGone(old(run), from) {
        StillGone(old(run), run, from, from);
      }
    }

    /** The outer loop of read(): drain, and wait if there was nothing; a wait that ends with data
        leads to a drain that gets some, so there are at most two rounds. */
    method DrainOrWait(buffer: array<Byte>, space: nat, nonblock: bool, patience: nat) returns (ended: bool, p: nat)
      requires Valid() && Open() && writer.pc == WIdle && reader.pc == RTest && space > 0
      requires reader.space == space && reader.got == [] && reader.nonblock == nonblock
      requires buffer != rxBuf && buffer != txBuf && space <= buffer.Length
      modifies this`rxIn, this`txOut, this`re, this`we, this`hostInactive, this`isr, this`run, rxBuf, dev
      modifies this`rxOut, this`delivered, this`reader, buffer, this`looks
      ensures Valid() && Open() && old(run) <= run && |old(looks)| <= |looks|
      ensures !ended ==> !nonblock && reader.pc == RWait && p == 0
      ensures !ended ==> Waited(Data, |old(looks)|, patience + 1)
      ensures ended ==> reader.pc == RFinish && p <= space && reader.got == buffer[..p]
      ensures delivered == old(delivered) + buffer[..p] && buffer[p..] == old(buffer[p..])
      ensures ended && p < space ==> WasEmpty(run, |old(run)|)
      ensures ended && p == 0 && !nonblock ==> WasGone(run, |old(run)|)
    {
      hide Inv, IsRun, View, Advance, Slot, WasGone, WasEmpty, Waited;
      var more := false;
      p := 0;
      while true
        invariant Valid() && Open() && old(run) <= run && p == 0 && |old(looks)| <= |looks|
        invariant reader.pc == RTest && reader.space == space && reader.got == [] && reader.nonblock == nonblock
        invariant buffer[..] == old(buffer[..]) && delivered == old(delivered)
        invariant more ==> |dev.popped| > |delivered|
        decreases if more then 0 else 1
      {
        var in_;
        p, in_ := DrainRound(buffer, space, |old(run)|);
        if p > 0 || nonblock {
          return true, p;
        }
        ended, more := AwaitData(in_, patience, |old(run)|, |old(looks)|);
        if !ended || !more {
          return;
        }
      }
    }

    /** altera_avalon_jtag_uart_read().  A positive result is the number of bytes moved to the
        front of `buffer`, next in line of all that was received; a negative one means none.
        A call that gets less than it asked for found the ring empty, and a blocking one that
        gets nothing also found the host gone. */
    method Read(buffer: array<Byte>, space: nat, nonblock: bool, patience: nat) returns (r: Outcome)
      requires Valid() && Open() && reader.pc == RIdle && writer.pc == WIdle
      requires buffer != rxBuf && buffer != txBuf && space <= buffer.Length
      modifies this`rxIn, this`txOut, this`re, this`we, this`hostInactive, this`isr, this`run, rxBuf, dev
      modifies this`rxOut, this`delivered, this`returned, this`reader, buffer, this`looks
      ensures Valid() && Open() && old(run) <= run
      ensures r.StillWaiting? ==> !nonblock && reader.pc == RWait && delivered == old(delivered)
      ensures r.StillWaiting? ==> Waited(Data, |old(looks)|, patience + 1)
      ensures r.Returned? ==> reader.pc == RIdle && r.value <= space
      ensures r.Returned? && r.value > 0 ==>
                && delivered == old(delivered) + buffer[..r.value] && returned == old(returned) + buffer[..r.value]
                && buffer[r.value..] == old(buffer[r.value..]) && re
      ensures r.Returned? && r.value <= 0 ==>
                && delivered == old(delivered) && returned == old(returned) && buffer[..] == old(buffer[..])
                && r.value == if nonblock then -EWOULDBLOCK else -EIO
      ensures r.Returned? && r.value < space && space > 0 ==> WasEmpty(run, |old(run)|)
      ensures r.Returned? && r.value < 0 < space && !nonblock ==> WasGone(run, |old(run)|)
    {
      hide Inv, IsRun, View, Advance, Slot, WasGone, WasEmpty, Waited;
      var ended, p := true, 0;
      StartRead(space, nonblock);
      ghost var started := |run|;
      if space > 0 {
        ended, p := DrainOrWait(buffer, space, nonblock, patience);
      } else {
        MoveReader(REnter, RFinish);
      }
      if !ended {
        return StillWaiting;
      }
      if space > 0 && p < space {
        StillEmpty(run, run, started, |old(run)|);
      }
      if space > 0 && p == 0 && !nonblock {
        StillGone(run, run, started, |old(run)|);
      }
      FinishCall(buffer, p, |old(run)|);
      return Returned(Result(p, nonblock));
    }

    // ---------------------------------------------------------------- ioctl() and close()

    /** TIOCSTIMEOUT.  It always leaves a timeout of at least 2, and one of 2 .. INT_MAX - 1
        exactly as asked, unless the driver gave up on timeouts at start. */
    method SetTimeout(arg: int) returns (rc: int)
      requires Valid() && Open()
      modifies this`timeout, this`run
      ensures Valid() && Open() && old(run) <= run
      ensures old(timeout) == INT_MAX ==> rc == -ENOTTY && timeout == INT_MAX
      ensures old(timeout) != INT_MAX ==> rc == 0 && timeout == if 2 <= arg < INT_MAX then arg else INT_MAX - 1
    {
      ValidInv();
      hide IsRun, Apply, Advance, RingInv, TxInv, RxInv, WriterInv, ReaderInv, IsrInv, EnableInv;
      rc := -ENOTTY;
      if timeout != INT_MAX {
        timeout := if 2 <= arg < INT_MAX then arg else INT_MAX - 1;
        rc := 0;
      }
      hide Receive, ReceiveEnd, Send, SendEnd, AfterControl, UartSystem.Timeout, InRange, HostInv, Inv;
      RecordOther(UartSystem.Step.SetTimeout(arg));
    }

    /** TIOCGCONNECTED. */
    method GetConnected() returns (rc: int, connected: int)
      requires Valid()
      ensures timeout == INT_MAX ==> rc == -ENOTTY
      ensures timeout != INT_MAX ==> rc == 0 && (connected == 1 <==> !HostGone(View())) && connected in {0, 1}
    {
      rc, connected := -ENOTTY, 0;
      if timeout != INT_MAX {
        connected := if hostInactive < timeout then 1 else 0;
        rc := 0;
      }
    }

    lemma TxIndices()
      requires Valid()
      ensures txOut == txIn ==> dev.wire == accepted
      ensures txOut != txIn ==> dev.wire < accepted
    {
      ValidInv();
      TxEmptyExact(View());
    }

    /** One test of the loop of close(). */
    method RoundForDrain(ghost from: nat, ghost rounds: nat) returns (empty: bool, gone: bool)
      requires Valid() && Open() && LooksPast(from) && Waited(Drained, from, rounds)
      modifies this`rxIn, this`txOut, this`re, this`we, this`hostInactive, this`isr, this`run, rxBuf, dev, this`looks
      ensures Valid() && Open() && old(run) <= run && |old(looks)| <= |looks|
      ensures empty <==> txOut == txIn
      ensures gone ==> hostInactive >= timeout
      ensures old(txOut == txIn) ==> empty
      ensures !empty && !gone ==> LooksPast(from) && Waited(Drained, from, rounds + 1)
    {
      hide Inv, IsRun, Advance, Slot, Watched, View, InVain, HostGone, Contents;
      ghost var before, earlier := run, looks[from..];
      TxIndices();
      var out, in_ := LookAtTx();
      TxIndices();
      empty, gone := out == in_, false;
      if !empty {
        gone := LookAtHostNow();
        if !gone {
          ghost var seen := |run| - 1;
          assert looks[from..] == earlier + [seen] + [seen];
          OneMoreRound(Drained, from, before, earlier, rounds, seen);
        }
      }
    }

    /** altera_avalon_jtag_uart_close(): wait until the transmit ring is empty.  A blocking close
        that returns although bytes are left found the host gone; a non-blocking one is refused
        only when bytes are left.  A call that still waits has found bytes left and the host present
        in each of the rounds that we watch. */
    method Close(nonblock: bool, patience: nat) returns (r: Outcome)
      requires Valid() && Open()
      modifies this`rxIn, this`txOut, this`re, this`we, this`hostInactive, this`isr, this`run, rxBuf, dev, this`looks
      ensures Valid() && Open() && old(run) <= run
      ensures r.Returned? ==> r.value in {0, -EWOULDBLOCK}
      ensures r == Returned(0) ==> dev.wire == accepted || WasGone(run, |old(run)| - 1)
      ensures r == Returned(-EWOULDBLOCK) ==> nonblock && dev.wire < accepted
      ensures r.StillWaiting? ==> !nonblock && dev.wire < accepted && Waited(Drained, |old(looks)|, patience + 1)
      ensures old(txOut == txIn) ==> r == Returned(0)
    {
      hide Inv, IsRun, View, Advance, Slot, WasGone, Watched, Waited, LooksPast, HostGone, InVain;
      var rounds := patience;
      ghost var from := |looks|;
      NothingWatched(Drained, from);
      while true
        invariant Valid() && Open() && old(run) <= run && from <= |looks|
        invariant 0 <= rounds <= patience && LooksPast(from) && Waited(Drained, from, patience - rounds)
        invariant old(txOut == txIn) ==> txOut == txIn && rounds == patience
        decreases rounds
      {
        var empty, gone := RoundForDrain(from, patience - rounds);
        TxIndices();
        if empty {
          return Returned(0);
        }
        if gone {
          GoneNow(|old(run)| - 1);
          return Returned(0);
        }
        if nonblock {
          return Returned(-EWOULDBLOCK);
        }
        if rounds == 0 {
          return StillWaiting;
        }
        rounds := rounds - 1;
      }
    }
  }
}
