/** The invariant of the UART step system and its proof, step by step. */
module UartInvariant {
  import opened Arithmetic
  import opened UartRing
  import opened UartSystem

  /** A ring holds exactly the bytes of `put` that are not in `took`, which is a prefix of it,
      each in its slot, and never more than all slots but one. */
  predicate RingInv(buf: seq<Byte>, in_: nat, out: nat, put: seq<Byte>, took: seq<Byte>) {
    && |took| <= |put| < |took| + |buf|
    && in_ == Slot(|put|, |buf|)
    && out == Slot(|took|, |buf|)
    && took == put[..|took|]
    && forall i :: |took| <= i < |put| ==> buf[Slot(i, |buf|)] == put[i]
  }

  /** The transmit ring is the part of `accepted` that the device does not have yet. */
  predicate TxInv(s: State) {
    RingInv(s.drv.txBuf, s.drv.txIn, s.drv.txOut, s.h.accepted, s.h.sent)
  }

  /** The receive ring is the part of `taken` that no read() has removed yet. */
  predicate RxInv(s: State) {
    RingInv(s.drv.rxBuf, s.drv.rxIn, s.drv.rxOut, s.h.taken, s.h.delivered)
  }

  /** The first `copied` bytes of a memcpy into the ring are in place. */
  predicate CopiedIn(buf: seq<Byte>, in_: nat, rest: seq<Byte>, copied: nat) {
    && copied <= |rest| && in_ + copied <= |buf|
    && forall j :: 0 <= j < copied ==> buf[in_ + j] == rest[j]
  }

  /** The writer has data left although it stopped filling: its snapshot showed a full ring. */
  predicate SawFull(s: State) {
    && s.w.outAt <= |s.h.sent|
    && s.drv.len > 0 && s.w.out == Slot(s.w.outAt, s.drv.len)
    && |s.h.accepted| == s.w.outAt + s.drv.len - 1
  }

  predicate WriterInv(s: State)
    requires InRange(s)
  {
    && (s.w.pc != WIdle ==>
          s.w.base <= |s.h.accepted| && s.w.data == s.h.accepted[s.w.base..] + s.w.rest)
    && (s.w.pc == WCopy ==>
          && s.w.in_ == s.drv.txIn
          && s.w.outAt <= |s.h.sent|
          && 0 < s.w.n <= |s.w.rest| && s.w.copied <= s.w.n
          && s.w.in_ + s.w.n <= s.drv.len
          && |s.h.accepted| + s.w.n < s.w.outAt + s.drv.len
          && CopiedIn(s.drv.txBuf, s.w.in_, s.w.rest, s.w.copied))
    && (s.w.pc in {WEnable, WMasked, WRaised, WWritten, WAfter} && s.w.rest != [] ==> SawFull(s))
    && (s.w.pc in {WWait, WLeft} ==> SawFull(s) && s.w.rest != [])
    && (s.w.pc in {WIdle, WAfter, WWait, WLeft} ==> !s.w.published)
  }

  predicate ReaderInv(s: State)
    requires InRange(s)
  {
    && s.h.delivered == s.h.returned + s.r.got
    && (s.r.pc == RCopy ==>
          && s.r.out == s.drv.rxOut
          && s.r.inAt <= |s.h.taken|
          && 0 < s.r.n <= s.r.space && |s.r.part| <= s.r.n
          && s.r.out + s.r.n <= s.drv.len
          && |s.h.delivered| + s.r.n <= s.r.inAt
          && s.r.part == s.h.taken[|s.h.delivered|..|s.h.delivered| + |s.r.part|])
    && (s.r.pc == RDrain ==> s.r.space > 0)
    && (s.r.pc in {RIdle, RTest, RWait, RLeft} ==> s.r.got == [])
    && (s.r.pc in {RMasked, RRaised, RWritten} ==> s.r.got != [])
    && (s.r.pc in {RAfter} && s.r.got == [] ==> SawEmpty(s))
    && (s.r.pc in {RWait, RLeft} ==> SawEmpty(s))
  }

  /** The reader found nothing: its snapshot showed an empty ring. */
  predicate SawEmpty(s: State) {
    && s.r.inAt == |s.h.delivered|
    && s.drv.len > 0 && s.r.in_ == Slot(s.r.inAt, s.drv.len)
  }

  /** The enable bits: equal to irq_enable outside critical sections, and off only while there
      is nothing to do or a foreground call is about to turn them on again. */
  predicate EnableInv(s: State) {
    && (s.w.pc != WRaised && s.r.pc != RRaised ==> s.hw.re == s.drv.re && s.hw.we == s.drv.we)
    && (s.w.pc in {WRaised, WWritten} ==> s.drv.we)
    && (s.r.pc in {RRaised, RWritten} ==> s.drv.re)
    && (!s.drv.re ==> RxUsed(s) == s.drv.len - 1 || s.r.got != [])
    && (!s.drv.we ==> TxUsed(s) == 0 || s.w.published)
    && !(WriterMasked(s) && ReaderMasked(s))
  }

  /** Every handled pass of the interrupt routine uses up some of the potential. */
  predicate IsrInv(s: State) {
    match s.isr
    case IIdle => true
    case ITop(handled) => Unmasked(s) && handled + Potential(s) <= 2 * s.drv.len
    case IRx(wi, space, avail, stopped, start, handled) =>
      && Unmasked(s)
      && handled + start <= 2 * s.drv.len
      && Potential(s) <= start
      && (Potential(s) == start ==> !stopped && avail && s.drv.re && s.hw.rxFifo != [])
      && (stopped ==> !avail)
      && (wi ==> 0 < space <= s.hw.wspace)
    case ITx(space, start, handled) =>
      && Unmasked(s)
      && handled + start <= 2 * s.drv.len
      && Potential(s) <= start
      && (Potential(s) == start ==> s.drv.we && space > 0)
      && space <= s.hw.wspace
  }

  predicate HostInv(s: State) {
    && s.drv.hostInactive <= INT_MAX - 2
    && 2 <= s.drv.timeout <= INT_MAX
  }

  predicate Inv(s: State) {
    && InRange(s) && TxInv(s) && RxInv(s)
    && WriterInv(s) && ReaderInv(s)
    && EnableInv(s) && IsrInv(s) && HostInv(s)
  }

  lemma InitInv(s: State)
    requires Init(s)
    ensures Inv(s)
  {
    DivModUnique(0, 0, s.drv.len);
  }

  lemma TakeInv(s: State)
    requires Inv(s) && Enabled(s, WTake)
    ensures Inv(Apply(s, WTake))
  {
    hide WriteRun, Slot;
    WriteRunExact(s.drv.len, |s.h.accepted|, |s.h.sent|);
  }

  lemma CopyInInv(s: State)
    requires Inv(s) && Enabled(s, WCopyByte)
    ensures Inv(Apply(s, WCopyByte))
  {
    hide Slot, WriteRun, ReadRun, ApplyReader, ApplyOther, Advance;
    var t := Apply(s, WCopyByte);
    var len, acc, k := s.drv.len, |s.h.accepted|, s.w.copied;
    assert TxInv(t) by {
      SlotGap(acc, acc + k, len);
      forall i | |t.h.sent| <= i < acc ensures t.drv.txBuf[Slot(i, len)] == t.h.accepted[i] {
        SlotInjective(i, acc + k, len);
      }
    }
  }

  lemma PublishKeepsRing(s: State)
    requires Inv(s) && s.w.pc == WCopy && s.w.copied == s.w.n
    ensures RingInv(s.drv.txBuf, Advance(s.w.in_, s.w.n, s.drv.len), s.drv.txOut,
                    s.h.accepted + s.w.rest[..s.w.n], s.h.sent)
  {
    var len, acc := s.drv.len, |s.h.accepted|;
    var put := s.h.accepted + s.w.rest[..s.w.n];
    SlotAdvance(acc, s.w.n, len);
    forall i | |s.h.sent| <= i < |put| ensures s.drv.txBuf[Slot(i, len)] == put[i] {
      if i >= acc {
        SlotGap(acc, i, len);
      }
    }
  }

  lemma TailOfAppend<T>(a: seq<T>, b: seq<T>, k: nat)
    requires k <= |a|
    ensures (a + b)[k..] == a[k..] + b
  {
  }

  lemma PublishInv(s: State)
    requires Inv(s) && Enabled(s, WPublish)
    ensures Inv(Apply(s, WPublish))
  {
    hide WriteRun, Slot, RingInv, ApplyReader, ApplyOther, Advance, CopiedIn, ReadRun, Min, Contents;
    PublishKeepsRing(s);
    TailOfAppend(s.h.accepted, s.w.rest[..s.w.n], s.w.base);
    assert s.w.rest == s.w.rest[..s.w.n] + s.w.rest[s.w.n..];
  }

  /** Up to the end of the critical section. */
  lemma WriterMoveInv(s: State, step: Step)
    requires Inv(s) && Enabled(s, step)
    requires step.WStart? || step in {WFillDone, WMask, WRaise, WControl, WUnmask}
    ensures Inv(Apply(s, step))
  {
    hide Slot, RingInv, WriteRun, ApplyReader, ApplyOther;
  }

  /** And after it. */
  lemma WriterFinishInv(s: State, step: Step)
    requires Inv(s) && Enabled(s, step)
    requires step in {WReturn, WPark, WLeave, WResume, WGiveUp}
    ensures Inv(Apply(s, step))
  {
    hide Slot, RingInv, WriteRun, ApplyReader, ApplyOther;
  }

  lemma WriterStepInv(s: State, step: Step)
    requires Inv(s) && Enabled(s, step) && IsWriterStep(step)
    ensures Inv(Apply(s, step))
  {
    hide Inv, Apply, RingInv;
    match step
    case WTake => TakeInv(s);
    case WCopyByte => CopyInInv(s);
    case WPublish => PublishInv(s);
    case _ =>
      if step in {WReturn, WPark, WLeave, WResume, WGiveUp} {
        WriterFinishInv(s, step);
      } else {
        WriterMoveInv(s, step);
      }
  }

  lemma DrainInv(s: State)
    requires Inv(s) && Enabled(s, RTake)
    ensures Inv(Apply(s, RTake))
  {
    hide ReadRun, Slot;
    ReadRunExact(s.drv.len, |s.h.taken|, |s.h.delivered|);
  }

  lemma CopyOutInv(s: State)
    requires Inv(s) && Enabled(s, RCopyByte)
    ensures Inv(Apply(s, RCopyByte))
  {
    hide ReadRun, Slot, WriteRun, ApplyWriter, ApplyOther, Advance;
    SlotGap(|s.h.delivered|, |s.h.delivered| + |s.r.part|, s.drv.len);
  }

  lemma ConsumeKeepsRing(s: State)
    requires Inv(s) && s.r.pc == RCopy && |s.r.part| == s.r.n
    ensures RingInv(s.drv.rxBuf, s.drv.rxIn, Advance(s.r.out, s.r.n, s.drv.len), s.h.taken, s.h.delivered + s.r.part)
    ensures |s.h.delivered| <= |s.h.taken|
  {
    hide Slot, Advance, WriteRun, ReadRun, CopiedIn;
    SlotAdvance(|s.h.delivered|, s.r.n, s.drv.len);
  }

  lemma ConsumeInv(s: State)
    requires Inv(s) && Enabled(s, RPublish)
    ensures Inv(Apply(s, RPublish))
  {
    hide ReadRun, Slot, Advance, WriteRun, ApplyWriter, ApplyOther, RingInv, CopiedIn, Contents;
    ConsumeKeepsRing(s);
  }

  lemma ReaderMoveInv(s: State, step: Step)
    requires Inv(s) && Enabled(s, step)
    requires step.RStart? || step in {REnter, RPark, RLeave, RResume, RStop}
    ensures Inv(Apply(s, step))
  {
    hide Slot, RingInv, ReadRun, ApplyWriter, ApplyOther;
  }

  lemma ReaderFinishInv(s: State, step: Step)
    requires Inv(s) && Enabled(s, step)
    requires step in {RMask, RRaise, RControl, RUnmask, RReturnEmpty}
    ensures Inv(Apply(s, step))
  {
    hide Slot, RingInv, ReadRun, ApplyWriter, ApplyOther;
  }

  lemma ReaderStepInv(s: State, step: Step)
    requires Inv(s) && Enabled(s, step) && IsReaderStep(step)
    ensures Inv(Apply(s, step))
  {
    hide Inv, Apply, RingInv;
    match step
    case RTake => DrainInv(s);
    case RCopyByte => CopyOutInv(s);
    case RPublish => ConsumeInv(s);
    case _ =>
      if step in {RMask, RRaise, RControl, RUnmask, RReturnEmpty} {
        ReaderFinishInv(s, step);
      } else {
        ReaderMoveInv(s, step);
      }
  }

  /** The driver's test for a full ring is exact. */
  lemma RxFullExact(s: State)
    requires Inv(s)
    ensures RxFull(s) <==> RxUsed(s) == s.drv.len - 1
  {
    var len, put, took := s.drv.len, |s.h.taken|, |s.h.delivered|;
    SlotAdvance(put, 1, len);
    SlotGap(took, put + 1, len);
  }

  lemma ReceiveKeepsRing(s: State)
    requires Inv(s) && s.isr.IRx? && !RxFull(s)
    ensures InRange(Receive(s)) && RxInv(Receive(s))
  {
    RxFullExact(s);
    var t := Receive(s);
    var len, put := s.drv.len, |s.h.taken|;
    SlotAdvance(put, 1, len);
    forall i | |t.h.delivered| <= i < |t.h.taken| ensures t.drv.rxBuf[Slot(i, len)] == t.h.taken[i] {
      SlotInjective(i, put, len);
    }
  }

  lemma ReceiveKeepsReader(s: State)
    requires Inv(s) && s.isr.IRx? && !RxFull(s) && s.hw.rxFifo != []
    ensures InRange(Receive(s)) && ReaderInv(Receive(s))
  {
    hide Slot, RingInv, RxFull, WriterInv, IsrInv, EnableInv;
    var t := Receive(s);
    assert t.h.taken[..|s.h.taken|] == s.h.taken;
  }

  lemma ReceiveInv(s: State)
    requires Inv(s) && s.isr.IRx? && !s.isr.stopped && !RxFull(s)
    ensures Inv(Receive(s))
  {
    ReceiveKeepsRing(s);
    RxFullExact(s);
    if s.hw.rxFifo == [] {
      hide Slot, RingInv, RxFull, ReaderInv, WriterInv;
    } else {
      ReceiveKeepsReader(s);
      hide Slot, RingInv, RxFull, ReaderInv;
    }
  }

  lemma ReceiveEndInv(s: State)
    requires Inv(s) && s.isr.IRx? && (s.isr.stopped || RxFull(s))
    ensures Inv(ReceiveEnd(s))
  {
    RxFullExact(s);
    hide Slot, RingInv, RxFull;
  }

  /** The driver's test for an empty transmit ring is exact. */
  lemma TxEmptyExact(s: State)
    requires Inv(s)
    ensures s.drv.txOut == s.drv.txIn <==> TxUsed(s) == 0
  {
    SlotInjective(|s.h.sent|, |s.h.accepted|, s.drv.len);
  }

  lemma SendInv(s: State)
    requires Inv(s) && s.isr.ITx? && s.isr.space > 0 && s.drv.txOut != s.drv.txIn
    ensures Inv(Send(s))
  {
    var t := Send(s);
    assert TxUsed(s) > 0 by { TxEmptyExact(s); }
    assert TxInv(t) by {
      SlotAdvance(|s.h.sent|, 1, s.drv.len);
    }
    hide Slot, RingInv;
  }

  lemma SendEndInv(s: State)
    requires Inv(s) && s.isr.ITx? && (s.isr.space == 0 || s.drv.txOut == s.drv.txIn)
    ensures Inv(SendEnd(s))
  {
    TxEmptyExact(s);
    hide Slot, RingInv;
  }

  lemma EnterInv(s: State)
    requires Inv(s) && s.isr.IIdle? && Unmasked(s)
    ensures Inv(s.(isr := ITop(0)))
  {
    assert Potential(s) <= 2 * s.drv.len;
    hide Slot, RingInv;
  }

  lemma TimeoutInv(s: State)
    requires Inv(s) && s.isr.IIdle? && Unmasked(s)
    ensures Inv(Timeout(s))
  {
    hide Slot, RingInv;
  }

  lemma ControlInv(s: State, ri: bool, wi: bool)
    requires Inv(s) && s.isr.ITop?
    requires ri ==> s.hw.re && s.hw.rxFifo != []
    requires wi ==> s.hw.we && s.hw.wspace > 0
    ensures Inv(s.(isr := AfterControl(s, ri, wi)))
  {
    hide Slot, RingInv;
  }

  lemma HostStepInv(s: State, step: Step)
    requires Inv(s) && Enabled(s, step)
    requires step.SetTimeout? || step.HostSend? || step in {HostDrain, HostPresent}
    ensures Inv(Apply(s, step))
  {
    hide Slot, RingInv, Receive, ReceiveEnd, Send, SendEnd, AfterControl, Timeout, ApplyWriter, ApplyReader, Advance;
  }

  lemma OtherStepInv(s: State, step: Step)
    requires Inv(s) && Enabled(s, step) && !IsWriterStep(step) && !IsReaderStep(step)
    ensures Inv(Apply(s, step))
  {
    hide RingInv, Receive, ReceiveEnd, Send, SendEnd, AfterControl, Timeout, NewTimeout,
      WriterInv, ReaderInv, EnableInv, IsrInv, HostInv, TxInv, RxInv;
    match step
    case IsrEnter => EnterInv(s);
    case TimerTick => TimeoutInv(s);
    case IsrControl(ri, wi) => ControlInv(s, ri, wi);
    case IsrReceive => ReceiveInv(s);
    case IsrReceiveEnd => ReceiveEndInv(s);
    case IsrSend => SendInv(s);
    case IsrSendEnd => SendEndInv(s);
    case _ => HostStepInv(s, step);
  }

  /** Every step keeps the invariant. */
  lemma StepInv(s: State, step: Step)
    requires Inv(s) && Enabled(s, step)
    ensures Inv(Apply(s, step))
  {
    hide Apply;
    if IsWriterStep(step) {
      WriterStepInv(s, step);
    } else if IsReaderStep(step) {
      ReaderStepInv(s, step);
    } else {
      OtherStepInv(s, step);
    }
  }

  /** Every state of every run satisfies the invariant. */
  lemma {:induction false} RunInv(run: seq<State>, i: nat)
    requires IsRun(run) && i < |run|
    ensures Inv(run[i])
  {
    if i == 0 {
      InitInv(run[0]);
    } else {
      RunInv(run, i - 1);
      assert Next(run[i - 1], run[i]);
      var step :| Enabled(run[i - 1], step) && run[i] == Apply(run[i - 1], step);
      StepInv(run[i - 1], step);
    }
  }
}
