/** What the invariant means: the guarantees of the UART driver over every run. */
module UartTheorems {
  import opened Arithmetic
  import opened UartRing
  import opened UartSystem
  import opened UartInvariant

  /** The ghost predicate every theorem is about: some run leads to s. */
  ghost predicate Reachable(s: State) {
    exists run: seq<State> :: IsRun(run) && run[|run| - 1] == s
  }

  lemma ReachableInv(s: State)
    requires Reachable(s)
    ensures Inv(s)
  {
    var run :| IsRun(run) && run[|run| - 1] == s;
    RunInv(run, |run| - 1);
  }

  lemma ReachableStep(s: State, step: Step)
    requires Reachable(s) && InRange(s) && Enabled(s, step)
    ensures Reachable(Apply(s, step))
  {
    var run :| IsRun(run) && run[|run| - 1] == s;
    var longer := run + [Apply(s, step)];
    forall i | 0 < i < |longer| ensures Next(longer[i - 1], longer[i]) {
      if i < |run| {
        assert Next(run[i - 1], run[i]);
      }
    }
    assert IsRun(longer);
  }

  /** Transmit is lossless and ordered: what write() accepted is what the device got,
      followed by what the ring holds; and a call accounts for every byte of its data. */
  lemma TransmitLossless(s: State)
    requires Reachable(s)
    ensures InRange(s)
    ensures s.h.accepted == s.h.sent + Contents(s.drv.txBuf, s.drv.txOut, s.drv.txIn)
    ensures |Contents(s.drv.txBuf, s.drv.txOut, s.drv.txIn)| <= s.drv.len - 1
    ensures s.w.pc != WIdle ==>
              s.w.base <= |s.h.accepted| && s.w.data == s.h.accepted[s.w.base..] + s.w.rest
  {
    ReachableInv(s);
    ContentsIsTail(s.drv.txBuf, s.h.accepted, |s.h.sent|);
  }

  /** Receive is lossless and ordered: what was taken from DATA is what finished calls
      returned, what the current call has so far, and what the ring holds; a copy in progress
      reads the head of the ring. */
  lemma ReceiveLossless(s: State)
    requires Reachable(s)
    ensures InRange(s)
    ensures s.h.taken == s.h.returned + s.r.got + Contents(s.drv.rxBuf, s.drv.rxOut, s.drv.rxIn)
    ensures |Contents(s.drv.rxBuf, s.drv.rxOut, s.drv.rxIn)| <= s.drv.len - 1
    ensures s.r.pc == RCopy ==> s.r.part <= Contents(s.drv.rxBuf, s.drv.rxOut, s.drv.rxIn)
  {
    ReachableInv(s);
    ContentsIsTail(s.drv.rxBuf, s.h.taken, |s.h.delivered|);
  }

  /** The interrupt routine takes a byte from DATA only when the ring has a free slot, and
      that slot is not one that a read() in progress is copying from. */
  lemma ReceiveNeverClobbers(s: State)
    requires Reachable(s) && InRange(s) && Enabled(s, IsrReceive)
    ensures RxUsed(s) < s.drv.len - 1
    ensures s.r.pc == RCopy ==> !(s.r.out <= s.drv.rxIn < s.r.out + s.r.n)
  {
    ReachableInv(s);
    RxFullExact(s);
    if s.r.pc == RCopy && s.r.out <= s.drv.rxIn < s.r.out + s.r.n {
      var k := |s.h.delivered| + (s.drv.rxIn - s.r.out);
      SlotGap(|s.h.delivered|, k, s.drv.len);
      SlotInjective(k, |s.h.taken|, s.drv.len);
    }
  }

  /** A byte copied by write() lands inside the buffer, in a slot that holds no unsent byte. */
  lemma CopyNeverClobbers(s: State, k: nat)
    requires Reachable(s) && InRange(s) && Enabled(s, WCopyByte)
    requires |s.h.sent| <= k < |s.h.accepted|
    ensures s.w.in_ + s.w.copied < s.drv.len
    ensures s.w.in_ + s.w.copied != Slot(k, s.drv.len)
  {
    ReachableInv(s);
    var put := |s.h.accepted| + s.w.copied;
    SlotGap(|s.h.accepted|, put, s.drv.len);
    SlotInjective(k, put, s.drv.len);
  }

  /** The device has room for every byte the interrupt routine writes, so none is dropped, and
      one pass writes no more than the WSPACE it read. */
  lemma SendNeverDrops(s: State)
    requires Reachable(s) && InRange(s) && Enabled(s, IsrSend)
    ensures 0 < s.isr.space <= s.hw.wspace
    ensures TxUsed(s) > 0
    ensures Send(s).h.sent == s.h.sent + [s.h.accepted[|s.h.sent|]]
  {
    ReachableInv(s);
    TxEmptyExact(s);
  }

  /** No data is stranded: outside critical sections the device has the enable bits the driver
      thinks it has; receive is off only while the ring is full or a read() that made room has
      not yet turned it on again; transmit is off only while the ring is empty or a write()
      that filled it has not yet turned it on again. */
  lemma NothingStranded(s: State)
    requires Reachable(s)
    ensures Unmasked(s) ==> s.hw.re == s.drv.re && s.hw.we == s.drv.we
    ensures !s.drv.re ==> RxUsed(s) == s.drv.len - 1 || (s.r.pc !in {RIdle, RTest, RWait, RLeft} && s.r.got != [])
    ensures !s.drv.we ==> TxUsed(s) == 0 || (s.w.pc !in {WIdle, WAfter, WWait, WLeft} && s.w.published)
  {
    ReachableInv(s);
  }

  /** While the foreground sits in a wait loop, the interrupt it waits for is switched on. */
  lemma WaitersAreServed(s: State)
    requires Reachable(s) && Unmasked(s)
    ensures s.w.pc == WWait && s.w.out == s.drv.txOut ==> s.hw.we && TxUsed(s) == s.drv.len - 1
    ensures s.r.pc == RWait && s.r.in_ == s.drv.rxIn ==> s.hw.re && RxUsed(s) == 0
  {
    ReachableInv(s);
    if s.w.pc == WWait && s.w.out == s.drv.txOut {
      SlotInjective(s.w.outAt, |s.h.sent|, s.drv.len);
    }
    if s.r.pc == RWait && s.r.in_ == s.drv.rxIn {
      SlotInjective(s.r.inAt, |s.h.taken|, s.drv.len);
    }
  }

  /** The wait tests have no ABA case: equal slots mean that nothing has been sent (or has
      arrived) since the index was sampled. */
  lemma WaitTestsExact(s: State)
    requires Reachable(s)
    ensures s.w.pc in {WWait, WLeft} ==> (s.w.out == s.drv.txOut <==> |s.h.sent| == s.w.outAt)
    ensures s.r.pc in {RWait, RLeft} ==> (s.r.in_ == s.drv.rxIn <==> |s.h.taken| == s.r.inAt)
  {
    ReachableInv(s);
    if s.w.pc in {WWait, WLeft} {
      SlotInjective(s.w.outAt, |s.h.sent|, s.drv.len);
    }
    if s.r.pc in {RWait, RLeft} {
      SlotInjective(s.r.inAt, |s.h.taken|, s.drv.len);
    }
  }

  /** Every pass of the interrupt routine that finds something to do lowers the potential, from
      reading CONTROL to being back at the top, whatever the host does meanwhile; so one
      activation handles at most 2 * (len - 1) + 2 passes. */
  lemma IsrPassesBounded(s: State)
    requires Reachable(s) && s.isr.ITop?
    ensures 0 <= Potential(s)
    ensures s.isr.handled + Potential(s) <= 2 * (s.drv.len - 1) + 2
  {
    ReachableInv(s);
  }

  lemma IsrPassLowersPotential(s: State, step: Step)
    requires Reachable(s) && InRange(s) && Enabled(s, step) && !s.isr.ITop?
    requires Apply(s, step).isr.ITop? && !step.IsrEnter?
    ensures Potential(Apply(s, step)) < s.isr.start
    ensures Apply(s, step).isr.handled == s.isr.handled + 1
  {
    ReachableInv(s);
    RxFullExact(s);
    TxEmptyExact(s);
    assert step in {IsrReceiveEnd, IsrSendEnd};
  }

  /** A timeout of INT_MAX - 1 or INT_MAX never expires, and these are what TIOCSTIMEOUT leaves
      when it is asked for anything but 2 .. INT_MAX - 1. */
  lemma LongWaitsNeverExpire(s: State)
    requires Reachable(s)
    ensures s.drv.timeout >= INT_MAX - 1 ==> !HostGone(s)
    ensures forall arg :: !(2 <= arg < INT_MAX) ==> NewTimeout(s.drv.timeout, arg) >= INT_MAX - 1
  {
    ReachableInv(s);
  }

  ghost predicate HistoryGrows(s: State, t: State) {
    s.h.accepted <= t.h.accepted && s.h.sent <= t.h.sent && s.h.taken <= t.h.taken
    && s.h.delivered <= t.h.delivered && s.h.returned <= t.h.returned
  }

  lemma StepGrows(s: State, step: Step)
    requires Inv(s) && Enabled(s, step)
    ensures HistoryGrows(s, Apply(s, step))
  {
    hide Advance, WriteRun, ReadRun, Slot, AfterControl, NewTimeout, RingInv;
  }

  lemma SelfGrowth(s: State)
    ensures HistoryGrows(s, s)
  {
  }

  lemma GrowthAdds(s: State, t: State, u: State)
    requires HistoryGrows(s, t) && HistoryGrows(t, u)
    ensures HistoryGrows(s, u)
  {
  }

  /** What has happened stays: along a run every history only gets longer, so each byte handed
      to the device, and each byte handed to a reader, is final. */
  lemma {:induction false} HistoriesGrow(run: seq<State>, i: nat, j: nat)
    requires IsRun(run) && i <= j < |run|
    ensures HistoryGrows(run[i], run[j])
    decreases j
  {
    hide HistoryGrows, Enabled, Apply, InRange, Init, Inv;
    if i < j {
      HistoriesGrow(run, i, j - 1);
      assert Next(run[j - 1], run[j]);
      var step :| Enabled(run[j - 1], step) && run[j] == Apply(run[j - 1], step);
      RunInv(run, j - 1);
      StepGrows(run[j - 1], step);
      GrowthAdds(run[i], run[j - 1], run[j]);
    } else {
      SelfGrowth(run[i]);
    }
  }
}
