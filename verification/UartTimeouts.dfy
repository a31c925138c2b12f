/** The timeout callback over whole runs: how the driver comes to take the host for gone. */
module UartTimeouts {
  import opened Arithmetic
  import opened UartRing
  import opened UartSystem
  import opened UartInvariant

  /** The steps that a run takes. */
  ghost predicate Labels(run: seq<State>, steps: seq<Step>) {
    && |run| == |steps| + 1
    && forall i :: 0 <= i < |steps| ==> Takes(run[i], steps[i], run[i + 1])
  }

  ghost predicate Takes(s: State, step: Step, t: State) {
    InRange(s) && Enabled(s, step) && t == Apply(s, step)
  }

  lemma {:induction false} RunHasLabels(run: seq<State>) returns (steps: seq<Step>)
    requires IsRun(run)
    ensures Labels(run, steps)
    decreases |run|
  {
    hide Enabled, Apply, Init, InRange;
    steps := [];
    if |run| > 1 {
      var front := run[..|run| - 1];
      forall i | 0 < i < |front| ensures Next(front[i - 1], front[i]) {
        assert Next(run[i - 1], run[i]);
      }
      steps := RunHasLabels(front);
      assert Next(run[|run| - 2], run[|run| - 1]);
      var step :| Enabled(run[|run| - 2], step) && run[|run| - 1] == Apply(run[|run| - 2], step);
      forall i | 0 <= i < |steps| ensures Takes(run[i], steps[i], run[i + 1]) {
        assert Takes(front[i], steps[i], front[i + 1]);
      }
      steps := steps + [step];
    }
  }

  /** For each call of the timeout callback in turn, whether it found AC set. */
  function AcSeen(run: seq<State>, steps: seq<Step>): seq<bool>
    requires |run| == |steps| + 1
    decreases |steps|
  {
    if steps == [] then []
    else
      var last := |steps| - 1;
      AcSeen(run[..|run| - 1], steps[..last]) + if steps[last].TimerTick? then [run[last].hw.ac] else []
  }

  /** The last n of these were all false. */
  predicate LastFalse(seen: seq<bool>, n: nat) {
    n <= |seen| && forall i :: |seen| - n <= i < |seen| ==> !seen[i]
  }

  // -----------------------------------------------------------------------------------------
  // One step
  // -----------------------------------------------------------------------------------------

  /** What a step does to the count and to AC. */
  ghost predicate Counts(s: State, step: Step, t: State) {
    && t.drv.hostInactive == (if !step.TimerTick? then s.drv.hostInactive
                              else if s.hw.ac then 0
                              else Min(s.drv.hostInactive + 1, INT_MAX - 2))
    && t.hw.ac == if step.HostPresent? then true else if step.TimerTick? then false else s.hw.ac
  }

  lemma WriterCounts(s: State, step: Step)
    requires InRange(s) && IsWriterStep(step) && Enabled(s, step)
    ensures Counts(s, step, ApplyWriter(s, step))
  {
    hide Enabled, InRange, Advance, WriteRun;
  }

  lemma ReaderCounts(s: State, step: Step)
    requires InRange(s) && IsReaderStep(step) && Enabled(s, step)
    ensures Counts(s, step, ApplyReader(s, step))
  {
    hide Enabled, InRange, Advance, ReadRun;
  }

  lemma OtherCounts(s: State, step: Step)
    requires InRange(s) && Enabled(s, step) && !IsWriterStep(step) && !IsReaderStep(step)
    requires s.drv.hostInactive <= INT_MAX - 2
    ensures Counts(s, step, ApplyOther(s, step))
  {
    hide Advance, AfterControl, NewTimeout, InRange;
  }

  lemma StepCounts(s: State, step: Step)
    requires InRange(s) && Enabled(s, step) && s.drv.hostInactive <= INT_MAX - 2
    ensures Counts(s, step, Apply(s, step))
  {
    hide Enabled, InRange, Counts, ApplyWriter, ApplyReader, ApplyOther;
    if IsWriterStep(step) {
      WriterCounts(s, step);
    } else if IsReaderStep(step) {
      ReaderCounts(s, step);
    } else {
      OtherCounts(s, step);
    }
  }

  lemma CountBounded(run: seq<State>, k: nat)
    requires IsRun(run) && k < |run|
    ensures run[k].drv.hostInactive <= INT_MAX - 2 && 2 <= run[k].drv.timeout
  {
    hide IsRun, TxInv, RxInv, WriterInv, ReaderInv, EnableInv, IsrInv, InRange;
    RunInv(run, k);
  }

  // -----------------------------------------------------------------------------------------
  // Whole runs
  // -----------------------------------------------------------------------------------------

  lemma Front(run: seq<State>, steps: seq<Step>)
    requires IsRun(run) && Labels(run, steps) && steps != []
    ensures var front := run[..|run| - 1]; IsRun(front) && Labels(front, steps[..|steps| - 1])
  {
    hide Next, Takes, Init;
    var front := run[..|run| - 1];
    forall i | 0 < i < |front| ensures Next(front[i - 1], front[i]) {
      assert Next(run[i - 1], run[i]);
    }
    forall i | 0 <= i < |steps| - 1 ensures Takes(front[i], steps[i], front[i + 1]) {
      assert Takes(run[i], steps[i], run[i + 1]);
    }
  }

  /** `host_inactive` is the number of calls of the callback since the last one that found AC set,
      except that it stops at INT_MAX - 2. */
  lemma {:induction false} InactiveExactly(run: seq<State>, steps: seq<Step>)
    requires IsRun(run) && Labels(run, steps)
    ensures var seen, n := AcSeen(run, steps), run[|run| - 1].drv.hostInactive;
            && n <= INT_MAX - 2 && LastFalse(seen, n)
            && (n < INT_MAX - 2 ==> n == |seen| || seen[|seen| - 1 - n])
    decreases |steps|
  {
    hide Takes, Counts, Enabled, Apply, InRange, Next;
    CountBounded(run, |run| - 1);
    if steps != [] {
      var last := |steps| - 1;
      Front(run, steps);
      InactiveExactly(run[..|run| - 1], steps[..last]);
      CountBounded(run, last);
      LastCounts(run, steps);
      CountsOnward(AcSeen(run[..|run| - 1], steps[..last]), run[last], steps[last], run[last + 1]);
    }
  }

  lemma LastCounts(run: seq<State>, steps: seq<Step>)
    requires IsRun(run) && Labels(run, steps) && steps != []
    ensures Counts(run[|steps| - 1], steps[|steps| - 1], run[|steps|])
  {
    hide Counts, Enabled, Apply, InRange, Next;
    var last := |steps| - 1;
    CountBounded(run, last);
    assert Takes(run[last], steps[last], run[last + 1]);
    StepCounts(run[last], steps[last]);
  }

  lemma CountsOnward(seen: seq<bool>, s: State, step: Step, t: State)
    requires Counts(s, step, t) && s.drv.hostInactive <= INT_MAX - 2
    requires var n := s.drv.hostInactive; LastFalse(seen, n) && (n < INT_MAX - 2 ==> n == |seen| || seen[|seen| - 1 - n])
    ensures var more, n := seen + (if step.TimerTick? then [s.hw.ac] else []), t.drv.hostInactive;
            LastFalse(more, n) && (n < INT_MAX - 2 ==> n == |more| || more[|more| - 1 - n])
  {
  }

  /** So the driver takes the host for gone exactly if the last `timeout` calls of the callback, or
      more, found AC clear, and timeouts of INT_MAX - 1 and INT_MAX never expire. */
  lemma HostGoneExactly(run: seq<State>, steps: seq<Step>)
    requires IsRun(run) && Labels(run, steps)
    ensures var s := run[|run| - 1];
            HostGone(s) <==> s.drv.timeout <= INT_MAX - 2 && LastFalse(AcSeen(run, steps), s.drv.timeout)
  {
    InactiveExactly(run, steps);
    CountBounded(run, |run| - 1);
    hide AcSeen;
  }

  /** A host that has shown itself before every call of the callback is never taken for gone. */
  lemma AlwaysSeenNeverGone(run: seq<State>, steps: seq<Step>)
    requires IsRun(run) && Labels(run, steps)
    requires forall i :: 0 <= i < |AcSeen(run, steps)| ==> AcSeen(run, steps)[i]
    ensures run[|run| - 1].drv.hostInactive == 0 && !HostGone(run[|run| - 1])
  {
    hide LastFalse;
    InactiveExactly(run, steps);
    CountBounded(run, |run| - 1);
    SomeFalse(AcSeen(run, steps), run[|run| - 1].drv.hostInactive);
  }

  lemma SomeFalse(seen: seq<bool>, n: nat)
    requires LastFalse(seen, n)
    ensures n > 0 ==> exists i :: 0 <= i < |seen| && !seen[i]
  {
    if n > 0 {
      assert !seen[|seen| - 1];
    }
  }

  /** The callback is not called in these steps. */
  predicate NoTick(steps: seq<Step>, from: nat, to: nat)
    requires from <= to <= |steps|
  {
    forall i :: from <= i < to ==> !steps[i].TimerTick?
  }

  /** The host has shown itself in one of the first k steps, and the callback has not been called
      since. */
  predicate ShownSince(steps: seq<Step>, k: nat)
    requires k <= |steps|
  {
    exists j :: 0 <= j < k && steps[j].HostPresent? && NoTick(steps, j + 1, k)
  }

  lemma ShownOnward(steps: seq<Step>, k: nat)
    requires k < |steps|
    ensures ShownSince(steps, k + 1) <==> !steps[k].TimerTick? && (steps[k].HostPresent? || ShownSince(steps, k))
    ensures NoTick(steps, 0, k + 1) <==> !steps[k].TimerTick? && NoTick(steps, 0, k)
  {
    if ShownSince(steps, k) && !steps[k].TimerTick? {
      var j :| 0 <= j < k && steps[j].HostPresent? && NoTick(steps, j + 1, k);
      assert NoTick(steps, j + 1, k + 1);
    }
    if steps[k].HostPresent? {
      assert NoTick(steps, k + 1, k + 1);
    }
    if ShownSince(steps, k + 1) {
      var j :| 0 <= j < k + 1 && steps[j].HostPresent? && NoTick(steps, j + 1, k + 1);
      if j < k {
        assert NoTick(steps, j + 1, k);
      }
    }
  }

  /** AC is set exactly if the host has shown itself since the last call of the callback, which
      acknowledges it; before the first call also if the device had it set at the start. */
  lemma {:induction false} AcExactly(run: seq<State>, steps: seq<Step>, k: nat)
    requires IsRun(run) && Labels(run, steps) && k <= |steps|
    ensures run[k].hw.ac <==> ShownSince(steps, k) || (run[0].hw.ac && NoTick(steps, 0, k))
    decreases k
  {
    hide IsRun, Enabled, Apply, InRange, ShownSince, NoTick;
    if k > 0 {
      AcExactly(run, steps, k - 1);
      ShownOnward(steps, k - 1);
      CountBounded(run, k - 1);
      assert Takes(run[k - 1], steps[k - 1], run[k]);
      StepCounts(run[k - 1], steps[k - 1]);
    } else {
      NothingShown(steps);
    }
  }

  lemma NothingShown(steps: seq<Step>)
    ensures !ShownSince(steps, 0) && NoTick(steps, 0, 0)
  {
  }
}
