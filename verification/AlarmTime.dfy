/** Deadlines of alarms: a 32-bit counter and one rollover flag stand in for an unbounded clock. */
module AlarmTime {

  import opened Arithmetic

  /** The two fields of an alarm that say when it is due. */
  datatype Timer = Timer(time: U32, rollover: bool)

  /** alt_alarm_start(): due nticks full ticks from now. */
  function Started(now: U32, nticks: U32): Timer {
    var time := (nticks + now + 1) % WORD;
    Timer(time, time < now)
  }

  /** What alt_tick() does first to every alarm; `now` is the counter after its increment. */
  function Cleared(t: Timer, now: U32): Timer {
    if t.rollover && now == 0 then t.(rollover := false) else t
  }

  predicate Due(t: Timer, now: U32) {
    Cleared(t, now).time <= now && !Cleared(t, now).rollover
  }

  /** The alarm has run and asked to be called again in `period` ticks. */
  function Rearmed(t: Timer, now: U32, period: U32): Timer {
    var time := (t.time + period) % WORD;
    Timer(time, time < now || Cleared(t, now).rollover)
  }

  /** An alarm over one tick: `period` is what its callback returns if it is called; an alarm
      whose callback returns 0 is gone. */
  datatype Alarm = Off | On(t: Timer)

  function Ticked(a: Alarm, now: U32, period: U32): Alarm {
    if a.Off? then Off
    else if !Due(a.t, now) then On(Cleared(a.t, now))
    else if period == 0 then Off
    else On(Rearmed(a.t, now, period))
  }

  /** In which of the next |periods| ticks the callback is called. */
  function Calls(a: Alarm, now: U32, periods: seq<U32>): seq<bool>
    decreases |periods|
  {
    if periods == [] then []
    else
      var next := (now + 1) % WORD;
      [a.On? && Due(a.t, next)] + Calls(Ticked(a, next, periods[0]), next, periods[1..])
  }

  /** The same with unbounded time: an alarm is a deadline, counted in ticks from now. */
  datatype Ideal = Never | In(ticks: nat)

  function IdealCalls(a: Ideal, periods: seq<U32>): seq<bool>
    decreases |periods|
  {
    if periods == [] then []
    else if a.Never? then [false] + IdealCalls(Never, periods[1..])
    else if a.ticks > 1 then [false] + IdealCalls(In(a.ticks - 1), periods[1..])
    else [true] + IdealCalls(if periods[0] == 0 then Never else In(periods[0]), periods[1..])
  }

  /** Between ticks, with the counter at `now`: the alarm is due in `ticks` ticks.  A whole lap is
      too much, unless the counter is about to wrap. */
  predicate Represents(a: Alarm, now: U32, ideal: Ideal) {
    match ideal
    case Never => a.Off?
    case In(ticks) =>
      && a.On?
      && (0 < ticks < WORD || (ticks == WORD && now == WORD - 1))
      && a.t.time == (now + ticks) % WORD
      && (a.t.rollover <==> a.t.time < now)
  }

  /** Between ticks the flag is set exactly when the deadline lies beyond the next wrap, and the
      deadline is never the present. */
  lemma RolloverMeansNextLap(a: Alarm, now: U32, ideal: Ideal)
    requires Represents(a, now, ideal) && ideal.In? && ideal.ticks < WORD
    ensures a.t.time != now
    ensures a.t.rollover <==> now + ideal.ticks >= WORD
  {
  }

  /** The delay can be represented: it is not the longest one, or the counter is about to wrap. */
  predicate Startable(now: U32, nticks: U32) { nticks < WORD - 1 || now == WORD - 1 }

  lemma StartRepresents(now: U32, nticks: U32)
    requires Startable(now, nticks)
    ensures Represents(On(Started(now, nticks)), now, In(nticks + 1))
  {
  }

  /** A tick is due exactly when the ideal countdown ends, and keeps the representation. */
  lemma TickRepresents(a: Alarm, now: U32, ideal: Ideal, period: U32)
    requires Represents(a, now, ideal)
    ensures var next := (now + 1) % WORD;
            && (a.On? && Due(a.t, next) <==> ideal == In(1))
            && Represents(Ticked(a, next, period), next,
                 if ideal.Never? || (ideal.ticks == 1 && period == 0) then Never
                 else if ideal.ticks == 1 then In(period)
                 else In(ideal.ticks - 1))
  {
  }

  /** The 32-bit alarm calls back in exactly the ticks in which the unbounded one does, whatever
      the counter starts at, whatever the callback returns, across any number of wraps. */
  lemma {:induction false} CallsRefineIdeal(a: Alarm, now: U32, ideal: Ideal, periods: seq<U32>)
    requires Represents(a, now, ideal)
    ensures Calls(a, now, periods) == IdealCalls(ideal, periods)
    decreases |periods|
  {
    if periods != [] {
      TickRepresents(a, now, ideal, periods[0]);
      var next := (now + 1) % WORD;
      var later := if ideal.Never? || (ideal.ticks == 1 && periods[0] == 0) then Never
                   else if ideal.ticks == 1 then In(periods[0])
                   else In(ideal.ticks - 1);
      CallsRefineIdeal(Ticked(a, next, periods[0]), next, later, periods[1..]);
    }
  }

  predicate OnlyLast(calls: seq<bool>) {
    |calls| > 0 && forall i :: 0 <= i < |calls| ==> calls[i] == (i == |calls| - 1)
  }

  /** The alarm is first called in tick number `tick`, the ticks being numbered from 1. */
  ghost predicate FirstCallIn(a: Alarm, now: U32, tick: nat) {
    && tick > 0
    && forall periods: seq<U32> :: |periods| == tick ==>
         |Calls(a, now, periods)| == tick && OnlyLast(Calls(a, now, periods))
  }

  lemma {:induction false} IdealLength(a: Ideal, periods: seq<U32>)
    ensures |IdealCalls(a, periods)| == |periods|
    decreases |periods|
  {
    if periods != [] {
      if a.Never? {
        IdealLength(Never, periods[1..]);
      } else if a.ticks > 1 {
        IdealLength(In(a.ticks - 1), periods[1..]);
      } else {
        IdealLength(if periods[0] == 0 then Never else In(periods[0]), periods[1..]);
      }
    }
  }

  lemma {:induction false} IdealCountdown(ticks: nat, periods: seq<U32>)
    requires ticks > 0
    ensures |IdealCalls(In(ticks), periods)| == |periods|
    ensures forall i :: 0 <= i < ticks && i < |periods| ==> IdealCalls(In(ticks), periods)[i] == (i == ticks - 1)
    decreases |periods|
  {
    IdealLength(In(ticks), periods);
    if ticks > 1 && periods != [] {
      IdealCountdown(ticks - 1, periods[1..]);
    }
  }

  lemma {:induction false} NeverCalls(periods: seq<U32>)
    ensures forall i :: 0 <= i < |IdealCalls(Never, periods)| ==> !IdealCalls(Never, periods)[i]
    decreases |periods|
  {
    if periods != [] {
      NeverCalls(periods[1..]);
    }
  }

  /** What happens after a call in tick i: nothing more if the callback returned 0; otherwise the
      next call comes exactly as many ticks later as it asked for. */
  ghost predicate Periodic(calls: seq<bool>, periods: seq<U32>) {
    && |calls| == |periods|
    && forall i, k :: 0 <= i < k < |calls| && calls[i] ==>
         && (periods[i] == 0 ==> !calls[k])
         && (k - i <= periods[i] ==> calls[k] == (k - i == periods[i]))
  }

  lemma {:induction false} IdealPeriodic(a: Ideal, periods: seq<U32>)
    ensures Periodic(IdealCalls(a, periods), periods)
    decreases |periods|
  {
    IdealLength(a, periods);
    if periods != [] {
      var calls := IdealCalls(a, periods);
      var later := if a.Never? then Never
                   else if a.ticks > 1 then In(a.ticks - 1)
                   else if periods[0] == 0 then Never
                   else In(periods[0]);
      IdealPeriodic(later, periods[1..]);
      assert calls == [calls[0]] + IdealCalls(later, periods[1..]);
      if calls[0] {
        NeverCalls(periods[1..]);
        if periods[0] > 0 {
          IdealCountdown(periods[0], periods[1..]);
        }
      }
      forall i, k | 0 <= i < k < |calls| && calls[i]
        ensures (periods[i] == 0 ==> !calls[k]) && (k - i <= periods[i] ==> calls[k] == (k - i == periods[i]))
      {
        assert calls[k] == IdealCalls(later, periods[1..])[k - 1];
        if i > 0 {
          assert calls[i] == IdealCalls(later, periods[1..])[i - 1];
          assert periods[i] == periods[1..][i - 1];
        }
      }
    }
  }

  /** The 32-bit alarm is periodic in the same sense, across any number of counter wraps. */
  lemma CallsPeriodic(a: Alarm, now: U32, ideal: Ideal, periods: seq<U32>)
    requires Represents(a, now, ideal)
    ensures Periodic(Calls(a, now, periods), periods)
  {
    CallsRefineIdeal(a, now, ideal, periods);
    IdealPeriodic(ideal, periods);
  }

  lemma CountdownCalls(a: Alarm, now: U32, ticks: nat)
    requires Represents(a, now, In(ticks))
    ensures FirstCallIn(a, now, ticks)
  {
    forall periods: seq<U32> | |periods| == ticks
      ensures |Calls(a, now, periods)| == ticks && OnlyLast(Calls(a, now, periods))
    {
      CallsRefineIdeal(a, now, In(ticks), periods);
      IdealCountdown(ticks, periods);
    }
  }

  lemma CalledAtOnce(a: Alarm, now: U32)
    requires a.On? && Due(a.t, (now + 1) % WORD)
    ensures FirstCallIn(a, now, 1)
    ensures forall tick :: tick > 1 ==> !FirstCallIn(a, now, tick)
  {
    forall periods: seq<U32> | |periods| > 0
      ensures |Calls(a, now, periods)| > 0 && Calls(a, now, periods)[0]
      ensures |periods| == 1 ==> |Calls(a, now, periods)| == 1
    {
    }
    forall tick | tick > 1 ensures !FirstCallIn(a, now, tick) {
      var periods: seq<U32> := seq(tick, i => 0);
      assert Calls(a, now, periods)[0];
    }
  }

  /** The first callback runs in exactly the (nticks + 1)-th tick after alt_alarm_start() if and
      only if the delay is not the longest one, or the counter is about to wrap; otherwise it
      runs in the very next tick. */
  lemma FirstCallExact(now: U32, nticks: U32)
    ensures FirstCallIn(On(Started(now, nticks)), now, nticks + 1) <==> nticks < WORD - 1 || now == WORD - 1
    ensures !(nticks < WORD - 1 || now == WORD - 1) ==> FirstCallIn(On(Started(now, nticks)), now, 1)
  {
    if Startable(now, nticks) {
      StartRepresents(now, nticks);
      CountdownCalls(On(Started(now, nticks)), now, nticks + 1);
    } else {
      CalledAtOnce(On(Started(now, nticks)), now);
    }
  }

  /** After the longest delay, started anywhere but before the wrap, time lags one tick behind: an
      alarm that is called at once and asks for two ticks is called again after one. */
  lemma LagsAfterLongestDelay(now: U32)
    requires now < WORD - 1
    ensures Calls(On(Started(now, WORD - 1)), now, [2, 0]) == [true, true]
  {
    var a := On(Started(now, WORD - 1));
    var next := now + 1;
    assert a.t == Timer(now, false);
    var b := Ticked(a, next, 2);
    var last := (next + 1) % WORD;
    assert b.On? && Due(b.t, last);
    assert [2, 0][1..] == [0] && [0][1..] == [];
    assert Calls(b, next, [0]) == [true] + Calls(Ticked(b, last, 0), last, []);
  }

  /** From alt_alarm_start() on, every call comes exactly as many ticks after the one before as
      that one asked for, under exactly the same condition. */
  lemma PeriodicExactly(now: U32, nticks: U32)
    ensures (forall periods: seq<U32> :: Periodic(Calls(On(Started(now, nticks)), now, periods), periods))
            <==> nticks < WORD - 1 || now == WORD - 1
  {
    if Startable(now, nticks) {
      StartRepresents(now, nticks);
      forall periods: seq<U32> ensures Periodic(Calls(On(Started(now, nticks)), now, periods), periods) {
        CallsPeriodic(On(Started(now, nticks)), now, In(nticks + 1), periods);
      }
    } else {
      LagsAfterLongestDelay(now);
      var periods: seq<U32> := [2, 0];
      assert Calls(On(Started(now, nticks)), now, periods) == [true, true];
      assert !Periodic([true, true], periods) by { TooEarly(); }
    }
  }

  lemma TooEarly()
    ensures !Periodic([true, true], [2, 0])
  {
    var calls, periods: seq<U32> := [true, true], [2, 0];
    assert calls[0] && calls[1] && periods[0] == 2;
  }
}
