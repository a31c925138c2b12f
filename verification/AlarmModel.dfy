/** The registered alarms as values: what starting, stopping and ticking do to all of them, and how
    that compares with alarms that have unbounded deadlines. */
module AlarmModel {
  import opened AlarmTime
  import opened Arithmetic

  /** What a callback does when it is called: the period it returns, and whether it calls
      alt_alarm_stop() on its own alarm. */
  datatype Answer = Answer(period: U32, stopsItself: bool)

  /** The alarm goes on after this tick. */
  predicate Stays(t: Timer, now: U32, a: Answer) {
    Ticked(On(t), now, a.period).On? && !(Due(t, now) && a.stopsItself)
  }

  /** The fields of an alarm after a tick; one that returns 0 keeps the fields it has. */
  function NextTimer(t: Timer, now: U32, a: Answer): Timer {
    var after := Ticked(On(t), now, a.period);
    if after.On? then after.t else Cleared(t, now)
  }

  /** The elements of `list` at the positions that `keep` marks. */
  function Marked<T>(list: seq<T>, keep: seq<bool>): (r: seq<T>)
    requires |list| == |keep|
    ensures |r| <= |list|
    ensures forall x :: x in r ==> x in list
  {
    if list == [] then []
    else
      var last := |list| - 1;
      Marked(list[..last], keep[..last]) + if keep[last] then [list[last]] else []
  }

  lemma {:induction false} MarkedLength<T, U>(a: seq<T>, b: seq<U>, keep: seq<bool>)
    requires |a| == |b| == |keep|
    ensures |Marked(a, keep)| == |Marked(b, keep)|
  {
    if a != [] {
      var last := |a| - 1;
      MarkedLength(a[..last], b[..last], keep[..last]);
    }
  }

  function StayFlags(timers: seq<Timer>, now: U32, answers: seq<Answer>): (r: seq<bool>)
    requires |timers| == |answers|
    ensures |r| == |timers|
    ensures forall i :: 0 <= i < |r| ==> r[i] == Stays(timers[i], now, answers[i])
  {
    seq(|timers|, i requires 0 <= i < |timers| => Stays(timers[i], now, answers[i]))
  }

  function DueFlags(timers: seq<Timer>, now: U32): (r: seq<bool>)
    ensures |r| == |timers|
    ensures forall i :: 0 <= i < |r| ==> r[i] == Due(timers[i], now)
  {
    seq(|timers|, i requires 0 <= i < |timers| => Due(timers[i], now))
  }

  function NextTimers(timers: seq<Timer>, now: U32, answers: seq<Answer>): (r: seq<Timer>)
    requires |timers| == |answers|
    ensures |r| == |timers|
    ensures forall i :: 0 <= i < |r| ==> r[i] == NextTimer(timers[i], now, answers[i])
  {
    seq(|timers|, i requires 0 <= i < |timers| => NextTimer(timers[i], now, answers[i]))
  }

  /** The tick counter and the registered alarms in list order. */
  datatype Clockwork<T> = Clockwork(now: U32, ids: seq<T>, timers: seq<Timer>)

  datatype Event<T> =
    | StartAlarm(id: T, delay: U32)
    | StopAlarm(id: T)
    | TickAll(answers: seq<Answer>)

  /** Which of the alarms are not this one. */
  function Others<T(==)>(ids: seq<T>, id: T): (r: seq<bool>)
    ensures |r| == |ids|
    ensures forall i :: 0 <= i < |r| ==> r[i] == (ids[i] != id)
  {
    seq(|ids|, i requires 0 <= i < |ids| => ids[i] != id)
  }

  /** An alarm is started only while it is not registered; a tick comes with an answer for each
      alarm that is. */
  predicate Legal<T(==)>(ids: seq<T>, e: Event<T>) {
    match e
    case StartAlarm(id, _) => id !in ids
    case StopAlarm(_) => true
    case TickAll(answers) => |answers| == |ids|
  }

  predicate Paired<T>(c: Clockwork<T>) { |c.ids| == |c.timers| }

  function Apply<T(==)>(c: Clockwork<T>, e: Event<T>): (d: Clockwork<T>)
    requires Paired(c) && Legal(c.ids, e)
    ensures Paired(d)
  {
    match e
    case StartAlarm(id, delay) => Clockwork(c.now, [id] + c.ids, [Started(c.now, delay)] + c.timers)
    case StopAlarm(id) =>
      MarkedLength(c.ids, c.timers, Others(c.ids, id));
      Clockwork(c.now, Marked(c.ids, Others(c.ids, id)), Marked(c.timers, Others(c.ids, id)))
    case TickAll(answers) =>
      var now := (c.now + 1) % WORD;
      var keep := StayFlags(c.timers, now, answers);
      MarkedLength(c.ids, NextTimers(c.timers, now, answers), keep);
      Clockwork(now, Marked(c.ids, keep), Marked(NextTimers(c.timers, now, answers), keep))
  }

  /** The alarms whose callbacks an event calls, in order. */
  function Called<T>(c: Clockwork<T>, e: Event<T>): seq<T>
    requires Paired(c)
  {
    if e.TickAll? then Marked(c.ids, DueFlags(c.timers, (c.now + 1) % WORD)) else []
  }

  // -----------------------------------------------------------------------------------------
  // The same with unbounded deadlines
  // -----------------------------------------------------------------------------------------

  /** For each registered alarm, in how many ticks it is due. */
  datatype Countdowns<T> = Countdowns(ids: seq<T>, left: seq<nat>)

  function DueNow(left: seq<nat>): (r: seq<bool>)
    ensures |r| == |left|
    ensures forall i :: 0 <= i < |r| ==> r[i] == (left[i] == 1)
  {
    seq(|left|, i requires 0 <= i < |left| => left[i] == 1)
  }

  function Remain(left: seq<nat>, answers: seq<Answer>): (r: seq<bool>)
    requires |left| == |answers|
    ensures |r| == |left|
    ensures forall i :: 0 <= i < |r| ==>
              r[i] == !(left[i] == 1 && (answers[i].period == 0 || answers[i].stopsItself))
  {
    seq(|left|, i requires 0 <= i < |left| =>
      !(left[i] == 1 && (answers[i].period == 0 || answers[i].stopsItself)))
  }

  function Later(left: seq<nat>, answers: seq<Answer>): (r: seq<nat>)
    requires |left| == |answers|
    ensures |r| == |left|
    ensures forall i :: 0 <= i < |r| ==>
              r[i] == if left[i] == 1 then answers[i].period else if left[i] > 0 then left[i] - 1 else 0
  {
    seq(|left|, i requires 0 <= i < |left| =>
      if left[i] == 1 then answers[i].period else if left[i] > 0 then left[i] - 1 else 0)
  }

  function IdealApply<T(==)>(c: Countdowns<T>, e: Event<T>): Countdowns<T>
    requires |c.ids| == |c.left| && Legal(c.ids, e)
  {
    match e
    case StartAlarm(id, delay) => Countdowns([id] + c.ids, [delay + 1] + c.left)
    case StopAlarm(id) => Countdowns(Marked(c.ids, Others(c.ids, id)), Marked(c.left, Others(c.ids, id)))
    case TickAll(answers) =>
      var keep := Remain(c.left, answers);
      Countdowns(Marked(c.ids, keep), Marked(Later(c.left, answers), keep))
  }

  function IdealCalled<T>(c: Countdowns<T>, e: Event<T>): seq<T>
    requires |c.ids| == |c.left|
  {
    if e.TickAll? then Marked(c.ids, DueNow(c.left)) else []
  }

  // -----------------------------------------------------------------------------------------
  // The refinement
  // -----------------------------------------------------------------------------------------

  predicate AllRepresent(timers: seq<Timer>, now: U32, left: seq<nat>) {
    && |timers| == |left|
    && forall i :: 0 <= i < |timers| ==> Represents(On(timers[i]), now, In(left[i]))
  }

  predicate Refines<T(==)>(c: Clockwork<T>, i: Countdowns<T>) {
    Paired(c) && c.ids == i.ids && AllRepresent(c.timers, c.now, i.left)
  }

  lemma {:induction false} MarkedRepresent(timers: seq<Timer>, now: U32, left: seq<nat>, keep: seq<bool>)
    requires |timers| == |left| == |keep|
    requires forall i :: 0 <= i < |timers| && keep[i] ==> Represents(On(timers[i]), now, In(left[i]))
    ensures AllRepresent(Marked(timers, keep), now, Marked(left, keep))
  {
    hide Represents;
    if timers != [] {
      var last := |timers| - 1;
      MarkedRepresent(timers[..last], now, left[..last], keep[..last]);
    }
  }

  /** One alarm over one tick. */
  lemma AlarmTicks(t: Timer, now: U32, left: nat, a: Answer)
    requires Represents(On(t), now, In(left))
    ensures var next := (now + 1) % WORD;
            var stays := !(left == 1 && (a.period == 0 || a.stopsItself));
            && (Due(t, next) <==> left == 1) && (Stays(t, next, a) <==> stays)
            && (stays ==> Represents(On(NextTimer(t, next, a)), next, In(if left == 1 then a.period else left - 1)))
  {
    TickRepresents(On(t), now, In(left), a.period);
    hide Represents, Due;
  }

  lemma TickRefines<T>(c: Clockwork<T>, i: Countdowns<T>, answers: seq<Answer>)
    requires Refines(c, i) && |answers| == |c.ids|
    ensures Called(c, TickAll(answers)) == IdealCalled(i, TickAll(answers))
    ensures Refines(Apply(c, TickAll(answers)), IdealApply(i, TickAll(answers)))
  {
    hide Represents, Due, Stays, NextTimer, Marked;
    var now := (c.now + 1) % WORD;
    forall k | 0 <= k < |c.ids|
      ensures Due(c.timers[k], now) <==> i.left[k] == 1
      ensures StayFlags(c.timers, now, answers)[k] == Remain(i.left, answers)[k]
      ensures Remain(i.left, answers)[k] ==>
                Represents(On(NextTimers(c.timers, now, answers)[k]), now, In(Later(i.left, answers)[k]))
    {
      AlarmTicks(c.timers[k], c.now, i.left[k], answers[k]);
      LeftPositive(c.timers[k], c.now, i.left[k]);
    }
    assert DueFlags(c.timers, now) == DueNow(i.left);
    assert StayFlags(c.timers, now, answers) == Remain(i.left, answers);
    MarkedRepresent(NextTimers(c.timers, now, answers), now, Later(i.left, answers), Remain(i.left, answers));
    MarkedLength(c.ids, i.left, Remain(i.left, answers));
    MarkedLength(Later(i.left, answers), i.left, Remain(i.left, answers));
  }

  lemma LeftPositive(t: Timer, now: U32, left: nat)
    requires Represents(On(t), now, In(left))
    ensures left > 0
  {
  }

  lemma StartRefines<T>(c: Clockwork<T>, i: Countdowns<T>, id: T, delay: U32)
    requires Refines(c, i) && id !in c.ids && Startable(c.now, delay)
    ensures Refines(Apply(c, StartAlarm(id, delay)), IdealApply(i, StartAlarm(id, delay)))
  {
    StartRepresents(c.now, delay);
    hide Represents, Started;
  }

  lemma StopRefines<T>(c: Clockwork<T>, i: Countdowns<T>, id: T)
    requires Refines(c, i)
    ensures Refines(Apply(c, StopAlarm(id)), IdealApply(i, StopAlarm(id)))
  {
    hide Represents, Marked;
    MarkedRepresent(c.timers, c.now, i.left, Others(c.ids, id));
    MarkedLength(c.ids, i.left, Others(c.ids, id));
  }

  predicate IsRun<T(==)>(c: Clockwork<T>, events: seq<Event<T>>)
    requires Paired(c)
    decreases |events|
  {
    events == [] || (Legal(c.ids, events[0]) && IsRun(Apply(c, events[0]), events[1..]))
  }

  /** No alarm is started with the longest delay, except when the counter is about to wrap. */
  predicate DelaysFit<T(==)>(c: Clockwork<T>, events: seq<Event<T>>)
    requires Paired(c) && IsRun(c, events)
    decreases |events|
  {
    events == [] ||
    ((events[0].StartAlarm? ==> Startable(c.now, events[0].delay)) && DelaysFit(Apply(c, events[0]), events[1..]))
  }

  /** Which callbacks each event of the run calls. */
  function RunCalls<T(==)>(c: Clockwork<T>, events: seq<Event<T>>): seq<seq<T>>
    requires Paired(c) && IsRun(c, events)
    decreases |events|
  {
    if events == [] then [] else [Called(c, events[0])] + RunCalls(Apply(c, events[0]), events[1..])
  }

  function IdealRunCalls<T(==)>(i: Countdowns<T>, events: seq<Event<T>>): seq<seq<T>>
    decreases |events|
  {
    if events == [] then []
    else if !(|i.ids| == |i.left| && Legal(i.ids, events[0])) then []
    else [IdealCalled(i, events[0])] + IdealRunCalls(IdealApply(i, events[0]), events[1..])
  }

  /** Over every run of starting, stopping and ticking, and any number of counter wraps, each tick
      calls exactly the alarms whose unbounded deadlines have come, in list order. */
  lemma {:induction false} RunsRefineIdeal<T>(c: Clockwork<T>, i: Countdowns<T>, events: seq<Event<T>>)
    requires Refines(c, i) && IsRun(c, events) && DelaysFit(c, events)
    ensures RunCalls(c, events) == IdealRunCalls(i, events)
    decreases |events|
  {
    if events != [] {
      match events[0] {
        case StartAlarm(id, delay) => StartRefines(c, i, id, delay);
        case StopAlarm(id) => StopRefines(c, i, id);
        case TickAll(answers) => TickRefines(c, i, answers);
      }
      hide Apply, IdealApply, AllRepresent, Called, IdealCalled;
      RunsRefineIdeal(Apply(c, events[0]), IdealApply(i, events[0]), events[1..]);
    }
  }

  /** From the reset on: no alarm is registered, whatever the counter. */
  lemma FreshRunsRefineIdeal<T>(now: U32, events: seq<Event<T>>)
    requires IsRun(Clockwork(now, [], []), events) && DelaysFit(Clockwork(now, [], []), events)
    ensures RunCalls(Clockwork(now, [], []), events) == IdealRunCalls(Countdowns([], []), events)
  {
    RunsRefineIdeal(Clockwork(now, [], []), Countdowns([], []), events);
  }

  // -----------------------------------------------------------------------------------------
  // Alarms that callbacks start
  // -----------------------------------------------------------------------------------------

  /** A call of alt_alarm_start() from a callback. */
  datatype Begin<T> = Begin(alarm: T, delay: U32)

  /** What starting these one after the other puts in front of the list. */
  function Front<T>(begins: seq<Begin<T>>): (r: seq<T>)
    ensures |r| == |begins|
    ensures forall i :: 0 <= i < |r| ==> r[i] == begins[|begins| - 1 - i].alarm
  {
    seq(|begins|, i requires 0 <= i < |begins| => begins[|begins| - 1 - i].alarm)
  }

  function FrontTimers<T>(now: U32, begins: seq<Begin<T>>): (r: seq<Timer>)
    ensures |r| == |begins|
    ensures forall i :: 0 <= i < |r| ==> r[i] == Started(now, begins[|begins| - 1 - i].delay)
  {
    seq(|begins|, i requires 0 <= i < |begins| => Started(now, begins[|begins| - 1 - i].delay))
  }

  /** What the callbacks that are called start, in order. */
  function Begun<T>(starts: seq<seq<Begin<T>>>, called: seq<bool>): seq<Begin<T>>
    requires |starts| == |called|
  {
    if starts == [] then []
    else
      var last := |starts| - 1;
      Begun(starts[..last], called[..last]) + if called[last] then starts[last] else []
  }

  function StartEvents<T>(begins: seq<Begin<T>>): (r: seq<Event<T>>)
    ensures |r| == |begins|
    ensures forall i :: 0 <= i < |r| ==> r[i] == StartAlarm(begins[i].alarm, begins[i].delay)
  {
    seq(|begins|, i requires 0 <= i < |begins| => StartAlarm(begins[i].alarm, begins[i].delay))
  }

  function RunEnd<T(==)>(c: Clockwork<T>, events: seq<Event<T>>): Clockwork<T>
    requires Paired(c) && IsRun(c, events)
    decreases |events|
  {
    if events == [] then c else RunEnd(Apply(c, events[0]), events[1..])
  }

  /** Starting alarms one after the other. */
  lemma {:induction false} StartsInFront<T>(c: Clockwork<T>, begins: seq<Begin<T>>)
    requires Paired(c) && forall i :: 0 <= i < |begins| ==> begins[i].alarm !in c.ids
    requires forall i, j :: 0 <= i < j < |begins| ==> begins[i].alarm != begins[j].alarm
    ensures IsRun(c, StartEvents(begins))
    ensures RunEnd(c, StartEvents(begins)) == Clockwork(c.now, Front(begins) + c.ids, FrontTimers(c.now, begins) + c.timers)
    decreases |begins|
  {
    hide Started;
    if begins == [] {
      assert Front(begins) + c.ids == c.ids && FrontTimers(c.now, begins) + c.timers == c.timers;
    } else {
      var b, rest := begins[0], begins[1..];
      var d := Apply(c, StartAlarm(b.alarm, b.delay));
      StartsInFront(d, rest);
      assert StartEvents(begins)[1..] == StartEvents(rest);
      assert Front(begins) == Front(rest) + [b.alarm];
      assert FrontTimers(c.now, begins) == FrontTimers(c.now, rest) + [Started(c.now, b.delay)];
      assert Front(begins) + c.ids == Front(rest) + d.ids;
      assert FrontTimers(c.now, begins) + c.timers == FrontTimers(c.now, rest) + d.timers;
    }
  }
}
