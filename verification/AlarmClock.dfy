/** The system clock: alt_alarm_start(), alt_alarm_stop() and alt_tick() over the alarm list. */
module AlarmClock {
  import opened Errno
  import opened AlarmTime
  import opened AlarmModel
  import opened Arithmetic
  import opened AlarmList
  import opened Lists

  ghost function Timers(list: seq<Node>): (r: seq<Timer>)
    reads list
    ensures |r| == |list|
    ensures forall i :: 0 <= i < |r| ==> r[i] == list[i].View()
  {
    seq(|list|, i requires 0 <= i < |list| reads list => list[i].View())
  }

  /** The list while alt_tick() is about to visit what was element i of `all`. */
  function Midway(all: seq<Node>, keep: seq<bool>, i: nat): seq<Node>
    requires |all| == |keep| && i <= |all|
  {
    Marked(all[..i], keep[..i]) + all[i..]
  }

  /** It is still there, followed by what followed it at the start. */
  lemma MidwayPlace(head: Node, all: seq<Node>, keep: seq<bool>, i: nat)
    requires |all| == |keep| && i < |all|
    ensures var m := |Marked(all[..i], keep[..i])|;
            && m < |Midway(all, keep, i)|
            && At(head, Midway(all, keep, i), m + 1) == all[i]
            && At(head, Midway(all, keep, i), m + 2) == At(head, all, i + 2)
  {
  }

  lemma MidwayNext(head: Node, all: seq<Node>, keep: seq<bool>, i: nat)
    requires |all| == |keep| && i < |all| && Apart(head, Midway(all, keep, i))
    ensures Midway(all, keep, i + 1)
            == if keep[i] then Midway(all, keep, i) else Minus(Midway(all, keep, i), all[i])
  {
    var m := |Marked(all[..i], keep[..i])|;
    assert all[..i + 1][..i] == all[..i] && keep[..i + 1][..i] == keep[..i];
    assert Midway(all, keep, i)[m] == all[i];
    MinusSplit(head, Midway(all, keep, i), m);
  }

  /** Alarms that have been started stand in front of all this. */
  lemma FrontPlace(head: Node, front: seq<Node>, all: seq<Node>, keep: seq<bool>, i: nat)
    requires |all| == |keep| && i < |all|
    ensures var p := |front| + |Marked(all[..i], keep[..i])|;
            && p < |front + Midway(all, keep, i)|
            && At(head, front + Midway(all, keep, i), p + 1) == all[i]
            && At(head, front + Midway(all, keep, i), p + 2) == At(head, all, i + 2)
  {
    MidwayPlace(head, all, keep, i);
  }

  lemma ApartParts(head: Node, a: seq<Node>, b: seq<Node>)
    requires Apart(head, a + b)
    ensures Apart(head, a) && Apart(head, b) && forall n :: n in a ==> n !in b
  {
    assert forall i :: 0 <= i < |a| ==> (a + b)[i] == a[i];
    assert forall i :: 0 <= i < |b| ==> (a + b)[|a| + i] == b[i];
  }

  lemma {:induction false} MinusBehind(a: seq<Node>, list: seq<Node>, e: Node)
    requires e !in a
    ensures Minus(a + list, e) == a + Minus(list, e)
  {
    if a == [] {
      assert a + list == list;
    } else {
      assert (a + list)[1..] == a[1..] + list;
      MinusBehind(a[1..], list, e);
    }
  }

  lemma FrontJoins(now: U32, a: seq<Begin<Node>>, b: seq<Begin<Node>>)
    ensures Front(a + b) == Front(b) + Front(a) && FrontTimers(now, a + b) == FrontTimers(now, b) + FrontTimers(now, a)
  {
    hide Started;
  }

  lemma BegunNext(starts: seq<seq<Begin<Node>>>, called: seq<bool>, i: nat)
    requires |starts| == |called| && i < |starts|
    ensures Begun(starts[..i + 1], called[..i + 1])
            == Begun(starts[..i], called[..i]) + if called[i] then starts[i] else []
  {
    assert starts[..i + 1][..i] == starts[..i] && called[..i + 1][..i] == called[..i];
  }

  lemma MidwayEnds(all: seq<Node>, keep: seq<bool>)
    requires |all| == |keep|
    ensures Midway(all, keep, 0) == all
    ensures Midway(all, keep, |all|) == Marked(all, keep)
  {
    assert all[..|all|] == all && keep[..|all|] == keep;
  }

  /** The walk is back at the head exactly if all alarms have been visited. */
  lemma EndOfSweep(head: Node, all: seq<Node>, i: nat)
    requires Apart(head, all) && i <= |all|
    ensures At(head, all, i + 1) == head <==> i == |all|
    ensures i < |all| ==> At(head, all, i + 1) == all[i]
  {
  }

  lemma {:induction false} MarkedAll<T>(list: seq<T>, keep: seq<bool>)
    requires |list| == |keep| && forall i :: 0 <= i < |list| ==> keep[i]
    ensures Marked(list, keep) == list
  {
    if list != [] {
      var last := |list| - 1;
      MarkedAll(list[..last], keep[..last]);
      assert list == list[..last] + [list[last]];
    }
  }

  lemma {:induction false} MarkedAllBut<T>(list: seq<T>, keep: seq<bool>, k: nat)
    requires |list| == |keep| && k < |list| && forall i :: 0 <= i < |list| ==> keep[i] == (i != k)
    ensures Marked(list, keep) == list[..k] + list[k + 1..]
  {
    var last := |list| - 1;
    if k == last {
      MarkedAll(list[..last], keep[..last]);
    } else {
      MarkedAllBut(list[..last], keep[..last], k);
      assert list[..last][k + 1..] + [list[last]] == list[k + 1..];
      assert list[..last][..k] == list[..k];
    }
  }

  /** Taking an element out of a list is keeping all others. */
  lemma MinusIsMarked(head: Node, list: seq<Node>, e: Node)
    requires Apart(head, list)
    ensures Minus(list, e) == Marked(list, Others(list, e))
  {
    hide Minus, Marked;
    if e in list {
      var k := IndexOf(list, e);
      MinusSplit(head, list, k);
      MarkedAllBut(list, Others(list, e), k);
    } else {
      MinusNothing(list, e);
      MarkedAll(list, Others(list, e));
    }
  }

  lemma {:induction false} TimersMarked(list: seq<Node>, keep: seq<bool>)
    requires |list| == |keep|
    ensures Timers(Marked(list, keep)) == Marked(Timers(list), keep)
  {
    if list != [] {
      var last := |list| - 1;
      TimersMarked(list[..last], keep[..last]);
      assert Timers(list)[..last] == Timers(list[..last]);
    }
  }

  function Alarms(begins: seq<Begin<Node>>): set<Node> {
    set i | 0 <= i < |begins| :: begins[i].alarm
  }

  function AllAlarms(starts: seq<seq<Begin<Node>>>): set<Node> {
    set i, j | 0 <= i < |starts| && 0 <= j < |starts[i]| :: starts[i][j].alarm
  }

  /** These start alarms that are not among the taken ones, and no alarm twice. */
  ghost predicate New(begins: seq<Begin<Node>>, taken: set<Node>) {
    && (forall i :: 0 <= i < |begins| ==> begins[i].alarm !in taken)
    && (forall i, j :: 0 <= i < j < |begins| ==> begins[i].alarm != begins[j].alarm)
  }

  /** What the callbacks of the first i alarms have started. */
  function BegunBy(now: U32, timers: seq<Timer>, starts: seq<seq<Begin<Node>>>, i: nat): seq<Begin<Node>>
    requires i <= |timers| == |starts|
  {
    Begun(starts[..i], DueFlags(timers, now)[..i])
  }

  class Clock {
    const head: Node
    var nticks: U32
    var tickRate: U32
    ghost var list: seq<Node>

    ghost function Nodes(): set<Node>
      reads this
    {
      {head} + set n | n in list
    }

    ghost predicate Valid()
      reads this, Nodes()
    {
      Linked(head, list)
    }

    /** The clock as a value. */
    ghost function View(): (c: Clockwork<Node>)
      reads this, Nodes()
      ensures Paired(c)
    {
      Clockwork(nticks, list, Timers(list))
    }

    constructor ()
      ensures Valid() && list == [] && nticks == 0 && tickRate == 0 && fresh(head)
    {
      head := new Node();
      nticks, tickRate, list := 0, 0, [];
    }

    /** alt_sysclk_init(): the rate is set once, by the driver of the clock. */
    method SysclkInit(rate: U32) returns (rc: int)
      requires Valid()
      modifies this`tickRate
      ensures Valid() && View() == old(View())
      ensures rc == if old(tickRate) == 0 then 0 else -1
      ensures tickRate == if old(tickRate) == 0 then rate else old(tickRate)
    {
      if tickRate == 0 {
        tickRate := rate;
        return 0;
      } else {
        return -1;
      }
    }

    /** alt_alarm_start().  Starting an alarm that is registered already ties the list into a knot:
        the next walk along it never comes back to the head, as long as callbacks stop at most their
        own alarms. */
    method Start(alarm: Node?, delay: U32) returns (rc: int)
      requires Valid() && alarm != head
      modifies this`list, Nodes(), alarm
      ensures rc == if tickRate == 0 then -ENOTSUP else if alarm == null then -EINVAL else 0
      ensures rc != 0 ==> Valid() && View() == old(View())
      ensures rc == 0 && alarm !in old(list) ==> Valid() && View() == Apply(old(View()), StartAlarm(alarm, delay))
      ensures rc == 0 ==> alarm.View() == Started(nticks, delay)
      ensures rc == 0 && alarm in old(list) ==> Trapped(head, Firsts(old(list), IndexOf(old(list), alarm)))
    {
      if tickRate != 0 {
        if alarm != null {
          SetDeadline(alarm, delay);
          Insert(head, alarm, list);
          if alarm !in list {
            StartIsModel(old(View()), alarm, delay);
            list := [alarm] + list;
          }
          return 0;
        } else {
          return -EINVAL;
        }
      } else {
        return -ENOTSUP;
      }
    }

    method SetDeadline(alarm: Node, delay: U32)
      modifies alarm`time, alarm`rollover
      ensures alarm.View() == Started(nticks, delay)
    {
      alarm.time := (delay + nticks + 1) % WORD;
      if alarm.time < nticks {
        alarm.rollover := true;
      } else {
        alarm.rollover := false;
      }
    }

    lemma StartIsModel(c: Clockwork<Node>, alarm: Node, delay: U32)
      requires Paired(c) && alarm !in c.ids && Timers(c.ids) == c.timers && alarm.View() == Started(c.now, delay)
      ensures Clockwork(c.now, [alarm] + c.ids, Timers([alarm] + c.ids)) == Apply(c, StartAlarm(alarm, delay))
    {
      hide Started;
      assert Timers([alarm] + c.ids) == [alarm.View()] + Timers(c.ids);
    }

    /** A callback starts an alarm that is not registered. */
    method StartNew(begin: Begin<Node>)
      requires Valid() && tickRate != 0 && begin.alarm !in Nodes()
      modifies this`list, Nodes(), begin.alarm
      ensures Valid() && list == [begin.alarm] + old(list)
      ensures begin.alarm.View() == Started(nticks, begin.delay)
      ensures forall n :: n in old(list) ==> n.View() == old(n.View())
    {
      hide Linked, Started;
      ghost var before, timers := list, Timers(list);
      var rc := Start(begin.alarm, begin.delay);
      assert Timers(list) == [Started(nticks, begin.delay)] + timers;
      forall i | 0 <= i < |before| ensures before[i].View() == timers[i] {
        assert list[i + 1] == before[i] && Timers(list)[i + 1] == timers[i];
      }
      assert list[0] == begin.alarm && Timers(list)[0] == Started(nticks, begin.delay);
    }

    /** All that one callback starts. */
    method StartAll(begins: seq<Begin<Node>>)
      requires Valid() && New(begins, Nodes()) && (begins != [] ==> tickRate != 0)
      modifies this`list, Nodes(), Alarms(begins)
      ensures Valid() && list == Front(begins) + old(list)
      ensures Timers(Front(begins)) == FrontTimers(nticks, begins)
      ensures forall n :: n in old(list) ==> n.View() == old(n.View())
    {
      hide Linked, Started;
      ghost var before := list;
      var i := 0;
      while i < |begins|
        invariant i <= |begins| && Valid() && list == Front(begins[..i]) + before
        invariant forall j :: 0 <= j < i ==> begins[j].alarm.View() == Started(nticks, begins[j].delay)
        invariant forall n :: n in before ==> n.View() == old(n.View())
      {
        assert begins[i].alarm !in Nodes();
        StartNew(begins[i]);
        assert Front(begins[..i + 1]) == [begins[i].alarm] + Front(begins[..i]);
        i := i + 1;
      }
      assert begins[..i] == begins;
    }

    /** alt_alarm_stop(): on an alarm that has been stopped already it changes nothing. */
    method Stop(alarm: Node)
      requires Valid() && alarm != head && (alarm in list || Detached(alarm))
      modifies this`list, Nodes(), alarm
      ensures Valid() && list == Minus(old(list), alarm) && Detached(alarm)
      ensures View() == Apply(old(View()), StopAlarm(alarm))
      ensures alarm !in list && (alarm !in old(list) ==> list == old(list) && View() == old(View()))
      ensures forall n :: n in list ==> n in old(list)
      ensures forall n :: n in old(list) ==> n.View() == old(n.View())
      ensures alarm.View() == old(alarm.View())
    {
      hide Minus, Marked;
      ghost var c, all := View(), list;
      Remove(head, alarm, list);
      list := Minus(list, alarm);
      assert Timers(all) == c.timers;
      StopIsModel(c, alarm);
    }

    lemma StopIsModel(c: Clockwork<Node>, alarm: Node)
      requires Paired(c) && Apart(head, c.ids) && nticks == c.now
      requires list == Minus(c.ids, alarm) && Timers(c.ids) == c.timers
      ensures View() == Apply(c, StopAlarm(alarm))
    {
      MinusIsMarked(head, c.ids, alarm);
      TimersMarked(c.ids, Others(c.ids, alarm));
      hide Minus, Marked, Others, Timers;
    }

    /** What alt_tick() does about the answer of a callback, and whether that stops its own alarm. */
    method Obey(alarm: Node, answer: Answer)
      requires Valid() && alarm in list
      modifies this`list, Nodes(), alarm
      ensures Valid()
      ensures answer.period != 0 && !answer.stopsItself ==> list == old(list)
      ensures answer.period == 0 || answer.stopsItself ==>
                list == Minus(old(list), alarm) && Detached(alarm) && alarm !in list
      ensures answer.period == 0 ==> alarm.View() == old(alarm.View())
      ensures answer.period != 0 ==>
                var time := (old(alarm.time) + answer.period) % WORD;
                alarm.View() == Timer(time, time < nticks || old(alarm.rollover))
      ensures forall n :: n in old(list) && n != alarm ==> n.View() == old(n.View())
    {
      hide View, Apply, Others, Marked;
      if answer.stopsItself {
        Stop(alarm);
      }
      if answer.period == 0 {
        assert Nodes() <= old(Nodes());
        Stop(alarm);
      } else {
        alarm.time := (alarm.time + answer.period) % WORD;
        if alarm.time < nticks {
          alarm.rollover := true;
        }
      }
    }

    /** What alt_tick() does about a callback: what it starts, whether it stops its own alarm, and
        what it returns. */
    method Settle(alarm: Node, answer: Answer, begins: seq<Begin<Node>>)
      requires Valid() && alarm in list && New(begins, Nodes()) && (begins != [] ==> tickRate != 0)
      modifies this`list, Nodes(), Alarms(begins)
      ensures Valid() && Timers(Front(begins)) == FrontTimers(nticks, begins)
      ensures answer.period != 0 && !answer.stopsItself ==> list == Front(begins) + old(list)
      ensures answer.period == 0 || answer.stopsItself ==>
                list == Front(begins) + Minus(old(list), alarm) && Detached(alarm) && alarm !in list
      ensures answer.period == 0 ==> alarm.View() == old(alarm.View())
      ensures answer.period != 0 ==>
                var time := (old(alarm.time) + answer.period) % WORD;
                alarm.View() == Timer(time, time < nticks || old(alarm.rollover))
      ensures forall n :: n in old(list) && n != alarm ==> n.View() == old(n.View())
    {
      hide Linked, Minus, Timers, FrontTimers, New, Marked, Begun;
      ghost var before, front := list, Front(begins);
      InFront(begins);
      StartAll(begins);
      MinusBehind(front, before, alarm);
      ghost var timers := Timers(front);
      Obey(alarm, answer);
      SameTimers(front, timers);
    }

    lemma InFront(begins: seq<Begin<Node>>)
      requires New(begins, Nodes())
      ensures forall n :: n in Front(begins) ==> n !in list
    {
    }

    /** The body of the loop of alt_tick() for one alarm. */
    method Visit(alarm: Node, answer: Answer, begins: seq<Begin<Node>>) returns (called: bool)
      requires Valid() && alarm in list && New(begins, Nodes()) && (begins != [] ==> tickRate != 0)
      modifies this`list, Nodes(), Alarms(begins)
      ensures Valid() && called == Due(old(alarm.View()), nticks)
      ensures var begun := if called then begins else [];
              && Timers(Front(begun)) == FrontTimers(nticks, begun)
              && (Stays(old(alarm.View()), nticks, answer) ==> list == Front(begun) + old(list))
              && (!Stays(old(alarm.View()), nticks, answer) ==>
                    list == Front(begun) + Minus(old(list), alarm) && Detached(alarm) && alarm !in list)
      ensures alarm.View() == NextTimer(old(alarm.View()), nticks, answer)
      ensures forall n :: n in old(list) && n != alarm ==> n.View() == old(n.View())
    {
      if alarm.rollover && nticks == 0 {
        alarm.rollover := false;
      }
      called := alarm.time <= nticks && !alarm.rollover;
      if called {
        Settle(alarm, answer, begins);
      } else {
        assert Front<Node>([]) + list == list;
      }
    }

    /** Where alt_tick() stands after the first i of the alarms it started with: those have been
        dealt with, and of them the ones that stay are still in the list; the rest is untouched.
        The alarms that were started meanwhile stand in front. */
    ghost predicate Swept(all: seq<Node>, timers: seq<Timer>, answers: seq<Answer>, starts: seq<seq<Begin<Node>>>, i: nat)
      reads this, Nodes(), all
    {
      && Valid()
      && i <= |all| == |timers| == |answers| == |starts|
      && Arranged(all, timers, answers, starts, i)
      && Dealt(all, timers, answers, i)
    }

    ghost predicate Arranged(all: seq<Node>, timers: seq<Timer>, answers: seq<Answer>, starts: seq<seq<Begin<Node>>>, i: nat)
      reads this, Nodes()
      requires i <= |all| == |timers| == |answers| == |starts|
    {
      && list == Front(BegunBy(nticks, timers, starts, i)) + Midway(all, StayFlags(timers, nticks, answers), i)
      && Timers(Front(BegunBy(nticks, timers, starts, i))) == FrontTimers(nticks, BegunBy(nticks, timers, starts, i))
    }

    ghost predicate Dealt(all: seq<Node>, timers: seq<Timer>, answers: seq<Answer>, i: nat)
      reads this, all
      requires i <= |all| == |timers| == |answers|
    {
      && (forall j :: 0 <= j < i ==> all[j].View() == NextTimer(timers[j], nticks, answers[j]))
      && (forall j :: i <= j < |all| ==> all[j].View() == timers[j])
      && (forall j :: 0 <= j < i && !Stays(timers[j], nticks, answers[j]) ==> Detached(all[j]) && all[j] !in list)
    }

    /** The callbacks still to come start alarms that are not registered, and were not at the start
        of the tick; and no two start the same. */
    ghost predicate Coming(all: seq<Node>, starts: seq<seq<Begin<Node>>>, i: nat, taken: set<Node>)
      reads `tickRate
    {
      && (forall j :: i <= j < |starts| ==> New(starts[j], taken) && (starts[j] != [] ==> tickRate != 0))
      && (forall j, n :: i <= j < |starts| && n in Alarms(starts[j]) ==> n !in all)
      && (forall j, k :: i <= j < k < |starts| ==> Alarms(starts[j]) !! Alarms(starts[k]))
    }

    lemma ComingOn(all: seq<Node>, starts: seq<seq<Begin<Node>>>, i: nat, taken: set<Node>, more: set<Node>)
      requires Coming(all, starts, i, taken) && i < |starts| && more <= taken + Alarms(starts[i])
      ensures Coming(all, starts, i + 1, more)
      ensures New(starts[i], taken) && (starts[i] != [] ==> tickRate != 0)
      ensures forall n :: n in Alarms(starts[i]) ==> n !in all
    {
      forall j | i < j < |starts| ensures New(starts[j], more) {
        assert forall k :: 0 <= k < |starts[j]| ==> starts[j][k].alarm in Alarms(starts[j]);
      }
    }

    /** Where the alarms are while alt_tick() is about to visit what was element i. */
    lemma Places(all: seq<Node>, timers: seq<Timer>, answers: seq<Answer>, starts: seq<seq<Begin<Node>>>, i: nat)
      requires Swept(all, timers, answers, starts, i) && i < |all| && Apart(head, all)
      ensures forall n :: n in Front(BegunBy(nticks, timers, starts, i)) ==> n in list && n != all[i]
      ensures all[i] in list
      ensures forall j :: i <= j < |all| ==> all[j] in list
      ensures forall j :: 0 <= j < |all| && j != i ==> all[j] != all[i] && all[j] != head
    {
      hide Marked, StayFlags, Stays, Due, NextTimer, AlarmTime.Ticked, Begun;
      var keep, front := StayFlags(timers, nticks, answers), BegunBy(nticks, timers, starts, i);
      ApartParts(head, Front(front), Midway(all, keep, i));
      assert all[i..][0] == all[i];
      forall j | i <= j < |all| ensures all[j] in list {
        assert all[i..][j - i] == all[j];
      }
    }

    lemma FrontAlarms(begins: seq<Begin<Node>>)
      ensures forall n :: n in Front(begins) ==> n in Alarms(begins)
    {
    }

    lemma SameTimers(nodes: seq<Node>, timers: seq<Timer>)
      requires |timers| == |nodes| && forall i :: 0 <= i < |nodes| ==> nodes[i].View() == timers[i]
      ensures Timers(nodes) == timers
    {
    }

    lemma TimersJoin(a: seq<Node>, b: seq<Node>)
      ensures Timers(a + b) == Timers(a) + Timers(b)
    {
    }

    /** One iteration of the loop of alt_tick(). */
    method SweepOne(ghost all: seq<Node>, ghost timers: seq<Timer>, answers: seq<Answer>,
                    starts: seq<seq<Begin<Node>>>, i: nat, alarm: Node)
      returns (next: Node, called: bool)
      requires Swept(all, timers, answers, starts, i) && Coming(all, starts, i, Nodes())
      requires i < |all| && alarm == all[i] && Apart(head, all)
      modifies this`list, Nodes(), Alarms(starts[i])
      ensures Swept(all, timers, answers, starts, i + 1) && Coming(all, starts, i + 1, Nodes())
      ensures next == At(head, all, i + 2) && called == Due(timers[i], nticks)
      ensures Nodes() <= old(Nodes()) + Alarms(starts[i])
    {
      hide Marked, Minus, Midway, StayFlags, Stays, Due, NextTimer, Begun, Front, FrontTimers, Linked, Dealt;
      hide Timers, Coming, BegunBy, New;
      ghost var taken, front := Nodes(), Front(BegunBy(nticks, timers, starts, i));
      ghost var frontTimers := Timers(front);
      next := Following(all, timers, answers, starts, i, alarm);
      SweptOnward(all, timers, answers, starts, i);
      FrontAlarms(starts[i]);
      ComingOn(all, starts, i, taken, taken + Alarms(starts[i]));
      called := Deal(all, timers, answers, starts, i, alarm);
      SameTimers(front, frontTimers);
      TimersJoin(Front(if called then starts[i] else []), front);
      assert Nodes() <= taken + Alarms(starts[i]);
      ComingOn(all, starts, i, taken, Nodes());
    }

    /** It deals with the alarm, and leaves those dealt with, those ahead and those started before
        as they are. */
    method Deal(ghost all: seq<Node>, ghost timers: seq<Timer>, answers: seq<Answer>,
                starts: seq<seq<Begin<Node>>>, i: nat, alarm: Node)
      returns (called: bool)
      requires Swept(all, timers, answers, starts, i) && Coming(all, starts, i, Nodes())
      requires i < |all| && alarm == all[i] && Apart(head, all)
      modifies this`list, Nodes(), Alarms(starts[i])
      ensures Valid() && Dealt(all, timers, answers, i + 1) && called == Due(timers[i], nticks)
      ensures var begun := if called then starts[i] else [];
              && Timers(Front(begun)) == FrontTimers(nticks, begun)
              && list == Front(begun) + if Stays(timers[i], nticks, answers[i]) then old(list) else Minus(old(list), alarm)
      ensures forall n :: n in Front(BegunBy(nticks, timers, starts, i)) ==> n in old(list) && n.View() == old(n.View())
    {
      hide Marked, Minus, Midway, StayFlags, Stays, Due, NextTimer, Begun, Front, FrontTimers, Linked, Arranged;
      hide Timers, Coming, BegunBy, New;
      Places(all, timers, answers, starts, i);
      ComingOn(all, starts, i, Nodes(), Nodes());
      called := Visit(alarm, answers[i], starts[i]);
    }

    /** The next alarm to visit is the one that came next at the start of the tick. */
    method Following(ghost all: seq<Node>, ghost timers: seq<Timer>, answers: seq<Answer>,
                     starts: seq<seq<Begin<Node>>>, i: nat, alarm: Node)
      returns (next: Node)
      requires Swept(all, timers, answers, starts, i) && i < |all| && alarm == all[i]
      ensures alarm in list && next == At(head, all, i + 2)
    {
      hide Marked, Minus, Midway, StayFlags, Stays, Due, NextTimer, AlarmTime.Ticked, Begun;
      FrontPlace(head, Front(BegunBy(nticks, timers, starts, i)), all, StayFlags(timers, nticks, answers), i);
      next := alarm.next;
    }

    /** The list after the visit. */
    lemma SweptOnward(all: seq<Node>, timers: seq<Timer>, answers: seq<Answer>, starts: seq<seq<Begin<Node>>>, i: nat)
      requires Swept(all, timers, answers, starts, i) && i < |all|
      ensures var keep, begun := StayFlags(timers, nticks, answers), if Due(timers[i], nticks) then starts[i] else [];
              && BegunBy(nticks, timers, starts, i + 1) == BegunBy(nticks, timers, starts, i) + begun
              && Front(BegunBy(nticks, timers, starts, i + 1)) == Front(begun) + Front(BegunBy(nticks, timers, starts, i))
              && FrontTimers(nticks, BegunBy(nticks, timers, starts, i + 1))
                 == FrontTimers(nticks, begun) + FrontTimers(nticks, BegunBy(nticks, timers, starts, i))
              && Front(begun) + (if keep[i] then list else Minus(list, all[i]))
                 == Front(BegunBy(nticks, timers, starts, i + 1)) + Midway(all, keep, i + 1)
    {
      hide Marked, Minus, Midway, StayFlags, Stays, Due, NextTimer, AlarmTime.Ticked, Begun;
      var keep, front := StayFlags(timers, nticks, answers), BegunBy(nticks, timers, starts, i);
      FrontPlace(head, Front(front), all, keep, i);
      ApartParts(head, Front(front), Midway(all, keep, i));
      MidwayNext(head, all, keep, i);
      BegunNext(starts, DueFlags(timers, nticks), i);
      FrontJoins(nticks, front, if Due(timers[i], nticks) then starts[i] else []);
      MinusBehind(Front(front), Midway(all, keep, i), all[i]);
    }

    /** The loop of alt_tick(). */
    method SweepFrom(ghost all: seq<Node>, ghost timers: seq<Timer>, answers: seq<Answer>,
                     starts: seq<seq<Begin<Node>>>, first: Node)
      returns (called: seq<bool>)
      requires Swept(all, timers, answers, starts, 0) && Coming(all, starts, 0, Nodes())
      requires Apart(head, all) && first == At(head, all, 1)
      modifies this`list, Nodes(), AllAlarms(starts)
      ensures Swept(all, timers, answers, starts, |all|)
      ensures called == DueFlags(timers, nticks)
    {
      hide *;
      SameLengths(all, timers, answers, starts, 0);
      called := [];
      var alarm, i := first, 0;
      EndOfSweep(head, all, i);
      while alarm != head
        invariant i <= |all| == |timers| == |answers| == |starts|
        invariant Swept(all, timers, answers, starts, i) && Coming(all, starts, i, Nodes())
        invariant alarm == At(head, all, i + 1)
        invariant (alarm == head <==> i == |all|) && (i < |all| ==> alarm == all[i])
        invariant |called| == i && forall j :: 0 <= j < i ==> called[j] == Due(timers[j], nticks)
        invariant Nodes() <= old(Nodes()) + AllAlarms(starts)
        decreases |all| - i
      {
        var c;
        OfAll(starts, i);
        alarm, c := SweepOne(all, timers, answers, starts, i, alarm);
        called := called + [c];
        i := i + 1;
        EndOfSweep(head, all, i);
      }
    }

    lemma OfAll(starts: seq<seq<Begin<Node>>>, i: nat)
      requires i < |starts|
      ensures Alarms(starts[i]) <= AllAlarms(starts)
    {
    }

    lemma SameLengths(all: seq<Node>, timers: seq<Timer>, answers: seq<Answer>, starts: seq<seq<Begin<Node>>>, i: nat)
      requires Swept(all, timers, answers, starts, i)
      ensures i <= |all| == |timers| == |answers| == |starts|
    {
    }

    method Sweep(ghost all: seq<Node>, ghost timers: seq<Timer>, answers: seq<Answer>, starts: seq<seq<Begin<Node>>>)
      returns (called: seq<bool>)
      requires Swept(all, timers, answers, starts, 0) && Coming(all, starts, 0, Nodes())
      requires Apart(head, all) && list == all
      modifies this`list, Nodes(), AllAlarms(starts)
      ensures Swept(all, timers, answers, starts, |all|)
      ensures called == DueFlags(timers, nticks)
    {
      hide Minus, StayFlags, DueFlags, Stays, Due, NextTimer, Ticked, Timers, Coming, Front, FrontTimers, Begun;
      var alarm := head.next;
      assert At(head, all, 0) == head && alarm == At(head, all, 1);
      called := SweepFrom(all, timers, answers, starts, alarm);
    }

    /** The sweep starts with nothing visited. */
    method SweepAll(ghost all: seq<Node>, ghost timers: seq<Timer>, answers: seq<Answer>, starts: seq<seq<Begin<Node>>>)
      returns (called: seq<bool>)
      requires Valid() && all == list && timers == Timers(list) && |answers| == |starts| == |list|
      requires Coming(all, starts, 0, Nodes())
      modifies this`list, Nodes(), AllAlarms(starts)
      ensures Swept(all, timers, answers, starts, |all|) && Valid()
      ensures called == DueFlags(timers, nticks)
    {
      hide Minus, StayFlags, DueFlags, Stays, Due, NextTimer, AlarmTime.Ticked, Marked, View, Coming;
      MidwayEnds(all, StayFlags(timers, nticks, answers));
      assert Front(BegunBy(nticks, timers, starts, 0)) + all == all;
      called := Sweep(all, timers, answers, starts);
    }

    lemma ViewParts()
      ensures View().now == nticks && View().ids == list && View().timers == Timers(list)
    {
    }

    /** alt_tick().  `answers[i]` is what the callback of the alarm in place i does if it is called,
        and `starts[i]` the alarms, none of them registered, that it starts.  Every alarm registered
        at the start is visited exactly once, in order; those that are due, and no others, are
        called; those that ask to stop are taken out, and the rest stay in order with their deadlines
        moved on.  Starting an alarm during the tick is as good as starting it right after. */
    method Tick(answers: seq<Answer>, starts: seq<seq<Begin<Node>>>) returns (called: seq<bool>)
      requires Valid() && |answers| == |starts| == |list| && Coming(list, starts, 0, Nodes())
      modifies this`list, this`nticks, Nodes(), AllAlarms(starts)
      ensures Valid() && called == DueFlags(old(Timers(list)), nticks)
      ensures var ticked, begun := Apply(old(View()), TickAll(answers)), StartEvents(Begun(starts, called));
              IsRun(ticked, begun) && View() == RunEnd(ticked, begun)
      ensures Ticked(old(list), old(Timers(list)), answers)
    {
      hide Linked, Swept, Timers, View, Apply, Ticked, AlarmTime.Ticked, DueFlags, StayFlags, Marked, Stays, Due;
      hide NextTimer, NextTimers, Minus, Coming, Begun, IsRun, RunEnd, StartEvents;
      ghost var c, all, timers := View(), list, Timers(list);
      ViewParts();
      nticks := (nticks + 1) % WORD;
      called := SweepAll(all, timers, answers, starts);
      SweptTicked(all, timers, answers, starts);
      TickIsModel(c, answers, Begun(starts, called));
    }

    /** All alarms have their new fields, and those that do not stay are out of the list. */
    ghost predicate Ticked(all: seq<Node>, timers: seq<Timer>, answers: seq<Answer>)
      reads this, all
    {
      && |all| == |timers| == |answers|
      && (forall i :: 0 <= i < |all| ==> all[i].View() == NextTimer(timers[i], nticks, answers[i]))
      && (forall i :: 0 <= i < |all| && !Stays(timers[i], nticks, answers[i]) ==> Detached(all[i]) && all[i] !in list)
    }

    lemma SweptTimers(all: seq<Node>, timers: seq<Timer>, answers: seq<Answer>, starts: seq<seq<Begin<Node>>>)
      requires Swept(all, timers, answers, starts, |all|)
      ensures Timers(all) == NextTimers(timers, nticks, answers)
    {
    }

    lemma SweptTicked(all: seq<Node>, timers: seq<Timer>, answers: seq<Answer>, starts: seq<seq<Begin<Node>>>)
      requires Swept(all, timers, answers, starts, |all|)
      ensures Ticked(all, timers, answers)
      ensures |starts| == |timers| == |answers|
      ensures var begun, keep := Begun(starts, DueFlags(timers, nticks)), StayFlags(timers, nticks, answers);
              && list == Front(begun) + Marked(all, keep)
              && Timers(list) == FrontTimers(nticks, begun) + Marked(NextTimers(timers, nticks, answers), keep)
    {
      hide Stays, NextTimer, Due, Linked, Timers, Marked, Begun, Front, FrontTimers;
      var keep := StayFlags(timers, nticks, answers);
      assert starts[..|all|] == starts && DueFlags(timers, nticks)[..|all|] == DueFlags(timers, nticks);
      MidwayEnds(all, keep);
      SweptTimers(all, timers, answers, starts);
      TimersMarked(all, keep);
      TimersJoin(Front(Begun(starts, DueFlags(timers, nticks))), Marked(all, keep));
    }

    lemma TickIsModel(c: Clockwork<Node>, answers: seq<Answer>, begun: seq<Begin<Node>>)
      requires Paired(c) && |answers| == |c.ids| && nticks == (c.now + 1) % WORD && Valid()
      requires list == Front(begun) + Marked(c.ids, StayFlags(c.timers, nticks, answers))
      requires Timers(list)
               == FrontTimers(nticks, begun) + Marked(NextTimers(c.timers, nticks, answers), StayFlags(c.timers, nticks, answers))
      ensures IsRun(Apply(c, TickAll(answers)), StartEvents(begun))
      ensures View() == RunEnd(Apply(c, TickAll(answers)), StartEvents(begun))
    {
      hide Marked, Stays, NextTimer, Due, Timers, IsRun, RunEnd, FrontTimers;
      ApartParts(head, Front(begun), Marked(c.ids, StayFlags(c.timers, nticks, answers)));
      assert forall i :: 0 <= i < |begun| ==> Front(begun)[|begun| - 1 - i] == begun[i].alarm;
      StartsInFront(Apply(c, TickAll(answers)), begun);
    }
  }
}
