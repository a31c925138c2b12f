/** The walk of alt_tick() on the links once more.  Here callbacks stop any alarms and start any that
    are not registered at that moment, in any order, so that the links are always those of a list. */
module AlarmRings {
  import opened AlarmWalk
  import opened AlarmLinks
  import opened Lists

  /** The links of a list; every other alarm is linked to itself. */
  ghost predicate RingOnly(l: Links, list: seq<nat>) {
    Ring(l, list) && forall a :: a !in list ==> Follow(l, At(a)) == At(a) == Back(l, At(a))
  }

  /** What the acts make of a list. */
  function ListAfter(list: seq<nat>, acts: seq<Act>): seq<nat>
    decreases |acts|
  {
    if acts == [] then list else ListAfter(ListAfterOne(list, acts[0]), acts[1..])
  }

  function ListAfterOne(list: seq<nat>, act: Act): seq<nat> {
    match act
    case Start(a) => [a] + list
    case Stop(a) => Remaining(list, {a})
  }

  /** They start no alarm that is registered. */
  predicate Fair(list: seq<nat>, acts: seq<Act>)
    decreases |acts|
  {
    acts == [] || ((acts[0].Start? ==> acts[0].alarm !in list) && Fair(ListAfterOne(list, acts[0]), acts[1..]))
  }

  function Stopped(acts: seq<Act>): (s: set<nat>)
    ensures forall a :: a in s <==> Stop(a) in acts
  {
    if acts == [] then {} else StoppedOne(acts[0]) + Stopped(acts[1..])
  }

  function StoppedOne(act: Act): set<nat> { if act.Stop? then {act.alarm} else {} }

  // -----------------------------------------------------------------------------------------
  // One visit
  // -----------------------------------------------------------------------------------------

  lemma OneIsRing(l: Links, list: seq<nat>, act: Act)
    requires RingOnly(l, list) && (act.Start? ==> act.alarm !in list)
    ensures RingOnly(DoneOne(l, act), ListAfterOne(list, act))
  {
    match act
    case Start(a) =>
      InsertedIsRing(l, list, a);
      OthersInserted(l, list, a);
    case Stop(a) =>
      if a in list {
        var k :| 0 <= k < |list| && list[k] == a;
        RemovedIsRing(l, list, k);
        OthersRemoved(l, list, k);
      } else {
        RemainingAll(list, {a});
        RemovedLinks(l, a);
        hide Removed, Remaining;
        RingAgrees(l, Removed(l, a), list);
      }
  }

  lemma RingAgrees(l: Links, m: Links, list: seq<nat>)
    requires RingOnly(l, list) && forall p :: Follow(m, p) == Follow(l, p) && Back(m, p) == Back(l, p)
    ensures RingOnly(m, list)
  {
  }

  /** On a ring the neighbours of the head and of an alarm of the list are again such. */
  lemma Neighbours(l: Links, list: seq<nat>, a: nat)
    requires Ring(l, list) && a !in list
    ensures Follow(l, Head) != At(a) && Back(l, Head) != At(a)
    ensures forall k :: 0 <= k < |list| ==> Follow(l, At(list[k])) != At(a) && Back(l, At(list[k])) != At(a)
  {
    assert Before(list, 0) == Head && Here(list, |list|) == Head;
    forall k | 0 <= k < |list| ensures Follow(l, At(list[k])) != At(a) && Back(l, At(list[k])) != At(a) {
      assert Before(list, k + 1) == At(list[k]) == Here(list, k);
    }
  }

  lemma OthersInserted(l: Links, list: seq<nat>, a: nat)
    requires RingOnly(l, list) && a !in list
    ensures forall b :: b !in [a] + list ==>
                          Follow(Inserted(l, a), At(b)) == At(b) && Back(Inserted(l, a), At(b)) == At(b)
  {
    InsertedLinks(l, a);
    hide Inserted;
    forall b | b !in [a] + list
      ensures Follow(Inserted(l, a), At(b)) == At(b) && Back(Inserted(l, a), At(b)) == At(b)
    {
      Neighbours(l, list, b);
    }
  }

  lemma OthersRemoved(l: Links, list: seq<nat>, k: nat)
    requires RingOnly(l, list) && k < |list|
    ensures var m := Removed(l, list[k]);
            forall b :: b !in Remaining(list, {list[k]}) ==> Follow(m, At(b)) == At(b) && Back(m, At(b)) == At(b)
  {
    var m := Removed(l, list[k]);
    RemovedLinks(l, list[k]);
    hide Removed;
    forall b | b !in Remaining(list, {list[k]}) ensures Follow(m, At(b)) == At(b) && Back(m, At(b)) == At(b) {
      if b != list[k] {
        Neighbours(l, list, b);
      }
    }
  }

  /** As long as no registered alarm is started, the links stay those of a list. */
  lemma {:induction false} DoneIsRing(l: Links, list: seq<nat>, acts: seq<Act>)
    requires RingOnly(l, list) && Fair(list, acts)
    ensures RingOnly(Done(l, acts), ListAfter(list, acts))
    decreases |acts|
  {
    hide RingOnly, DoneOne, ListAfterOne;
    if acts != [] {
      OneIsRing(l, list, acts[0]);
      DoneIsRing(DoneOne(l, acts[0]), ListAfterOne(list, acts[0]), acts[1..]);
    }
  }

  lemma {:induction false} RemainingTwice(list: seq<nat>, a: set<nat>, b: set<nat>)
    ensures Remaining(Remaining(list, a), b) == Remaining(list, a + b)
  {
    if list != [] {
      RemainingTwice(list[1..], a, b);
      var front := if list[0] in a then [] else [list[0]];
      RemainingConcat(front, Remaining(list[1..], a), b);
    }
  }

  lemma OneSplits(before: seq<nat>, rest: seq<nat>, act: Act)
    ensures ListAfterOne(before + rest, act) == ListAfterOne(before, act) + Remaining(rest, StoppedOne(act))
  {
    hide Remaining;
    RemainingAll(rest, {});
    RemainingConcat(before, rest, {act.alarm});
  }

  /** The part of a list ahead of the walk only loses what is stopped. */
  lemma {:induction false} AfterSplits(before: seq<nat>, rest: seq<nat>, acts: seq<Act>)
    ensures ListAfter(before + rest, acts) == ListAfter(before, acts) + Remaining(rest, Stopped(acts))
    decreases |acts|
  {
    hide ListAfterOne, Remaining, StoppedOne;
    if acts == [] {
      RemainingAll(rest, {});
    } else {
      var act := acts[0];
      OneSplits(before, rest, act);
      AfterSplits(ListAfterOne(before, act), Remaining(rest, StoppedOne(act)), acts[1..]);
      RemainingTwice(rest, StoppedOne(act), Stopped(acts[1..]));
    }
  }

  // -----------------------------------------------------------------------------------------
  // A stopped alarm
  // -----------------------------------------------------------------------------------------

  lemma {:induction false} StaysOut(list: seq<nat>, acts: seq<Act>, a: nat)
    requires a !in list && !Starts(acts, a)
    ensures a !in ListAfter(list, acts)
    decreases |acts|
  {
    if acts != [] {
      assert acts[0] in acts;
      StaysOut(ListAfterOne(list, acts[0]), acts[1..], a);
    }
  }

  lemma {:induction false} GoneAfter(list: seq<nat>, acts: seq<Act>, a: nat)
    requires a in Stopped(acts) && !Starts(acts, a)
    ensures a !in ListAfter(list, acts)
    decreases |acts|
  {
    if acts[0] == Stop(a) {
      StaysOut(Remaining(list, {a}), acts[1..], a);
    } else {
      GoneAfter(ListAfterOne(list, acts[0]), acts[1..], a);
    }
  }

  /** Linked to itself, and from nowhere else. */
  ghost predicate Alone(l: Links, a: nat) {
    && Follow(l, At(a)) == At(a) == Back(l, At(a))
    && forall p :: p != At(a) ==> Follow(l, p) != At(a) && Back(l, p) != At(a)
  }

  lemma OutIsAlone(l: Links, list: seq<nat>, a: nat)
    requires RingOnly(l, list) && a !in list
    ensures Alone(l, a)
  {
    Neighbours(l, list, a);
    forall p | p != At(a) ensures Follow(l, p) != At(a) && Back(l, p) != At(a) {
      if p.At? && p.alarm in list {
        var k :| 0 <= k < |list| && list[k] == p.alarm;
      }
    }
  }

  lemma AloneOne(l: Links, a: nat, act: Act)
    requires Alone(l, a) && act != Start(a)
    ensures Alone(DoneOne(l, act), a)
  {
    InsertedLinks(l, act.alarm);
    RemovedLinks(l, act.alarm);
    hide Inserted, Removed;
  }

  lemma {:induction false} StaysAlone(l: Links, a: nat, acts: seq<Act>)
    requires Alone(l, a) && !Starts(acts, a)
    ensures Alone(Done(l, acts), a)
    decreases |acts|
  {
    hide Alone, DoneOne;
    if acts != [] {
      assert acts[0] in acts;
      AloneOne(l, a, acts[0]);
      StaysAlone(DoneOne(l, acts[0]), a, acts[1..]);
    }
  }

  lemma {:induction false} AloneForever(l: Links, a: nat, acts: nat -> seq<Act>, steps: nat)
    requires Alone(l, a) && !Starts(acts(a), a)
    ensures !Returns(l, At(a), acts, steps)
    decreases steps
  {
    if steps > 0 {
      StaysAlone(l, a, acts(a));
      AloneForever(Done(l, acts(a)), a, acts, steps - 1);
    }
  }

  // -----------------------------------------------------------------------------------------
  // The whole walk
  // -----------------------------------------------------------------------------------------

  /** What the walk has behind it after visiting rest[0], and what is still ahead. */
  function Behind(before: seq<nat>, rest: seq<nat>, acts: nat -> seq<Act>): seq<nat>
    requires rest != []
  {
    ListAfter(before + [rest[0]], acts(rest[0]))
  }

  function Beyond(rest: seq<nat>, acts: nat -> seq<Act>): (r: seq<nat>)
    requires rest != []
    ensures |r| < |rest|
  {
    Remaining(rest[1..], Stopped(acts(rest[0])))
  }

  /** The visit of rest[0] does not stop the alarm that comes next. */
  predicate KeepsNext(rest: seq<nat>, acts: nat -> seq<Act>)
    requires rest != []
  {
    |rest| > 1 ==> rest[1] !in Stopped(acts(rest[0]))
  }

  /** No visit does. */
  predicate NextsKept(rest: seq<nat>, acts: nat -> seq<Act>)
    decreases |rest|
  {
    rest == [] || (KeepsNext(rest, acts) && NextsKept(Beyond(rest, acts), acts))
  }

  /** As far as the walk gets, no registered alarm is started, and an alarm that is stopped while
      it comes next is started again neither by the one that stops it nor by its own callback. */
  predicate Proper(before: seq<nat>, rest: seq<nat>, acts: nat -> seq<Act>)
    decreases |rest|
  {
    rest == [] ||
    (&& Fair(before + rest, acts(rest[0]))
     && (if KeepsNext(rest, acts) then Proper(Behind(before, rest, acts), Beyond(rest, acts), acts)
         else !Starts(acts(rest[0]), rest[1]) && !Starts(acts(rest[1]), rest[1])))
  }

  /** The alarms that the walk visits, and the list that it leaves. */
  function Seen(rest: seq<nat>, acts: nat -> seq<Act>): seq<nat>
    decreases |rest|
  {
    if rest == [] then [] else [rest[0]] + Seen(Beyond(rest, acts), acts)
  }

  function LeftBy(before: seq<nat>, rest: seq<nat>, acts: nat -> seq<Act>): seq<nat>
    decreases |rest|
  {
    if rest == [] then before else LeftBy(Behind(before, rest, acts), Beyond(rest, acts), acts)
  }

  /** The links after so many iterations, or when the walk is back at the head. */
  function LinksAfter(l: Links, place: Place, acts: nat -> seq<Act>, steps: nat): Links
    decreases steps
  {
    if place.Head? || steps == 0 then l
    else LinksAfter(Done(l, acts(place.alarm)), Follow(l, place), acts, steps - 1)
  }

  /** One visit: the links are those of the list that it leaves, and the saved next alarm is the
      first one ahead if it has not been stopped. */
  lemma VisitOnRing(l: Links, before: seq<nat>, rest: seq<nat>, acts: nat -> seq<Act>)
    requires RingOnly(l, before + rest) && rest != [] && Fair(before + rest, acts(rest[0]))
    ensures RingOnly(Done(l, acts(rest[0])), Behind(before, rest, acts) + Beyond(rest, acts))
    ensures Behind(before, rest, acts) + Beyond(rest, acts) == ListAfter(before + rest, acts(rest[0]))
    ensures Follow(l, At(rest[0])) == First(rest[1..])
    ensures KeepsNext(rest, acts) ==> First(rest[1..]) == First(Beyond(rest, acts))
  {
    hide Done, ListAfter, Fair, Stopped, Ring, Distinct, Follow, Back, Next, Remaining;
    DoneIsRing(l, before + rest, acts(rest[0]));
    assert before + rest == (before + [rest[0]]) + rest[1..];
    AfterSplits(before + [rest[0]], rest[1..], acts(rest[0]));
    ComesNext(l, before, rest);
    if KeepsNext(rest, acts) {
      KeptIsFirst(rest, acts);
    }
  }

  lemma ComesNext(l: Links, before: seq<nat>, rest: seq<nat>)
    requires Ring(l, before + rest) && rest != []
    ensures Follow(l, At(rest[0])) == First(rest[1..])
  {
    assert (before + rest)[|before|] == rest[0];
    RingNext(l, before + rest, |before|);
    NextAfter(before, rest);
  }

  lemma KeptIsFirst(rest: seq<nat>, acts: nat -> seq<Act>)
    requires rest != [] && KeepsNext(rest, acts)
    ensures First(rest[1..]) == First(Beyond(rest, acts))
  {
  }

  lemma {:induction false} ComesRound(l: Links, before: seq<nat>, rest: seq<nat>, acts: nat -> seq<Act>, steps: nat)
    requires RingOnly(l, before + rest) && Proper(before, rest, acts) && NextsKept(rest, acts) && steps >= |rest|
    ensures Returns(l, First(rest), acts, steps) && Visits(l, First(rest), acts, steps) == Seen(rest, acts)
    ensures RingOnly(LinksAfter(l, First(rest), acts, steps), LeftBy(before, rest, acts))
    decreases |rest|
  {
    hide RingOnly, Done, Fair, Behind, Beyond, KeepsNext, Starts;
    if rest != [] {
      VisitOnRing(l, before, rest, acts);
      ComesRound(Done(l, acts(rest[0])), Behind(before, rest, acts), Beyond(rest, acts), acts, steps - 1);
    } else {
      assert before + rest == before;
    }
  }

  lemma {:induction false} GetsStuck(l: Links, before: seq<nat>, rest: seq<nat>, acts: nat -> seq<Act>, steps: nat)
    requires RingOnly(l, before + rest) && Proper(before, rest, acts) && !NextsKept(rest, acts)
    ensures !Returns(l, First(rest), acts, steps)
    decreases |rest|
  {
    if steps > 0 {
      VisitOnRing(l, before, rest, acts);
      var m := Done(l, acts(rest[0]));
      if KeepsNext(rest, acts) {
        GetsStuck(m, Behind(before, rest, acts), Beyond(rest, acts), acts, steps - 1);
      } else {
        GoneAfter(before + rest, acts(rest[0]), rest[1]);
        OutIsAlone(m, ListAfter(before + rest, acts(rest[0])), rest[1]);
        AloneForever(m, rest[1], acts, steps - 1);
      }
      hide RingOnly, Done, Fair, Behind, Beyond, Starts, ListAfter;
    }
  }

  /** With callbacks that stop any alarms and start any that are not registered at that moment, in
      any order, alt_tick() gets back to the list head if and only if no visit stops the alarm that
      comes next.  The links are then again those of a list: of the alarms that were there and of
      those started, without those stopped. */
  lemma FairWalkExactly(l: Links, list: seq<nat>, acts: nat -> seq<Act>)
    requires RingOnly(l, list) && Proper([], list, acts)
    ensures NextsKept(list, acts) <==> exists steps: nat :: Returns(l, First(list), acts, steps)
    ensures NextsKept(list, acts) ==>
              && Returns(l, First(list), acts, |list|) && Visits(l, First(list), acts, |list|) == Seen(list, acts)
              && RingOnly(LinksAfter(l, First(list), acts, |list|), LeftBy([], list, acts))
  {
    hide NextsKept, Proper, RingOnly, Returns, Visits, First, Seen, LeftBy, LinksAfter;
    assert [] + list == list;
    if NextsKept(list, acts) {
      ComesRound(l, [], list, acts, |list|);
    } else {
      forall steps: nat ensures !Returns(l, First(list), acts, steps) {
        GetsStuck(l, [], list, acts, steps);
      }
    }
  }
}
