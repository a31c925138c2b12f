/** alt_tick() walks the alarm list while callbacks change it.  Here callbacks may stop any alarms
    they like and start alarms that are not registered, and the question is when the walk ends.  An
    alarm that has been taken out is linked to itself, so a walk that arrives there stays there. */
module AlarmWalk {
  import opened Lists

  /** Where the walk is: back at the list head, or at an alarm. */
  datatype Place = Head | At(alarm: nat)

  /** What happens while an alarm is visited, by its callback or because that returned 0: which
      alarms are stopped and which are started; the last one started comes first. */
  datatype Acts = Acts(stops: set<nat>, starts: seq<nat>)

  /** The list after a visit: started alarms are inserted at the front. */
  function Changed(list: seq<nat>, acts: Acts): seq<nat> {
    acts.starts + Remaining(list, acts.stops)
  }

  /** Callbacks start alarms that nobody else starts and that are in none of these places. */
  ghost predicate Fresh(list: seq<nat>, rest: seq<nat>, acts: nat -> Acts) {
    && (forall a :: Distinct(acts(a).starts))
    && (forall a, b, c :: b in acts(a).starts && a != c ==> b !in acts(c).starts)
    && (forall a, b :: a in rest && b in acts(a).starts ==> b !in list)
  }

  /** The `next` link: to the following element, from the last one to the head, and from an
      alarm that is in no list to itself. */
  function Next(list: seq<nat>, a: nat): Place {
    if list == [] then At(a)
    else if list[0] != a then Next(list[1..], a)
    else if |list| == 1 then Head
    else At(list[1])
  }

  /** The list after `gone` have been stopped. */
  function Remaining(list: seq<nat>, gone: set<nat>): (r: seq<nat>)
    ensures forall a :: a in r <==> a in list && a !in gone
    ensures |r| <= |list|
  {
    if list == [] then []
    else (if list[0] in gone then [] else [list[0]]) + Remaining(list[1..], gone)
  }

  /** The walk for at most `steps` iterations of the loop: has it come back to the head?  The next
      place is read before the callback runs. */
  function Ends(list: seq<nat>, place: Place, acts: nat -> Acts, steps: nat): bool
    decreases steps
  {
    if place.Head? then true
    else if steps == 0 then false
    else Ends(Changed(list, acts(place.alarm)), Next(list, place.alarm), acts, steps - 1)
  }

  /** The alarms that the walk visits in these iterations, in order. */
  function Trace(list: seq<nat>, place: Place, acts: nat -> Acts, steps: nat): seq<nat>
    decreases steps
  {
    if place.Head? || steps == 0 then []
    else [place.alarm] + Trace(Changed(list, acts(place.alarm)), Next(list, place.alarm), acts, steps - 1)
  }

  function First(list: seq<nat>): Place {
    if list == [] then Head else At(list[0])
  }

  /** No alarm that is visited has its successor stopped while it is visited. */
  predicate Safe(rest: seq<nat>, acts: nat -> Acts)
    decreases |rest|
  {
    |rest| <= 1 || (rest[1] !in acts(rest[0]).stops && Safe(Remaining(rest[1..], acts(rest[0]).stops), acts))
  }

  /** The alarms that a safe walk visits: each one unless it was stopped before its turn. */
  function Visited(rest: seq<nat>, acts: nat -> Acts): seq<nat>
    decreases |rest|
  {
    if rest == [] then []
    else [rest[0]] + Visited(Remaining(rest[1..], acts(rest[0]).stops), acts)
  }

  lemma {:induction false} NextAfter(before: seq<nat>, rest: seq<nat>)
    requires rest != [] && Distinct(before + rest)
    ensures Next(before + rest, rest[0]) == First(rest[1..])
  {
    if before != [] {
      var list := before + rest;
      assert list[|before|] == rest[0];
      assert list[1..] == before[1..] + rest;
      NextAfter(before[1..], rest);
    } else {
      assert before + rest == rest;
    }
  }

  lemma {:induction false} NextOfStopped(list: seq<nat>, a: nat)
    requires a !in list
    ensures Next(list, a) == At(a)
  {
    if list != [] {
      NextOfStopped(list[1..], a);
    }
  }

  lemma {:induction false} RemainingConcat(a: seq<nat>, b: seq<nat>, gone: set<nat>)
    ensures Remaining(a + b, gone) == Remaining(a, gone) + Remaining(b, gone)
  {
    if a == [] {
      assert a + b == b;
    } else {
      assert (a + b)[1..] == a[1..] + b;
      RemainingConcat(a[1..], b, gone);
    }
  }

  lemma {:induction false} RemainingDistinct(list: seq<nat>, gone: set<nat>)
    requires Distinct(list)
    ensures Distinct(Remaining(list, gone))
  {
    if list != [] {
      RemainingDistinct(list[1..], gone);
      assert forall k :: 0 <= k < |list| - 1 ==> list[1..][k] == list[k + 1];
      assert list[0] !in list[1..];
    }
  }

  lemma DistinctConcat(a: seq<nat>, b: seq<nat>)
    requires Distinct(a) && Distinct(b) && forall x :: x in a ==> x !in b
    ensures Distinct(a + b)
  {
    var c := a + b;
    forall i, j | 0 <= i < j < |c| ensures c[i] != c[j] {
      if i < |a| <= j {
        assert c[i] in a && c[j] in b;
      }
    }
  }

  /** Once at a stopped alarm the walk never leaves it. */
  lemma {:induction false} StuckForever(list: seq<nat>, a: nat, acts: nat -> Acts, steps: nat)
    requires a !in list && a !in acts(a).starts
    ensures !Ends(list, At(a), acts, steps)
    decreases steps
  {
    if steps > 0 {
      NextOfStopped(list, a);
      StuckForever(Changed(list, acts(a)), a, acts, steps - 1);
    }
  }

  /** What is left after visiting rest[0]: a part that was passed and a part still ahead, and the
      part ahead starts with the next alarm if that was not stopped. */
  lemma SplitLeft(before: seq<nat>, rest: seq<nat>, gone: set<nat>)
    requires rest != []
    ensures Remaining(before + rest, gone) == Remaining(before + [rest[0]], gone) + Remaining(rest[1..], gone)
    ensures |rest| > 1 && rest[1] !in gone ==> First(Remaining(rest[1..], gone)) == At(rest[1])
  {
    assert before + rest == (before + [rest[0]]) + rest[1..];
    RemainingConcat(before + [rest[0]], rest[1..], gone);
  }

  /** The part of the list that the walk has behind it after visiting rest[0], and that ahead. */
  function Passed(before: seq<nat>, rest: seq<nat>, acts: nat -> Acts): seq<nat>
    requires rest != []
  {
    acts(rest[0]).starts + Remaining(before + [rest[0]], acts(rest[0]).stops)
  }

  function Ahead(rest: seq<nat>, acts: nat -> Acts): (r: seq<nat>)
    requires rest != []
    ensures |r| < |rest|
    ensures forall a :: a in r ==> a in rest
  {
    Remaining(rest[1..], acts(rest[0]).stops)
  }

  lemma ChangedSplits(before: seq<nat>, rest: seq<nat>, acts: nat -> Acts)
    requires rest != []
    ensures Changed(before + rest, acts(rest[0])) == Passed(before, rest, acts) + Ahead(rest, acts)
  {
    SplitLeft(before, rest, acts(rest[0]).stops);
  }

  /** The list stays without duplicates, and what is still to be started stays fresh. */
  lemma StaysFresh(before: seq<nat>, rest: seq<nat>, acts: nat -> Acts)
    requires rest != [] && Distinct(before + rest) && Fresh(before + rest, rest, acts)
    ensures Distinct(Passed(before, rest, acts) + Ahead(rest, acts))
    ensures Fresh(Passed(before, rest, acts) + Ahead(rest, acts), Ahead(rest, acts), acts)
  {
    var list, doing := before + rest, acts(rest[0]);
    var left := Remaining(list, doing.stops);
    RemainingDistinct(list, doing.stops);
    assert rest[0] in rest;
    DistinctConcat(doing.starts, left);
    ChangedSplits(before, rest, acts);
    NotAgain(before, rest);
    hide Distinct, Remaining, Passed;
    forall a, b | a in Ahead(rest, acts) && b in acts(a).starts
      ensures b !in doing.starts + left
    {
      assert a in rest && a != rest[0];
    }
  }

  lemma NotAgain(before: seq<nat>, rest: seq<nat>)
    requires rest != [] && Distinct(before + rest)
    ensures rest[0] !in rest[1..]
  {
    var list := before + rest;
    assert list[|before|] == rest[0];
    assert forall k :: 0 <= k < |rest| - 1 ==> rest[1..][k] == list[|before| + 1 + k];
  }

  /** One iteration of a walk that has `rest` ahead and whose next stop stays in the list. */
  lemma EndsOnce(before: seq<nat>, rest: seq<nat>, acts: nat -> Acts, steps: nat)
    requires Distinct(before + rest) && rest != [] && steps > 0
    requires |rest| > 1 ==> rest[1] !in acts(rest[0]).stops
    ensures Ends(before + rest, First(rest), acts, steps)
            == Ends(Passed(before, rest, acts) + Ahead(rest, acts), First(Ahead(rest, acts)), acts, steps - 1)
    ensures Trace(before + rest, First(rest), acts, steps)
            == [rest[0]] + Trace(Passed(before, rest, acts) + Ahead(rest, acts), First(Ahead(rest, acts)), acts, steps - 1)
  {
    NextAfter(before, rest);
    SplitLeft(before, rest, acts(rest[0]).stops);
    ChangedSplits(before, rest, acts);
    hide Distinct, Remaining, Next, Changed, Passed;
    assert Ends(before + rest, First(rest), acts, steps)
        == Ends(Changed(before + rest, acts(rest[0])), Next(before + rest, rest[0]), acts, steps - 1);
    if |rest| == 1 {
      assert Ahead(rest, acts) == [];
    }
  }

  lemma {:induction false} StuckEventually(before: seq<nat>, rest: seq<nat>, acts: nat -> Acts, steps: nat)
    requires Distinct(before + rest) && Fresh(before + rest, rest, acts) && !Safe(rest, acts)
    ensures !Ends(before + rest, First(rest), acts, steps)
    decreases |rest|
  {
    hide *;
    if steps == 0 {
      NotYet(before + rest, rest, acts);
    } else if |rest| > 1 && rest[1] in acts(rest[0]).stops {
      StuckHere(before, rest, acts, steps);
    } else {
      UnsafeOnwards(rest, acts);
      EndsOnce(before, rest, acts, steps);
      StaysFresh(before, rest, acts);
      StuckEventually(Passed(before, rest, acts), Ahead(rest, acts), acts, steps - 1);
    }
  }

  lemma UnsafeOnwards(rest: seq<nat>, acts: nat -> Acts)
    requires !Safe(rest, acts)
    ensures |rest| > 1 && (rest[1] !in acts(rest[0]).stops ==> !Safe(Ahead(rest, acts), acts))
  {
  }

  lemma NotYet(list: seq<nat>, rest: seq<nat>, acts: nat -> Acts)
    requires !Safe(rest, acts)
    ensures !Ends(list, First(rest), acts, 0)
  {
  }

  lemma StuckHere(before: seq<nat>, rest: seq<nat>, acts: nat -> Acts, steps: nat)
    requires |rest| > 1 && Distinct(before + rest) && Fresh(before + rest, rest, acts)
    requires rest[1] in acts(rest[0]).stops
    ensures !Ends(before + rest, First(rest), acts, steps)
  {
    NextAfter(before, rest);
    StoppedIsOut(before, rest, acts);
    if steps > 0 {
      StuckForever(Changed(before + rest, acts(rest[0])), rest[1], acts, steps - 1);
    }
  }

  lemma StoppedIsOut(before: seq<nat>, rest: seq<nat>, acts: nat -> Acts)
    requires |rest| > 1 && Fresh(before + rest, rest, acts) && rest[1] in acts(rest[0]).stops
    ensures rest[1] !in Changed(before + rest, acts(rest[0])) && rest[1] !in acts(rest[1]).starts
  {
    assert rest[1] in before + rest && rest[0] in rest && rest[1] in rest;
  }

  lemma {:induction false} SafeWalkEnds(before: seq<nat>, rest: seq<nat>, acts: nat -> Acts, steps: nat)
    requires Distinct(before + rest) && Fresh(before + rest, rest, acts) && Safe(rest, acts) && steps >= |rest|
    ensures Ends(before + rest, First(rest), acts, steps)
    ensures Trace(before + rest, First(rest), acts, steps) == Visited(rest, acts)
    decreases |rest|
  {
    hide *;
    if rest == [] {
      AtTheHead(before + rest, acts, steps);
    } else {
      SafeOnwards(rest, acts);
      EndsOnce(before, rest, acts, steps);
      StaysFresh(before, rest, acts);
      SafeWalkEnds(Passed(before, rest, acts), Ahead(rest, acts), acts, steps - 1);
    }
  }

  lemma SafeOnwards(rest: seq<nat>, acts: nat -> Acts)
    requires Safe(rest, acts)
    ensures rest != [] ==> Safe(Ahead(rest, acts), acts) && (|rest| > 1 ==> rest[1] !in acts(rest[0]).stops)
    ensures rest != [] ==> Visited(rest, acts) == [rest[0]] + Visited(Ahead(rest, acts), acts)
  {
  }

  lemma AtTheHead(list: seq<nat>, acts: nat -> Acts, steps: nat)
    ensures Ends(list, First([]), acts, steps) && Trace(list, First([]), acts, steps) == Visited([], acts)
  {
  }

  /** alt_tick() gets back to the list head if and only if no callback that it runs stops the
      very next alarm; it then takes at most one iteration per alarm registered at its start, and
      visits each of them, in order, unless it was stopped before its turn.  Starting alarms that are
      not registered makes no difference: they are behind the walk. */
  lemma WalkEndsExactly(list: seq<nat>, acts: nat -> Acts)
    requires Distinct(list) && Fresh(list, list, acts)
    ensures Safe(list, acts) <==> exists steps: nat :: Ends(list, First(list), acts, steps)
    ensures Safe(list, acts) ==>
              Ends(list, First(list), acts, |list|) && Trace(list, First(list), acts, |list|) == Visited(list, acts)
  {
    hide Safe, Ends, Trace, Visited, Fresh, Distinct;
    assert [] + list == list;
    if Safe(list, acts) {
      SafeWalkEnds([], list, acts, |list|);
    } else {
      forall steps: nat ensures !Ends(list, First(list), acts, steps) {
        StuckEventually([], list, acts, steps);
      }
    }
  }

  /** Two alarms, the first of which stops the second when it is called: the walk never ends. */
  lemma StoppingTheNextHangs(steps: nat)
    ensures !Ends([1, 2], First([1, 2]), a => if a == 1 then Acts({2}, []) else Acts({}, []), steps)
  {
    var acts := a => if a == 1 then Acts({2}, []) else Acts({}, []);
    assert !Safe([1, 2], acts);
    hide Ends, First, Safe, Remaining;
    WalkEndsExactly([1, 2], acts);
  }

  /** Callbacks that stop nothing but their own alarm and start none that is registered are safe:
      the walk ends and visits every alarm registered at its start exactly once, in order.  What
      starting a registered alarm does is proved of the links, in AlarmLinks. */
  lemma OwnStopsAreSafe(list: seq<nat>, acts: nat -> Acts)
    requires Distinct(list) && Fresh(list, list, acts) && forall a :: acts(a).stops <= {a}
    ensures Ends(list, First(list), acts, |list|) && Trace(list, First(list), acts, |list|) == list
  {
    OwnStopsVisitAll(list, acts);
    WalkEndsExactly(list, acts);
  }

  lemma {:induction false} OwnStopsVisitAll(rest: seq<nat>, acts: nat -> Acts)
    requires Distinct(rest) && forall a :: acts(a).stops <= {a}
    ensures Safe(rest, acts) && Visited(rest, acts) == rest
    decreases |rest|
  {
    if rest != [] {
      RemainingAll(rest[1..], acts(rest[0]).stops);
      OwnStopsVisitAll(rest[1..], acts);
    }
  }

  lemma {:induction false} RemainingAll(list: seq<nat>, gone: set<nat>)
    requires forall a :: a in list ==> a !in gone
    ensures Remaining(list, gone) == list
  {
    if list != [] {
      RemainingAll(list[1..], gone);
    }
  }
}
