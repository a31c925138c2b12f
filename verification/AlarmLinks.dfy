/** The walk of alt_tick() on the links themselves.  Here callbacks may start any alarm, also one
    that is in the list already, which then is no list any more; they stop only their own. */
module AlarmLinks {
  import opened AlarmWalk
  import opened Lists

  /** The links of the head and of the alarms; an alarm without an entry is linked to itself. */
  datatype Links = Links(next: map<Place, Place>, previous: map<Place, Place>)

  function Follow(l: Links, p: Place): Place { if p in l.next then l.next[p] else p }

  function Back(l: Links, p: Place): Place { if p in l.previous then l.previous[p] else p }

  datatype Act = Start(alarm: nat) | Stop(alarm: nat)

  /** alt_llist_insert() and alt_llist_remove(), one assignment after the other. */
  function Inserted(l: Links, a: nat): Links {
    var e, first := At(a), Follow(l, Head);
    Links(l.next[e := first][Head := e], l.previous[e := Head][first := e])
  }

  function Removed(l: Links, a: nat): Links {
    var e := At(a);
    var previous := l.previous[Follow(l, e) := Back(l, e)];
    Links(l.next[Back(l, e) := Follow(l, e)][e := e], previous[e := e])
  }

  lemma InsertedLinks(l: Links, a: nat)
    ensures forall p :: Follow(Inserted(l, a), p) == if p == Head then At(a) else if p == At(a) then Follow(l, Head) else Follow(l, p)
    ensures forall p :: Back(Inserted(l, a), p) == if p == Follow(l, Head) then At(a) else if p == At(a) then Head else Back(l, p)
  {
  }

  lemma RemovedLinks(l: Links, a: nat)
    ensures forall p :: Follow(Removed(l, a), p) == if p == At(a) then p else if p == Back(l, At(a)) then Follow(l, At(a)) else Follow(l, p)
    ensures forall p :: Back(Removed(l, a), p) == if p == At(a) then p else if p == Follow(l, At(a)) then Back(l, At(a)) else Back(l, p)
  {
  }

  function DoneOne(l: Links, act: Act): Links {
    match act
    case Start(a) => Inserted(l, a)
    case Stop(a) => Removed(l, a)
  }

  function Done(l: Links, acts: seq<Act>): Links
    decreases |acts|
  {
    if acts == [] then l else Done(DoneOne(l, acts[0]), acts[1..])
  }

  /** The walk for at most `steps` iterations: is it back at the head, and which alarms has it visited?
      The next place is read before the callback runs. */
  predicate Returns(l: Links, place: Place, acts: nat -> seq<Act>, steps: nat)
    decreases steps
  {
    place.Head? || (steps > 0 && Returns(Done(l, acts(place.alarm)), Follow(l, place), acts, steps - 1))
  }

  function Visits(l: Links, place: Place, acts: nat -> seq<Act>, steps: nat): seq<nat>
    decreases steps
  {
    if place.Head? || steps == 0 then []
    else [place.alarm] + Visits(Done(l, acts(place.alarm)), Follow(l, place), acts, steps - 1)
  }

  /** What stands at position k of a list, and before it. */
  function Here(list: seq<nat>, k: nat): Place { if k < |list| then At(list[k]) else Head }

  function Before(list: seq<nat>, k: nat): Place
    requires k <= |list|
  {
    if k > 0 then At(list[k - 1]) else Head
  }

  /** The links are a ring of the head and exactly these alarms. */
  ghost predicate Ring(l: Links, list: seq<nat>) {
    && Distinct(list)
    && forall k :: 0 <= k <= |list| ==> Follow(l, Before(list, k)) == Here(list, k) && Back(l, Here(list, k)) == Before(list, k)
  }

  // -----------------------------------------------------------------------------------------
  // The links of a list
  // -----------------------------------------------------------------------------------------

  /** On a ring the links are those that the walk on lists follows. */
  lemma RingNext(l: Links, list: seq<nat>, k: nat)
    requires Ring(l, list) && k < |list|
    ensures Follow(l, At(list[k])) == Next(list, list[k])
  {
    assert list == list[..k] + list[k..];
    NextAfter(list[..k], list[k..]);
    assert Before(list, k + 1) == At(list[k]);
  }

  lemma InsertedIsRing(l: Links, list: seq<nat>, a: nat)
    requires Ring(l, list) && a !in list
    ensures Ring(Inserted(l, a), [a] + list)
  {
    var m, longer := Inserted(l, a), [a] + list;
    assert Before(list, 0) == Head;
    InsertedLinks(l, a);
    hide Inserted;
    forall k | 0 <= k <= |longer|
      ensures Follow(m, Before(longer, k)) == Here(longer, k) && Back(m, Here(longer, k)) == Before(longer, k)
    {
      if k > 0 {
        assert Here(longer, k) == Here(list, k - 1);
        assert k > 1 ==> Before(longer, k) == Before(list, k - 1);
      }
    }
  }

  lemma RemovedIsRing(l: Links, list: seq<nat>, k: nat)
    requires Ring(l, list) && k < |list|
    ensures Ring(Removed(l, list[k]), Remaining(list, {list[k]}))
    ensures Follow(Removed(l, list[k]), At(list[k])) == At(list[k])
  {
    var m, shorter := Removed(l, list[k]), Remaining(list, {list[k]});
    RemainingAt(list, k);
    RemovedLinks(l, list[k]);
    RemainingDistinct(list, {list[k]});
    hide Removed, Remaining;
    forall i | 0 <= i <= |shorter|
      ensures Follow(m, Before(shorter, i)) == Here(shorter, i) && Back(m, Here(shorter, i)) == Before(shorter, i)
    {
      RemovedAt(l, list, k, i);
    }
  }

  lemma RemovedAt(l: Links, list: seq<nat>, k: nat, i: nat)
    requires Ring(l, list) && k < |list| && i < |list|
    ensures var m, shorter := Removed(l, list[k]), list[..k] + list[k + 1..];
            Follow(m, Before(shorter, i)) == Here(shorter, i) && Back(m, Here(shorter, i)) == Before(shorter, i)
  {
    RemovedLinks(l, list[k]);
    hide Removed;
    assert Before(list, k + 1) == Here(list, k) == At(list[k]);
    var shorter := list[..k] + list[k + 1..];
    var h, b := if i < k then i else i + 1, if i <= k then i else i + 1;
    assert Here(shorter, i) == Here(list, h) && Before(shorter, i) == Before(list, b);
  }

  lemma {:induction false} RemainingAt(list: seq<nat>, k: nat)
    requires Distinct(list) && k < |list|
    ensures Remaining(list, {list[k]}) == list[..k] + list[k + 1..]
  {
    if k == 0 {
      RemainingAll(list[1..], {list[0]});
    } else {
      RemainingAt(list[1..], k - 1);
    }
  }

  // -----------------------------------------------------------------------------------------
  // A walk that is trapped
  // -----------------------------------------------------------------------------------------

  /** The links lead from the head into these alarms and never out of them. */
  ghost predicate Trapped(l: Links, trap: set<nat>) {
    Into(Follow(l, Head), trap) && forall a :: a in trap ==> Into(Follow(l, At(a)), trap)
  }

  predicate Into(place: Place, trap: set<nat>) { place.At? && place.alarm in trap }

  lemma TrappedInto(l: Links, trap: set<nat>, a: nat)
    requires Trapped(l, trap) && a in trap
    ensures Into(Follow(l, At(a)), trap)
  {
  }

  lemma TrappedOne(l: Links, trap: set<nat>, act: Act, a: nat)
    requires Trapped(l, trap) && a in trap && (act.Stop? ==> act.alarm == a)
    ensures Trapped(DoneOne(l, act), if act.Start? then trap + {act.alarm} else trap)
  {
    InsertedLinks(l, act.alarm);
    RemovedLinks(l, act.alarm);
    hide Inserted, Removed;
    var m, more := DoneOne(l, act), if act.Start? then trap + {act.alarm} else trap;
    forall b | b in more ensures Into(Follow(m, At(b)), more) {
      if b in trap {
        TrappedInto(l, trap, b);
      }
    }
  }

  /** Whatever a trapped alarm starts, and however often it stops itself. */
  lemma {:induction false} StaysTrapped(l: Links, trap: set<nat>, acts: seq<Act>, a: nat) returns (larger: set<nat>)
    requires Trapped(l, trap) && a in trap && StopsOnly(acts, a)
    ensures trap <= larger && Trapped(Done(l, acts), larger)
    decreases |acts|
  {
    hide Trapped, DoneOne;
    larger := trap;
    if acts != [] {
      var more := if acts[0].Start? then trap + {acts[0].alarm} else trap;
      TrappedOne(l, trap, acts[0], a);
      larger := StaysTrapped(DoneOne(l, acts[0]), more, acts[1..], a);
    }
  }

  lemma {:induction false} NeverReturns(l: Links, trap: set<nat>, place: Place, acts: nat -> seq<Act>, steps: nat)
    requires Trapped(l, trap) && Into(place, trap) && OwnStops(acts)
    ensures !Returns(l, place, acts, steps)
    decreases steps
  {
    hide Trapped;
    if steps > 0 {
      TrappedInto(l, trap, place.alarm);
      var larger := StaysTrapped(l, trap, acts(place.alarm), place.alarm);
      NeverReturns(Done(l, acts(place.alarm)), larger, Follow(l, place), acts, steps - 1);
    }
  }

  // -----------------------------------------------------------------------------------------
  // A walk that gets on
  // -----------------------------------------------------------------------------------------

  predicate StopsOnly(acts: seq<Act>, a: nat) { forall i :: 0 <= i < |acts| && acts[i].Stop? ==> acts[i].alarm == a }

  ghost predicate OwnStops(acts: nat -> seq<Act>) { forall a :: StopsOnly(acts(a), a) }

  predicate Starts(acts: seq<Act>, a: nat) { Start(a) in acts }

  /** No alarm starts one that the walk has still ahead of it. */
  ghost predicate Clean(list: seq<nat>, acts: nat -> seq<Act>) {
    forall i, j :: 0 <= i < j < |list| ==> !Starts(acts(list[i]), list[j])
  }

  /** The alarms ahead are linked as in the beginning, and none of them comes after itself. */
  ghost predicate Chained(l: Links, rest: seq<nat>) {
    forall k :: 0 <= k < |rest| ==> Follow(l, At(rest[k])) == Here(rest, k + 1) && NotAt(Back(l, At(rest[k])), rest, k)
  }

  /** What is behind the walk leads nowhere but to itself and to the first of the alarms ahead. */
  ghost predicate Leads(l: Links, behind: set<nat>, rest: seq<nat>) {
    && (forall a :: a in rest ==> a !in behind)
    && (rest != [] ==> Into(Follow(l, Head), behind + {rest[0]})
                       && forall a :: a in behind ==> Into(Follow(l, At(a)), behind + {rest[0]}))
  }

  predicate NotAt(place: Place, rest: seq<nat>, k: nat) { forall j :: k <= j < |rest| ==> place != At(rest[j]) }

  lemma StartBehind(l: Links, behind: set<nat>, rest: seq<nat>, a: nat)
    requires Chained(l, rest) && Leads(l, behind, rest) && a !in rest
    ensures Chained(Inserted(l, a), rest) && Leads(Inserted(l, a), behind + {a}, rest)
  {
    InsertedLinks(l, a);
    hide Here, Inserted;
    var m := Inserted(l, a);
    forall k | 0 <= k < |rest|
      ensures Follow(m, At(rest[k])) == Here(rest, k + 1) && NotAt(Back(m, At(rest[k])), rest, k)
    {
    }
    assert rest != [] ==> forall b :: b in behind ==> Into(Follow(l, At(b)), behind + {rest[0]});
  }

  lemma StopBehind(l: Links, behind: set<nat>, rest: seq<nat>, a: nat)
    requires Chained(l, rest) && Leads(l, behind, rest) && a in behind && NotAt(Back(l, At(a)), rest, 0)
    ensures Chained(Removed(l, a), rest) && Leads(Removed(l, a), behind, rest)
  {
    RemovedLinks(l, a);
    hide Here, Removed;
    var m := Removed(l, a);
    forall k | 0 <= k < |rest|
      ensures Follow(m, At(rest[k])) == Here(rest, k + 1) && NotAt(Back(m, At(rest[k])), rest, k)
    {
    }
  }

  lemma ToTheNext(l: Links, rest: seq<nat>, k: nat)
    requires Chained(l, rest) && k < |rest|
    ensures Follow(l, At(rest[k])) == Here(rest, k + 1)
    ensures k + 1 < |rest| ==> Here(rest, k + 1) == At(rest[k + 1])
  {
  }

  lemma FirstsAre(list: seq<nat>, k: nat, a: nat) returns (i: nat)
    requires k < |list| && a in Firsts(list, k)
    ensures i <= k && a == list[i]
    ensures i < k ==> list[i + 1] in Firsts(list, k)
  {
    i :| 0 <= i <= k && a == list[i];
  }

  lemma LeadsInto(l: Links, behind: set<nat>, rest: seq<nat>, trap: set<nat>, a: nat)
    requires Leads(l, behind, rest) && rest != [] && behind <= trap && rest[0] in trap
    ensures Into(Follow(l, Head), trap)
    ensures a in behind ==> Into(Follow(l, At(a)), trap)
  {
  }

  lemma ClosedAt(l: Links, behind: set<nat>, rest: seq<nat>, k: nat, a: nat)
    requires Chained(l, rest) && Leads(l, behind, rest) && k < |rest| && a in behind + Firsts(rest, k)
    ensures Into(Follow(Inserted(l, rest[k]), At(a)), behind + Firsts(rest, k))
  {
    hide Inserted, Chained, Leads, Here, Firsts;
    var trap := behind + Firsts(rest, k);
    LeadsInto(l, behind, rest, trap, a);
    InsertedLinks(l, rest[k]);
    if a !in behind && a != rest[k] {
      var i := FirstsAre(rest, k, a);
      ToTheNext(l, rest, i);
    }
  }

  /** Starting an alarm ahead closes the way from it back to the front. */
  lemma StartAhead(l: Links, behind: set<nat>, rest: seq<nat>, k: nat)
    requires Chained(l, rest) && Leads(l, behind, rest) && k < |rest|
    ensures Trapped(Inserted(l, rest[k]), behind + Firsts(rest, k))
  {
    var trap := behind + Firsts(rest, k);
    InsertedLinks(l, rest[k]);
    assert Into(At(rest[k]), trap);
    hide Inserted, Chained, Leads, Firsts, Into;
    forall a | a in trap ensures Into(Follow(Inserted(l, rest[k]), At(a)), trap) {
      ClosedAt(l, behind, rest, k, a);
    }
  }

  /** The walk goes past the first of the alarms ahead. */
  lemma PassOn(l: Links, behind: set<nat>, rest: seq<nat>)
    requires Chained(l, rest) && Leads(l, behind, rest) && Distinct(rest) && rest != []
    ensures Distinct(rest[1..]) && Chained(l, rest[1..]) && Leads(l, behind + {rest[0]}, rest[1..])
    ensures NotAt(Back(l, At(rest[0])), rest[1..], 0) && Follow(l, At(rest[0])) == Here(rest[1..], 0)
  {
    forall k | 0 <= k < |rest[1..]|
      ensures Follow(l, At(rest[1..][k])) == Here(rest[1..], k + 1) && NotAt(Back(l, At(rest[1..][k])), rest[1..], k)
    {
      assert rest[1..][k] == rest[k + 1];
      assert Here(rest, k + 2) == Here(rest[1..], k + 1);
      assert NotAt(Back(l, At(rest[k + 1])), rest, k + 1);
    }
  }

  /** While alarm a is visited: it starts none of those ahead, and stops at most itself. */
  ghost predicate Visiting(l: Links, behind: set<nat>, rest: seq<nat>, a: nat) {
    Chained(l, rest) && Leads(l, behind, rest) && a in behind && NotAt(Back(l, At(a)), rest, 0)
  }

  lemma VisitOne(l: Links, behind: set<nat>, rest: seq<nat>, a: nat, act: Act) returns (more: set<nat>)
    requires Visiting(l, behind, rest, a) && a !in rest
    requires match act case Start(b) => b !in rest case Stop(b) => b == a
    ensures Visiting(DoneOne(l, act), more, rest, a)
  {
    match act
    case Start(b) =>
      more := behind + {b};
      StartBehind(l, behind, rest, b);
      InsertedLinks(l, b);
      hide Inserted, Chained, Leads;
    case Stop(_) =>
      more := behind;
      StopBehind(l, behind, rest, a);
      RemovedLinks(l, a);
      hide Removed, Chained, Leads;
  }

  lemma {:induction false} VisitOn(l: Links, behind: set<nat>, rest: seq<nat>, a: nat, acts: seq<Act>) returns (more: set<nat>)
    requires Visiting(l, behind, rest, a) && a !in rest && StopsOnly(acts, a)
    requires forall b :: b in rest ==> !Starts(acts, b)
    ensures Visiting(Done(l, acts), more, rest, a)
    decreases |acts|
  {
    more := behind;
    if acts != [] {
      assert acts[0] in acts;
      more := VisitOne(l, behind, rest, a, acts[0]);
      hide Visiting, DoneOne;
      more := VisitOn(DoneOne(l, acts[0]), more, rest, a, acts[1..]);
    }
  }

  lemma {:induction false} VisitTraps(l: Links, behind: set<nat>, rest: seq<nat>, a: nat, acts: seq<Act>) returns (trap: set<nat>)
    requires Visiting(l, behind, rest, a) && a !in rest && StopsOnly(acts, a)
    requires exists b :: b in rest && Starts(acts, b)
    ensures Trapped(Done(l, acts), trap) && rest[0] in trap
    decreases |acts|
  {
    var b :| b in rest && Starts(acts, b);
    assert acts[0] in acts;
    if acts[0].Start? && acts[0].alarm in rest {
      var k :| 0 <= k < |rest| && rest[k] == acts[0].alarm;
      StartAhead(l, behind, rest, k);
      trap := StaysTrapped(Inserted(l, rest[k]), behind + Firsts(rest, k), acts[1..], a);
    } else {
      var more := VisitOne(l, behind, rest, a, acts[0]);
      hide Visiting, DoneOne, Trapped;
      assert Starts(acts[1..], b);
      trap := VisitTraps(DoneOne(l, acts[0]), more, rest, a, acts[1..]);
    }
  }

  // -----------------------------------------------------------------------------------------
  // The whole walk
  // -----------------------------------------------------------------------------------------

  lemma CleanRest(list: seq<nat>, acts: nat -> seq<Act>)
    requires list != []
    ensures Clean(list, acts) <==> Clean(list[1..], acts) && forall b :: b in list[1..] ==> !Starts(acts(list[0]), b)
  {
    hide Starts;
    var rest := list[1..];
    if Clean(rest, acts) && forall b :: b in rest ==> !Starts(acts(list[0]), b) {
      forall i, j | 0 <= i < j < |list| ensures !Starts(acts(list[i]), list[j]) {
        assert list[j] == rest[j - 1];
        if i > 0 {
          assert list[i] == rest[i - 1];
        }
      }
    }
    if Clean(list, acts) {
      forall i, j | 0 <= i < j < |rest| ensures !Starts(acts(rest[i]), rest[j]) {
        assert rest[i] == list[i + 1] && rest[j] == list[j + 1];
      }
      forall b | b in rest ensures !Starts(acts(list[0]), b) {
        var j :| 0 <= j < |rest| && rest[j] == b;
        assert b == list[j + 1];
      }
    }
  }

  lemma {:induction false} GoesRound(l: Links, behind: set<nat>, rest: seq<nat>, acts: nat -> seq<Act>, steps: nat)
    requires Chained(l, rest) && Leads(l, behind, rest) && Distinct(rest)
    requires OwnStops(acts) && Clean(rest, acts) && steps >= |rest|
    ensures Returns(l, Here(rest, 0), acts, steps) && Visits(l, Here(rest, 0), acts, steps) == rest
    decreases |rest|
  {
    if rest != [] {
      PassOn(l, behind, rest);
      CleanRest(rest, acts);
      assert rest[0] !in rest[1..];
      var more := VisitOn(l, behind + {rest[0]}, rest[1..], rest[0], acts(rest[0]));
      hide Chained, Leads, Distinct, NotAt, Clean, Starts, StopsOnly, Done;
      GoesRound(Done(l, acts(rest[0])), more, rest[1..], acts, steps - 1);
    }
  }

  lemma {:induction false} GoesAstray(l: Links, behind: set<nat>, rest: seq<nat>, acts: nat -> seq<Act>, steps: nat)
    requires Chained(l, rest) && Leads(l, behind, rest) && Distinct(rest)
    requires OwnStops(acts) && !Clean(rest, acts)
    ensures !Returns(l, Here(rest, 0), acts, steps)
    decreases |rest|
  {
    if steps > 0 {
      var a, ahead := rest[0], rest[1..];
      PassOn(l, behind, rest);
      CleanRest(rest, acts);
      assert a !in ahead;
      if b :| b in ahead && Starts(acts(a), b) {
        var trap := VisitTraps(l, behind + {a}, ahead, a, acts(a));
        NeverReturns(Done(l, acts(a)), trap, At(ahead[0]), acts, steps - 1);
      } else {
        var more := VisitOn(l, behind + {a}, ahead, a, acts(a));
        hide Chained, Leads, Distinct, NotAt, Clean, Starts, StopsOnly, Done;
        GoesAstray(Done(l, acts(a)), more, ahead, acts, steps - 1);
      }
    }
  }

  lemma RingLeads(l: Links, list: seq<nat>)
    requires Ring(l, list)
    ensures Chained(l, list) && Leads(l, {}, list)
    ensures Here(list, 0) == First(list)
  {
    assert Before(list, 0) == Head;
    forall k | 0 <= k < |list|
      ensures Follow(l, At(list[k])) == Here(list, k + 1) && NotAt(Back(l, At(list[k])), list, k)
    {
      assert Before(list, k + 1) == At(list[k]) == Here(list, k);
    }
  }

  /** With callbacks that start any alarms and stop at most their own, in any order and any number
      of times, alt_tick() gets back to the list head if and only if no alarm of the list starts one
      that stands behind it in the list; it then visits each alarm exactly once, in order. */
  lemma RingWalkExactly(l: Links, list: seq<nat>, acts: nat -> seq<Act>)
    requires Ring(l, list) && OwnStops(acts)
    ensures Clean(list, acts) <==> exists steps: nat :: Returns(l, First(list), acts, steps)
    ensures Clean(list, acts) ==> Returns(l, First(list), acts, |list|) && Visits(l, First(list), acts, |list|) == list
  {
    RingLeads(l, list);
    hide Clean, Chained, Leads, OwnStops, Returns, Visits, First, Here;
    if Clean(list, acts) {
      GoesRound(l, {}, list, acts, |list|);
    } else {
      forall steps: nat ensures !Returns(l, First(list), acts, steps) {
        GoesAstray(l, {}, list, acts, steps);
      }
    }
  }

  /** The ring of two alarms that have been started on an empty list. */
  function TwoAlarms(): Links { Inserted(Inserted(Links(map[], map[]), 2), 1) }

  /** The callback of the first alarm starts the second, which is registered: the walk goes from
      each to the other for ever. */
  lemma StartingTheNextHangs(steps: nat)
    ensures Ring(TwoAlarms(), [1, 2])
    ensures !Returns(TwoAlarms(), First([1, 2]), a => if a == 1 then [Start(2)] else [], steps)
  {
    var l, acts := TwoAlarms(), a => if a == 1 then [Start(2)] else [];
    assert Ring(Links(map[], map[]), []);
    InsertedIsRing(Links(map[], map[]), [], 2);
    assert [2] + [] == [2] && [1] + [2] == [1, 2];
    InsertedIsRing(Inserted(Links(map[], map[]), 2), [2], 1);
    assert Starts(acts([1, 2][0]), [1, 2][1]) by {
      assert acts(1)[0] == Start(2);
    }
    hide Ring, Returns, TwoAlarms, Starts;
    RingWalkExactly(l, [1, 2], acts);
  }

  /** After a registered alarm has been started again, every later walk is trapped, as long as
      callbacks stop at most their own alarms. */
  lemma RestartTraps(l: Links, list: seq<nat>, k: nat, acts: nat -> seq<Act>, steps: nat)
    requires Ring(l, list) && k < |list| && OwnStops(acts)
    ensures var m := Inserted(l, list[k]); !Returns(m, Follow(m, Head), acts, steps)
  {
    hide Ring, Chained, Leads, Returns, OwnStops, Firsts, Inserted;
    RingLeads(l, list);
    StartAhead(l, {}, list, k);
    NeverReturns(Inserted(l, list[k]), {} + Firsts(list, k), Follow(Inserted(l, list[k]), Head), acts, steps);
  }

  function ThreeAlarms(): Links { Inserted(Inserted(Inserted(Links(map[], map[]), 3), 2), 1) }

  lemma ThreeAlarmsAreRing()
    ensures Ring(ThreeAlarms(), [1, 2, 3])
  {
    var none := Links(map[], map[]);
    assert Ring(none, []);
    hide Inserted, Ring;
    InsertedIsRing(none, [], 3);
    InsertedIsRing(Inserted(none, 3), [3] + [], 2);
    InsertedIsRing(Inserted(Inserted(none, 3), 2), [2] + ([3] + []), 1);
    assert [1] + ([2] + ([3] + [])) == [1, 2, 3];
  }

  /** The second of the three has been started again. */
  function Restarted(): Links { Inserted(ThreeAlarms(), 2) }

  /** A callback that stops another alarm can open the trap: here that of the second stops the third. */
  lemma StoppingOpensTheTrap()
    ensures var acts := a => if a == 2 then [Stop(3)] else [];
            Returns(Restarted(), First([2]), acts, 3) && Visits(Restarted(), First([2]), acts, 3) == [2, 1, 2]
    ensures Ring(ThreeAlarms(), [1, 2, 3]) && Follow(Restarted(), Head) == First([2])
  {
    ThreeAlarmsAreRing();
    hide Ring;
    var acts := a => if a == 2 then [Stop(3)] else [];
    var l := Restarted();
    assert Follow(l, Head) == At(2) && Follow(l, At(2)) == At(1) && Follow(l, At(1)) == At(2);
    assert Back(l, At(3)) == At(2) && Follow(l, At(3)) == Head;
    var m := Removed(l, 3);
    assert Done(l, [Stop(3)]) == m by {
      assert [Stop(3)][1..] == [];
    }
    assert Follow(m, At(2)) == Head && Follow(m, At(1)) == At(2);
    assert Returns(Done(m, acts(2)), Head, acts, 0) && Visits(Done(m, acts(2)), Head, acts, 0) == [];
    assert Returns(m, At(2), acts, 1) && Visits(m, At(2), acts, 1) == [2];
    assert Returns(m, At(1), acts, 2) && Visits(m, At(1), acts, 2) == [1, 2];
    assert Returns(l, At(2), acts, 3) && Visits(l, At(2), acts, 3) == [2, 1, 2];
  }
}
