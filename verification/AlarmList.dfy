/** The list of registered alarms: an intrusive circular doubly linked list that alt_tick()
    walks while callbacks take alarms out of it. */
module AlarmList {
  import opened AlarmTime
  import opened Arithmetic
  import opened Lists

  /** A list element; the head of the list is one too, with its timer unused. */
  class Node {
    var next: Node
    var previous: Node
    var time: U32
    var rollover: bool

    /** Linked to itself, like an empty list head or an element that was removed. */
    constructor ()
      ensures next == this && previous == this
    {
      next, previous, time, rollover := this, this, 0, false;
    }

    function View(): Timer
      reads this
    {
      Timer(time, rollover)
    }
  }

  /** Element i of the ring: the head at both ends, list elements between. */
  function At(head: Node, list: seq<Node>, i: nat): Node
    requires i <= |list| + 1
  {
    if 0 < i <= |list| then list[i - 1] else head
  }

  /** A list can be linked: no element twice, and the head not among them. */
  predicate Apart(head: Node, list: seq<Node>) {
    head !in list && Distinct(list)
  }

  /** The heap holds a well-formed ring of exactly these elements in this order. */
  ghost predicate Linked(head: Node, list: seq<Node>)
    reads head, list
  {
    && Apart(head, list)
    && forall i :: 0 <= i <= |list| ==>
         At(head, list, i).next == At(head, list, i + 1) && At(head, list, i + 1).previous == At(head, list, i)
  }

  /** A walk along the `next` links from the head gets into these elements and never out of them. */
  ghost predicate Trapped(head: Node, s: set<Node>)
    reads head, s
  {
    head !in s && head.next in s && forall n :: n in s ==> n.next in s
  }

  /** Where a walk from n is after so many steps. */
  function Walk(n: Node, s: set<Node>, steps: nat): (m: Node)
    requires n in s && forall m :: m in s ==> m.next in s
    reads s
    ensures m in s
    decreases steps
  {
    if steps == 0 then n else Walk(n.next, s, steps - 1)
  }

  lemma TrappedNeverBack(head: Node, s: set<Node>, steps: nat)
    requires Trapped(head, s)
    ensures Walk(head.next, s, steps) != head
  {
  }

  /** alt_llist_insert(): the new element becomes the first.  An element that is in the list already
      is linked to what was first: a walk then never comes back to the head. */
  method Insert(head: Node, entry: Node, ghost list: seq<Node>)
    requires Linked(head, list) && entry != head
    modifies head, list, entry
    ensures entry !in list ==> Linked(head, [entry] + list)
    ensures entry in list ==> Trapped(head, Firsts(list, IndexOf(list, entry)))
    ensures forall n :: n in [head, entry] + list ==> n.View() == old(n.View())
  {
    ghost var longer := [entry] + list;
    ghost var first := At(head, list, 1);
    assert head.next == first && first.previous == head by {
      assert At(head, list, 0) == head;
    }
    ghost var k := if entry in list then IndexOf(list, entry) else 0;
    assert forall i :: 0 <= i < |list| - 1 ==> list[i].next == list[i + 1] by {
      assert forall i :: 0 <= i < |list| ==> At(head, list, i + 1) == list[i];
    }
    entry.previous := head;
    entry.next := head.next;
    head.next.previous := entry;
    head.next := entry;
    if entry in list {
      Looped(head, list, k);
    } else {
      forall i | 0 <= i <= |longer|
        ensures At(head, longer, i).next == At(head, longer, i + 1)
        ensures At(head, longer, i + 1).previous == At(head, longer, i)
      {
        if i >= 1 {
          assert At(head, longer, i + 1) == At(head, list, i);
          if i > 1 {
            assert At(head, longer, i) == At(head, list, i - 1);
          }
        }
      }
    }
  }

  lemma Looped(head: Node, list: seq<Node>, k: nat)
    requires k < |list| && head !in list && head.next == list[k] && list[k].next == list[0]
    requires forall i :: 0 <= i < k ==> list[i].next == list[i + 1]
    ensures Trapped(head, Firsts(list, k))
  {
    forall n | n in Firsts(list, k) ensures n.next in Firsts(list, k) {
      var i :| 0 <= i <= k && list[i] == n;
      if i < k {
        assert n.next == list[i + 1];
      }
    }
  }

  /** A list without its element e. */
  function Minus(list: seq<Node>, e: Node): (r: seq<Node>)
    ensures forall n :: n in r ==> n in list
  {
    if list == [] then []
    else if list[0] == e then list[1..]
    else [list[0]] + Minus(list[1..], e)
  }

  lemma {:induction false} MinusSplit(head: Node, list: seq<Node>, k: nat)
    requires Apart(head, list) && k < |list|
    ensures Minus(list, list[k]) == list[..k] + list[k + 1..]
  {
    if k > 0 {
      MinusSplit(head, list[1..], k - 1);
    }
  }

  lemma {:induction false} MinusNothing(list: seq<Node>, e: Node)
    requires e !in list
    ensures Minus(list, e) == list
  {
    if list != [] {
      MinusNothing(list[1..], e);
    }
  }

  /** Not in any list. */
  predicate Detached(n: Node)
    reads n
  {
    n.next == n && n.previous == n
  }

  ghost function IndexOf(list: seq<Node>, e: Node): (k: nat)
    requires e in list
    ensures k < |list| && list[k] == e
  {
    var k :| 0 <= k < |list| && list[k] == e;
    k
  }

  /** Element i of a ring without element k of the list. */
  lemma AtMinus(head: Node, list: seq<Node>, k: nat, i: nat)
    requires Apart(head, list) && k < |list| && i <= |list|
    ensures |Minus(list, list[k])| == |list| - 1 && Apart(head, Minus(list, list[k]))
    ensures list[k] !in Minus(list, list[k])
    ensures At(head, Minus(list, list[k]), i) == At(head, list, if i <= k then i else i + 1)
  {
    MinusSplit(head, list, k);
  }

  /** alt_llist_remove(): an element leaves its list and is linked to itself, so that removing it
      again changes nothing. */
  method Remove(head: Node, entry: Node, ghost list: seq<Node>)
    requires Linked(head, list) && entry != head && (entry in list || Detached(entry))
    modifies head, list, entry
    ensures Linked(head, Minus(list, entry)) && Detached(entry) && entry !in Minus(list, entry)
    ensures forall n :: n in [head, entry] + list ==> n.View() == old(n.View())
    ensures entry !in list ==> Minus(list, entry) == list
  {
    ghost var inside := entry in list;
    ghost var k := if inside then IndexOf(list, entry) else |list|;
    ghost var before, after := entry.previous, entry.next;
    assert inside ==> entry == At(head, list, k + 1) && before == At(head, list, k) && after == At(head, list, k + 2);
    entry.next.previous := entry.previous;
    entry.previous.next := entry.next;
    entry.previous := entry;
    entry.next := entry;
    ghost var shorter := Minus(list, entry);
    if inside {
      AtMinus(head, list, k, 0);
      forall i | 0 <= i <= |shorter|
        ensures At(head, shorter, i).next == At(head, shorter, i + 1)
        ensures At(head, shorter, i + 1).previous == At(head, shorter, i)
      {
        AtMinus(head, list, k, i);
        AtMinus(head, list, k, i + 1);
      }
    } else {
      MinusNothing(list, entry);
    }
  }
}
