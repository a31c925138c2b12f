/** The interrupt dispatcher, the handler table and the calls that guard them. */
module IrqDispatch {
  import opened Errno
  import opened Arithmetic
  import opened IrqNesting
  import opened IrqSections

  /** The lines that are still pending after the handler of the lowest one has run; `raised` are
      the lines that devices raise meanwhile.  A handler makes its own device drop its line. */
  function Next(pending: set<nat>, raised: set<nat>, ienable: set<nat>): (next: set<nat>)
    requires pending != {} && pending <= ienable <= AllLines()
    ensures next <= ienable
  {
    (pending - {Lowest(pending)}) + raised * ienable
  }

  function Raised(world: seq<set<nat>>): set<nat> {
    if world == [] then {} else world[0]
  }

  function Rest(world: seq<set<nat>>): seq<set<nat>> {
    if world == [] then [] else world[1..]
  }

  /** The handlers that run until nothing is pending, given what is raised during each. */
  function Service(pending: set<nat>, world: seq<set<nat>>, ienable: set<nat>): seq<nat>
    requires pending <= ienable <= AllLines()
    decreases |world|, |pending|
  {
    if pending == {} then []
    else
      var next := Next(pending, Raised(world), ienable);
      assert world == [] ==> next == pending - {Lowest(pending)};
      [Lowest(pending)] + Service(next, Rest(world), ienable)
  }

  /** What the dispatcher samples before its n-th call. */
  function PendingAt(pending: set<nat>, world: seq<set<nat>>, ienable: set<nat>, n: nat): (s: set<nat>)
    requires pending <= ienable <= AllLines()
    ensures s <= ienable
    decreases n
  {
    if n == 0 || pending == {} then pending
    else PendingAt(Next(pending, Raised(world), ienable), Rest(world), ienable, n - 1)
  }

  /** Every call goes to the lowest line of the latest sample, whatever is raised meanwhile. */
  lemma {:induction false} ServesLowest(pending: set<nat>, world: seq<set<nat>>, ienable: set<nat>, n: nat)
    requires pending <= ienable <= AllLines() && n < |Service(pending, world, ienable)|
    ensures var now := PendingAt(pending, world, ienable, n);
            now != {} && Service(pending, world, ienable)[n] == Lowest(now)
    decreases n
  {
    hide Below, Lowest, Service;
    ServiceNone(world, ienable);
    if pending != {} { ServiceStep(pending, world, ienable); }
    if n > 0 {
      ServesLowest(Next(pending, Raised(world), ienable), Rest(world), ienable, n - 1);
    }
  }

  function RaisedAt(world: seq<set<nat>>, n: nat): set<nat> {
    if n < |world| then world[n] else {}
  }

  lemma {:induction false} PendingNext(pending: set<nat>, world: seq<set<nat>>, ienable: set<nat>, n: nat)
    requires pending <= ienable <= AllLines() && PendingAt(pending, world, ienable, n) != {}
    ensures PendingAt(pending, world, ienable, n + 1)
            == Next(PendingAt(pending, world, ienable, n), RaisedAt(world, n), ienable)
    decreases n
  {
    hide Below, Lowest, Next;
    if n > 0 && pending != {} {
      PendingNext(Next(pending, Raised(world), ienable), Rest(world), ienable, n - 1);
    }
  }

  lemma NextIs(pending: set<nat>, raised: set<nat>, ienable: set<nat>)
    requires pending != {} && pending <= ienable <= AllLines()
    ensures Next(pending, raised, ienable) == (pending - {Lowest(pending)}) + raised * ienable
  {
  }

  /** A line that is pending at the n-th sample, and was not at the m-th, was raised between. */
  lemma {:induction false} RaisedBetween(pending: set<nat>, world: seq<set<nat>>, ienable: set<nat>, m: nat, n: nat, q: nat)
    requires pending <= ienable <= AllLines() && m <= n <= |Service(pending, world, ienable)|
    requires q in PendingAt(pending, world, ienable, n) && q !in PendingAt(pending, world, ienable, m)
    ensures exists k :: m <= k < n && q in RaisedAt(world, k)
    decreases n
  {
    hide Below, Lowest, Service, PendingAt, Next;
    if m < n {
      ServesLowest(pending, world, ienable, n - 1);
      PendingNext(pending, world, ienable, n - 1);
      NextIs(PendingAt(pending, world, ienable, n - 1), RaisedAt(world, n - 1), ienable);
      if q in PendingAt(pending, world, ienable, n - 1) {
        RaisedBetween(pending, world, ienable, m, n - 1, q);
      } else {
        assert q in RaisedAt(world, n - 1);
      }
    }
  }

  /** A handler runs before one of higher priority only if the line of that one was raised later. */
  lemma {:induction false} NoOvertaking(pending: set<nat>, world: seq<set<nat>>, ienable: set<nat>, m: nat, n: nat)
    requires pending <= ienable <= AllLines() && m < n < |Service(pending, world, ienable)|
    requires Service(pending, world, ienable)[n] < Service(pending, world, ienable)[m]
    ensures exists k :: m <= k < n && Service(pending, world, ienable)[n] in RaisedAt(world, k)
  {
    ServesLowest(pending, world, ienable, m);
    ServesLowest(pending, world, ienable, n);
    RaisedBetween(pending, world, ienable, m, n, Service(pending, world, ienable)[n]);
  }

  /** Nothing is forgotten: whatever is pending is served. */
  lemma {:induction false} AllServed(pending: set<nat>, world: seq<set<nat>>, ienable: set<nat>)
    requires pending <= ienable <= AllLines()
    ensures forall q :: q in pending ==> q in Service(pending, world, ienable)
    decreases |world|, |pending|
  {
    if pending != {} {
      var next := Next(pending, Raised(world), ienable);
      assert world == [] ==> next == pending - {Lowest(pending)};
      AllServed(next, Rest(world), ienable);
      assert Service(pending, world, ienable) == [Lowest(pending)] + Service(next, Rest(world), ienable);
    }
  }

  /** If no new line is raised, the pending ones are served once each, in ascending order. */
  lemma {:induction false} QuietWorldAscends(pending: set<nat>, ienable: set<nat>)
    requires pending <= ienable <= AllLines()
    ensures var s := Service(pending, [], ienable);
            && |s| == |pending|
            && (forall q :: q in s <==> q in pending)
            && (forall i, j :: 0 <= i < j < |s| ==> s[i] < s[j])
    decreases |pending|
  {
    hide Below, Lowest, Service;
    ServiceNone([], ienable);
    if pending != {} {
      var p := Lowest(pending);
      var next := Next(pending, {}, ienable);
      assert next == pending - {p};
      QuietWorldAscends(next, ienable);
      ServiceStep(pending, [], ienable);
      var t := Service(next, [], ienable);
      forall i | 0 <= i < |t| ensures p < t[i] {
        assert t[i] in next;
      }
      assert |pending| == |next| + 1;
    }
  }

  /** The inner loop from bit i on: does it hit within so many more rounds?  Above bit 31 the mask
      has been shifted out and hits nothing. */
  predicate Hits(sample: set<nat>, i: nat, steps: nat)
    decreases steps
  {
    (i < NIRQ && i in sample) || (steps > 0 && Hits(sample, i + 1, steps - 1))
  }

  lemma {:induction false} HitsFrom(sample: set<nat>, i: nat, steps: nat)
    ensures Hits(sample, i, steps) <==> exists q :: q in sample && i <= q <= i + steps && q < NIRQ
    decreases steps
  {
    if steps > 0 {
      HitsFrom(sample, i + 1, steps - 1);
      if q :| q in sample && i <= q <= i + steps && q < NIRQ {
        assert q == i || i + 1 <= q;
      }
    }
  }

  /** The inner loop ends exactly if something is pending; else it goes on for ever. */
  lemma InnerLoopEndsExactly(sample: set<nat>)
    requires sample <= AllLines()
    ensures (exists steps: nat :: Hits(sample, 0, steps)) <==> sample != {}
    ensures sample != {} ==> Hits(sample, 0, NIRQ - 1)
  {
    hide Below, Hits;
    HitsFrom(sample, 0, NIRQ - 1);
    forall steps: nat ensures Hits(sample, 0, steps) ==> sample != {} {
      HitsFrom(sample, 0, steps);
    }
    if sample != {} {
      var q :| q in sample;
      assert 0 <= q <= NIRQ - 1;
    }
  }

  /** An interrupt number as the registry reads it: into a signed variable. */
  function SignedId(irq: U32): int {
    if irq < 0x8000_0000 then irq else irq - WORD
  }

  /** What becomes of a registration: a return value, or an access outside the table. */
  datatype Registration = Done(rc: int) | OutsideTable(id: int)

  class Cpu {
    var active: set<nat>
    var mask: set<nat>
    var ienable: set<nat>
    var pie: bool
    var lines: set<nat>
    const handlers: array<nat>  // function addresses, 0 for none
    const contexts: array<int>
    ghost var calls: seq<nat>
    ghost var stack: seq<Frame>
    ghost var run: seq<Event>

    ghost predicate Valid()
      reads this
    {
      && handlers.Length == contexts.Length == NIRQ && (handlers as object) != contexts
      && active <= AllLines() && lines <= AllLines()
    }

    ghost function View(): Regs
      reads this
    {
      Regs(active, mask, ienable, pie)
    }

    ghost function Whole(): State
      reads this
    {
      State(View(), lines, stack)
    }

    /** `run` leads from the reset to here, so what holds of runs holds of this machine. */
    ghost predicate Traced()
      reads this
    {
      TracedAs(pie)
    }

    /** The same, if PIE were `on`, as it was before a critical section. */
    ghost predicate TracedAs(on: bool)
      reads this
    {
      IsRun(Start(), run) && After(Start(), run) == State(View().(pie := on), lines, stack)
    }

    /** As long as every enabling and disabling honoured the mask, so do the registers, and the
        handlers on the stack have their priorities in order. */
    lemma TracedRespectsPriority(i: nat, j: nat)
      requires Traced() && AllHonour(Start(), run)
      ensures ienable == active * mask
      ensures i < j < |stack| && HasPrio(stack[j]) ==> stack[i].Open? && stack[j].prio < stack[i].prio
    {
      assert Reachable(Whole());
      NestingRespectsPriority(Whole());
    }

    /** Append to `run` the event that has just happened. */
    ghost method Record(e: Event)
      requires IsRun(Start(), run) && Enabled(After(Start(), run), e) && Whole() == Apply(After(Start(), run), e)
      modifies `run
      ensures Traced() && run == old(run) + [e]
    {
      hide Enabled, Apply;
      ghost var s := After(Start(), run);
      assert IsRun(Apply(s, e), []);
      assert IsRun(s, [e]) && After(s, [e]) == Apply(s, e);
      RunsJoin(Start(), run, [e]);
      run := run + [e];
    }

    /** Lines are enabled only with a handler. */
    ghost predicate Sound()
      reads this, handlers
    {
      Valid() && ienable <= active && forall id :: id in active ==> handlers[id] != 0
    }

    constructor ()
      ensures Sound() && View() == Reset() && calls == [] && Traced()
    {
      active, mask, ienable, pie, lines := {}, AllLines(), {}, false, {};
      handlers := new nat[NIRQ](i => 0);
      contexts := new int[NIRQ](i => 0);
      calls, stack, run := [], [], [];
    }

    method DisableAll() returns (context: bool)
      modifies `pie
      ensures context == old(pie) && !pie
    {
      context := pie;
      pie := false;
    }

    method EnableAll(context: bool)
      modifies `pie
      ensures pie == context
    {
      pie := context;
    }

    // what is written in a critical section, where nobody can interrupt

    method SetActive(lines: set<nat>)
      requires !pie
      modifies `active, `ienable
      ensures active == lines && ienable == lines
    {
      active := lines;
      ienable := active;
    }

    method SetMask(saved: set<nat>)
      requires !pie
      modifies `mask, `ienable
      ensures mask == saved && ienable == saved * active
    {
      mask := saved;
      ienable := mask * active;
    }

    method IrqEnable(id: nat) returns (rc: int)
      requires id < NIRQ
      modifies `active, `ienable, `pie, `run
      ensures rc == 0 && View() == LineEnabled(old(View()), id)
      ensures if old(Traced()) then Traced() && run == old(run) + [Enable(id)] else run == old(run)
    {
      ghost var traced := Traced();
      var status := DisableAll();
      SetActive(active + {id});
      EnableAll(status);
      if traced {
        Record(Enable(id));
      }
      return 0;
    }

    method IrqDisable(id: nat) returns (rc: int)
      requires id < NIRQ
      modifies `active, `ienable, `pie, `run
      ensures rc == 0 && View() == LineDisabled(old(View()), id)
      ensures if old(Traced()) then Traced() && run == old(run) + [Disable(id)] else run == old(run)
    {
      ghost var traced := Traced();
      var status := DisableAll();
      SetActive(active - {id});
      EnableAll(status);
      if traced {
        Record(Disable(id));
      }
      return 0;
    }

    /** The handler of line `priority` is running, and its section is not open. */
    ghost predicate InHandler(priority: nat)
      reads this
    {
      Traced() && stack != [] && Top(Whole()) == Running(priority)
    }

    ghost predicate InSection(priority: nat, saved: set<nat>)
      reads this
    {
      Traced() && stack != [] && Top(Whole()) == Open(priority, saved)
    }

    /** Called by a handler with its own number, this opens its section. */
    method Interruptible(priority: nat) returns (oldPriority: set<nat>)
      requires priority < NIRQ
      modifies `mask, `ienable, `pie, `stack, `run
      ensures oldPriority == old(mask) && View() == Opened(old(View()), priority)
      ensures old(InHandler(priority)) ==>
                InSection(priority, oldPriority) && run == old(run) + [OpenUp] && |stack| == |old(stack)|
    {
      hide Below;
      ghost var s, traced := Whole(), InHandler(priority);
      oldPriority := mask;
      mask := Below(priority);
      ienable := active * mask;
      pie := true;
      if traced {
        stack := WithTop(s, Open(priority, oldPriority));
        Record(OpenUp);
      }
    }

    /** Called with what the opening returned, this closes the section. */
    method NonInterruptible(saved: set<nat>, ghost priority: nat)
      modifies `mask, `ienable, `pie, `stack, `run
      ensures View() == Closed(old(View()), saved)
      ensures old(InSection(priority, saved)) ==>
                InHandler(priority) && run == old(run) + [CloseDown] && |stack| == |old(stack)|
    {
      ghost var s, traced := Whole(), InSection(priority, saved);
      pie := false;
      SetMask(saved);
      if traced {
        stack := WithTop(s, Running(priority));
        Record(CloseDown);
      }
    }

    /** Registers a handler and enables its line, or with none disables it.  Nothing is enabled
        without a handler, and nobody can interrupt while the table changes.  The test against the
        size of the table is on the signed number: it refuses 32 up to 2^31 - 1. */
    method Register(irq: U32, isr: nat, context: int) returns (r: Registration)
      requires Valid()
      modifies `active, `ienable, `pie, `run, handlers, contexts
      ensures Valid() && pie == old(pie) && mask == old(mask)
      ensures old(Sound()) ==> Sound()
      ensures old(Traced()) ==> Traced()
      ensures r == Done(-EINVAL) <==> NIRQ <= irq < 0x8000_0000
      ensures r.OutsideTable? <==> irq >= 0x8000_0000
      ensures r == Done(0) <==> irq < NIRQ
      ensures r.OutsideTable? ==> r.id == irq - WORD < 0
      ensures irq >= NIRQ ==>
                View() == old(View()) && handlers[..] == old(handlers[..]) && contexts[..] == old(contexts[..])
      ensures irq < NIRQ ==>
                && handlers[..] == old(handlers[..])[irq := isr] && contexts[..] == old(contexts[..])[irq := context]
                && View() == if isr != 0 then LineEnabled(old(View()), irq) else LineDisabled(old(View()), irq)
    {
      var id := SignedId(irq);
      r := Done(-EINVAL);
      if id < NIRQ {
        if id < 0 {
          return OutsideTable(id);
        }
        Fill(id, isr, context);
        r := Done(0);
      }
    }

    /** The critical section of the registration. */
    method Fill(id: nat, isr: nat, context: int)
      requires Valid() && id < NIRQ
      modifies `active, `ienable, `pie, `run, handlers, contexts
      ensures Valid() && pie == old(pie) && mask == old(mask)
      ensures old(Sound()) ==> Sound()
      ensures old(Traced()) ==> Traced()
      ensures handlers[..] == old(handlers[..])[id := isr] && contexts[..] == old(contexts[..])[id := context]
      ensures View() == if isr != 0 then LineEnabled(old(View()), id) else LineDisabled(old(View()), id)
    {
      hide LowestFrom, Lowest, Below, Apply, IsRun, After;
      var status := DisableAll();
      Write(id, isr, context);
      Switch(id, isr != 0, status);
    }

    method Write(id: nat, isr: nat, context: int)
      requires Valid() && id < NIRQ && !pie
      modifies handlers, contexts
      ensures handlers[..] == old(handlers[..])[id := isr] && contexts[..] == old(contexts[..])[id := context]
    {
      handlers[id] := isr;
      contexts[id] := context;
      assert handlers[..] == old(handlers[..])[id := isr] && contexts[..] == old(contexts[..])[id := context];
    }

    /** Enables or disables the line inside the critical section, and ends the section. */
    method Switch(id: nat, on: bool, status: bool)
      requires id < NIRQ && !pie
      modifies `active, `ienable, `pie, `run
      ensures View() == (if on then LineEnabled(old(View()), id) else LineDisabled(old(View()), id)).(pie := status)
      ensures old(TracedAs(status)) ==> Traced()
    {
      ghost var traced := TracedAs(status);
      var rc;
      if on {
        rc := IrqEnable(id);
      } else {
        rc := IrqDisable(id);
      }
      EnableAll(status);
      if traced && status {
        Record(if on then Enable(id) else Disable(id));
      }
    }

    function Pending(): set<nat>
      reads this
    {
      lines * ienable
    }

    /** A dispatcher is on top of the stack, between two handlers. */
    ghost predicate Dispatching()
      reads this
    {
      Traced() && stack != [] && Top(Whole()).Idle?
    }

    /** A call through the table; the entry must not be empty.  The handler is taken to change the
        lines only; see NestingIsInvisible for one that opens a section. */
    method CallHandler(i: nat, raised: set<nat>)
      requires Valid() && raised <= AllLines()
      requires i < handlers.Length && handlers[i] != 0
      modifies `lines, `calls, `stack, `run
      ensures lines == (old(lines) - {i}) + raised && calls == old(calls) + [i]
      ensures old(Dispatching() && Pending() != {} && Pending() <= AllLines() && i == Lowest(Pending())) ==>
                Dispatching() && stack == old(stack) && run == old(run) + [Call] + [Lines(lines)] + [Return]
    {
      hide Below, Lowest;
      ghost var before := stack;
      ghost var dispatched := Dispatching() && Pending() != {} && Pending() <= AllLines() && i == Lowest(Pending());
      if dispatched {
        stack := WithTop(Whole(), Running(i));
        Record(Call);
      }
      lines := (lines - {i}) + raised;
      if dispatched {
        Record(Lines(lines));
        stack := WithTop(Whole(), Idle);
        Record(Return);
        assert stack == before;
      }
      calls := calls + [i];
    }

    /** The inner loop: a bit is tested and shifted up until it hits.  With something pending it
        hits before it is shifted out; with nothing pending it never does, however many rounds we
        watch. */
    method FindLowest(sample: set<nat>, patience: nat) returns (found: bool, i: nat)
      requires sample <= AllLines() && patience >= NIRQ
      ensures found <==> sample != {}
      ensures found ==> i < NIRQ && i == Lowest(sample)
    {
      hide Two, Below;
      found, i := false, 0;
      var bit: nat := 1;
      TwoFits(0);
      var rounds := 0;
      while rounds < patience
        invariant rounds <= patience && i == rounds && forall q :: q in sample ==> i <= q
        invariant bit == (if i < NIRQ then Two(i) else 0) && bit < WORD
        invariant !found
      {
        if bit != 0 && i in sample {
          found := true;
          return;
        }
        ShiftBit(i);
        bit := bit * 2 % WORD;
        i := i + 1;
        rounds := rounds + 1;
      }
    }

    /** One round of the dispatcher: the handler of the lowest line in the sample, if there is one. */
    method ServeOne(sample: set<nat>, raised: set<nat>, patience: nat) returns (found: bool)
      requires Sound() && sample == Pending() && raised <= AllLines() && patience >= NIRQ
      modifies `lines, `calls, `stack, `run
      ensures sample <= ienable <= AllLines() && Sound() && (found <==> sample != {})
      ensures !found ==> lines == old(lines) && calls == old(calls) && stack == old(stack) && run == old(run)
      ensures found ==> calls == old(calls) + [Lowest(sample)] && Pending() == Next(sample, raised, ienable)
      ensures found && old(Dispatching()) ==> Dispatching() && stack == old(stack)
    {
      hide Below, Lowest, LowestFrom, Top, Traced;
      var i;
      found, i := FindLowest(sample, patience);
      if found {
        CallHandler(i, raised);
      }
    }

    /** The dispatcher.  Entered with something pending it serves until nothing is; entered with
        nothing pending it is lost in its inner loop. */
    method Dispatch(world: seq<set<nat>>, patience: nat) returns (ended: bool)
      requires Sound() && patience >= NIRQ && forall w :: w in world ==> w <= AllLines()
      modifies `lines, `calls, `stack, `run
      ensures ended <==> old(Pending()) != {}
      ensures !ended ==> lines == old(lines) && calls == old(calls) && stack == old(stack) && run == old(run)
      ensures ended ==> Pending() == {} && Sound()
      ensures ended ==> calls == old(calls) + Service(old(Pending()), world, ienable)
      ensures ended && old(Dispatching()) ==> Dispatching() && stack == old(stack)
    {
      ghost var first := Pending();
      hide Below, Lowest, Service, LowestFrom, Next, Top, Traced, Dispatching;
      ghost var left, all := world, old(calls) + Service(first, world, ienable);
      var n := 0;
      var sample := Pending();
      ended := ServeOne(sample, if |world| > 0 then world[0] else {}, patience);
      if !ended {
        return;
      }
      ServiceStep(sample, left, ienable);
      JoinCalls(old(calls), Lowest(sample), Service(Pending(), Rest(left), ienable));
      left, n, sample := Rest(left), 1, Pending();
      while sample != {}
        invariant 0 <= n && sample == Pending() && sample <= ienable <= AllLines() && Sound()
        invariant left == if n <= |world| then world[n..] else []
        invariant calls + Service(sample, left, ienable) == all
        invariant old(Dispatching()) ==> Dispatching() && stack == old(stack)
        decreases |left|, |sample|
      {
        ServiceStep(sample, left, ienable);
        JoinCalls(calls, Lowest(sample), Service(Next(sample, Raised(left), ienable), Rest(left), ienable));
        var found := ServeOne(sample, if n < |world| then world[n] else {}, patience);
        left, n, sample := Rest(left), n + 1, Pending();
      }
      ServiceNone(left, ienable);
    }

    /** An interrupt from end to end: the processor turns interrupts off and enters the dispatcher,
        which returns to where interrupts were on. */
    method Interrupt(world: seq<set<nat>>)
      requires Sound() && pie && Pending() != {} && forall w :: w in world ==> w <= AllLines()
      modifies `lines, `calls, `pie, `stack, `run
      ensures Sound() && pie && Pending() == {} && stack == old(stack)
      ensures calls == old(calls) + Service(old(Pending()), world, ienable)
      ensures old(Traced()) ==> Traced()
    {
      ghost var traced, before := Traced(), stack;
      hide Below, Lowest, Service, LowestFrom, Next;
      pie, stack := false, stack + [Idle];
      if traced {
        Record(Take);
      }
      var ended := Dispatch(world, NIRQ);
      pie, stack := true, before;
      if traced {
        Record(Leave);
      }
    }
  }

  lemma ShiftBit(i: nat)
    ensures i + 1 < NIRQ ==> Two(i) * 2 % WORD == Two(i + 1)
    ensures i + 1 == NIRQ ==> Two(i) * 2 % WORD == 0
  {
    if i + 1 < NIRQ {
      TwoFits(i + 1);
    } else if i + 1 == NIRQ {
      TwoTo31();
    }
  }

  lemma TwoTo31()
    ensures Two(31) == 0x8000_0000
  {
    assert Two(5) == 0x20;
    assert Two(10) == 0x400;
    assert Two(15) == 0x8000;
    assert Two(20) == 0x10_0000;
    assert Two(25) == 0x200_0000;
  }

  function Two(k: nat): (p: nat)
    ensures p > 0
  {
    if k == 0 then 1 else 2 * Two(k - 1)
  }

  lemma TwoFits(k: nat)
    requires k < NIRQ
    ensures Two(0) == 1 && Two(k) < WORD && (k > 0 ==> Two(k) == 2 * Two(k - 1))
  {
    TwoMonotone(k, 31);
    TwoTo31();
  }

  lemma {:induction false} TwoMonotone(j: nat, k: nat)
    requires j <= k
    ensures Two(j) <= Two(k)
  {
    if j < k {
      TwoMonotone(j, k - 1);
    }
  }

  lemma ServiceStep(pending: set<nat>, world: seq<set<nat>>, ienable: set<nat>)
    requires pending != {} && pending <= ienable <= AllLines()
    ensures var next := Next(pending, Raised(world), ienable);
            && Service(pending, world, ienable) == [Lowest(pending)] + Service(next, Rest(world), ienable)
            && (world == [] ==> next == pending - {Lowest(pending)})
  {
  }

  lemma JoinCalls(a: seq<nat>, i: nat, b: seq<nat>)
    ensures a + ([i] + b) == a + [i] + b
  {
  }

  lemma ServiceNone(world: seq<set<nat>>, ienable: set<nat>)
    requires ienable <= AllLines()
    ensures Service({}, world, ienable) == []
  {
  }
}
