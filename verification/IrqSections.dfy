/** Interruptible sections and the calls that enable and disable single lines. */
module IrqSections {
  import opened IrqNesting

  // -----------------------------------------------------------------------------------------
  // Runs in which only the foreground enables and disables lines
  // -----------------------------------------------------------------------------------------

  predicate AllForeground(s: State, events: seq<Event>)
    requires IsRun(s, events)
    decreases |events|
  {
    events == [] || (Foreground(s, events[0]) && AllForeground(Apply(s, events[0]), events[1..]))
  }

  /** The line of every handler on the stack is active. */
  predicate Owned(s: State) {
    forall i :: 0 <= i < |s.stack| && HasPrio(s.stack[i]) ==> s.stack[i].prio in s.regs.active
  }

  ghost predicate SectionInv(s: State) { Inv(s) && Owned(s) }

  lemma OwnedStep(s: State, e: Event)
    requires Owned(s) && Enabled(s, e) && Foreground(s, e) && s.regs.ienable <= s.regs.active
    ensures Owned(Apply(s, e))
  {
    hide Below, LowestFrom, Lowest;
    var t := Apply(s, e);
    forall i | 0 <= i < |t.stack| && HasPrio(t.stack[i]) ensures t.stack[i].prio in t.regs.active {
      if i < |s.stack| - 1 {
        assert t.stack[i] == s.stack[i];
      }
    }
  }

  lemma EnabledLinesActive(s: State)
    requires Inv(s)
    ensures s.regs.ienable <= s.regs.active
  {
  }

  lemma SectionStep(s: State, e: Event)
    requires SectionInv(s) && Enabled(s, e) && Foreground(s, e)
    ensures SectionInv(Apply(s, e))
  {
    hide Inv, Owned, Apply, Enabled, Foreground, Honours;
    ForegroundHonours(s, e);
    ApplyInv(s, e);
    EnabledLinesActive(s);
    OwnedStep(s, e);
  }

  lemma {:induction false} SectionRun(s: State, events: seq<Event>)
    requires SectionInv(s) && IsRun(s, events) && AllForeground(s, events)
    ensures AllHonour(s, events) && SectionInv(After(s, events))
    decreases |events|
  {
    hide Inv, Owned, Enabled, Apply, Foreground, Honours;
    if events != [] {
      ForegroundHonours(s, events[0]);
      SectionStep(s, events[0]);
      SectionRun(Apply(s, events[0]), events[1..]);
    }
  }

  ghost predicate ForegroundReachable(s: State) {
    exists events :: IsRun(Start(), events) && AllForeground(Start(), events) && After(Start(), events) == s
  }

  lemma ForegroundInv(s: State)
    requires ForegroundReachable(s)
    ensures SectionInv(s) && Reachable(s)
  {
    var events :| IsRun(Start(), events) && AllForeground(Start(), events) && After(Start(), events) == s;
    StartInv();
    SectionRun(Start(), events);
  }

  // -----------------------------------------------------------------------------------------
  // Balanced pairs
  // -----------------------------------------------------------------------------------------

  /** The run stays inside the interrupt: the stack is never empty. */
  predicate Inside(s: State, events: seq<Event>)
    requires IsRun(s, events)
    decreases |events|
  {
    s.stack != [] && (events == [] || Inside(Apply(s, events[0]), events[1..]))
  }

  lemma {:induction false} InsideKeepsActive(s: State, events: seq<Event>)
    requires IsRun(s, events) && AllForeground(s, events) && Inside(s, events)
    ensures After(s, events).regs.active == s.regs.active
    decreases |events|
  {
    if events != [] {
      InsideKeepsActive(Apply(s, events[0]), events[1..]);
    }
  }

  /** Whatever a handler does after it was called, and whoever interrupts it meanwhile: when the
      pairs are balanced and it is not interruptible again, all registers are as they were. */
  lemma BalancedPairsRestore(s: State, events: seq<Event>)
    requires ForegroundReachable(s) && s.stack != [] && !Top(s).Open?
    requires IsRun(s, events) && AllForeground(s, events) && Inside(s, events)
    requires After(s, events).stack == s.stack
    ensures After(s, events).regs == s.regs
  {
    ForegroundInv(s);
    SectionRun(s, events);
    InsideKeepsActive(s, events);
    hide Below, FrameOk, MaskOf, Owned, IsRun, AllForeground, Inside, After;
  }

  /** A pair of calls puts all registers back exactly if the enable register was right and
      interrupts were off before it, as they are in a handler. */
  lemma PairRestoresExactly(r: Regs, priority: nat)
    ensures Closed(Opened(r, priority), r.mask) == r <==> r.ienable == r.active * r.mask && !r.pie
  {
    hide Below;
    assert r.mask * r.active == r.active * r.mask;
  }

  // -----------------------------------------------------------------------------------------
  // Enabling and disabling lines
  // -----------------------------------------------------------------------------------------

  /** The priority of the innermost open section; NIRQ if no section is open. */
  function Innermost(stack: seq<Frame>): nat {
    if stack == [] then NIRQ
    else
      match stack[|stack| - 1]
      case Open(p, _) => p
      case _ => Innermost(stack[..|stack| - 1])
  }

  lemma {:induction false} MaskIsInnermost(stack: seq<Frame>)
    ensures MaskOf(stack) == Below(Innermost(stack))
  {
    hide Below;
    if stack != [] {
      MaskIsInnermost(stack[..|stack| - 1]);
    }
  }

  lemma {:induction false} InnermostIsOnStack(stack: seq<Frame>)
    ensures Innermost(stack) == NIRQ || exists i :: 0 <= i < |stack| && stack[i].Open? && stack[i].prio == Innermost(stack)
  {
    if stack != [] && !stack[|stack| - 1].Open? {
      InnermostIsOnStack(stack[..|stack| - 1]);
    }
  }

  lemma ReachableMask(s: State)
    requires Reachable(s)
    ensures s.regs.mask == Below(Innermost(s.stack)) && s.regs.ienable == s.regs.active * s.regs.mask
    ensures s.regs.active <= AllLines()
  {
    hide Below;
    ReachableInv(s);
    MaskIsInnermost(s.stack);
  }

  /** Every active line, except possibly `but`, has priority over p. */
  predicate AllAbove(active: set<nat>, p: nat, but: nat) {
    forall q :: q in active && q != but ==> q < p
  }

  lemma WithinBelow(a: set<nat>, p: nat, id: nat)
    ensures a <= Below(p) <==> forall q :: q in a ==> q < p
    ensures a - {id} <= Below(p) <==> AllAbove(a, p, id)
    ensures a + {id} <= Below(p) <==> id < p && AllAbove(a, p, id)
  {
    if a - {id} <= Below(p) || a + {id} <= Below(p) {
      forall q | q in a && q != id ensures q < p {
        assert q in a - {id} && q in a + {id};
      }
    }
    if a + {id} <= Below(p) {
      assert id in a + {id};
    }
  }

  /** In whatever state, also after calls from handlers: enabling a line leaves IENABLE what the
      active lines and the mask make it exactly if no section is open, or if the new line and every
      active one have priority over the innermost section. */
  lemma EnableExactly(s: State, id: nat)
    requires Reachable(s) && id < NIRQ
    ensures var p, r := Innermost(s.stack), Apply(s, Enable(id)).regs;
            && (Honours(s, Enable(id)) <==> r.ienable == r.active * r.mask)
            && (Honours(s, Enable(id)) <==> p == NIRQ || (id < p && AllAbove(s.regs.active, p, id)))
  {
    hide Below, Innermost, Reachable;
    ReachableMask(s);
    var r := Apply(s, Enable(id)).regs;
    MeetsIsWithin(r.active, r.mask);
    WithinBelow(s.regs.active, NIRQ, id);
    WithinBelow(s.regs.active, Innermost(s.stack), id);
  }

  /** Disabling one does exactly if no section is open, or if every other active line has priority
      over the innermost section. */
  lemma DisableExactly(s: State, id: nat)
    requires Reachable(s) && id < NIRQ
    ensures var p, r := Innermost(s.stack), Apply(s, Disable(id)).regs;
            && (Honours(s, Disable(id)) <==> r.ienable == r.active * r.mask)
            && (Honours(s, Disable(id)) <==> p == NIRQ || AllAbove(s.regs.active, p, id))
  {
    hide Below, Innermost, Reachable;
    ReachableMask(s);
    var r := Apply(s, Disable(id)).regs;
    MeetsIsWithin(r.active, r.mask);
    WithinBelow(s.regs.active, NIRQ, id);
    WithinBelow(s.regs.active, Innermost(s.stack), id);
  }

  lemma InnermostIsActive(s: State)
    requires ForegroundReachable(s)
    ensures Reachable(s)
    ensures Innermost(s.stack) == NIRQ || Innermost(s.stack) in s.regs.active
  {
    hide Innermost;
    ForegroundInv(s);
    InnermostIsOnStack(s.stack);
    if i :| 0 <= i < |s.stack| && s.stack[i].Open? && s.stack[i].prio == Innermost(s.stack) {
      assert HasPrio(s.stack[i]);
    }
  }

  /** As long as only the foreground has enabled and disabled lines, enabling one honours the mask
      exactly if no section is open.  In an open section it always lets in the line of that section
      itself, whichever line is enabled. */
  lemma EnableHonoursMask(s: State, id: nat)
    requires ForegroundReachable(s) && id < NIRQ
    ensures var p, r := Innermost(s.stack), Apply(s, Enable(id)).regs;
            && (Honours(s, Enable(id)) <==> p == NIRQ)
            && (p < NIRQ ==> p in r.ienable && p !in r.mask)
  {
    hide Innermost, Reachable, ForegroundReachable;
    InnermostIsActive(s);
    ReachableMask(s);
    EnableExactly(s, id);
  }

  /** Disabling one then does exactly if no section is open, or if it is the line of the innermost
      section and no line with a higher number is active. */
  lemma DisableHonoursMask(s: State, id: nat)
    requires ForegroundReachable(s) && id < NIRQ
    ensures var p, r := Innermost(s.stack), Apply(s, Disable(id)).regs;
            && (Honours(s, Disable(id)) <==> p == NIRQ || (id == p && forall q :: q in s.regs.active ==> q <= p))
            && (p < NIRQ && id != p ==> p in r.ienable && p !in r.mask)
  {
    hide Innermost, Reachable, ForegroundReachable;
    InnermostIsActive(s);
    ReachableMask(s);
    DisableExactly(s, id);
  }

  /** And in nested sections neither call ever honours the mask: the line of the outer handler is
      active too. */
  lemma NestedNeverHonours(s: State, i: nat, j: nat, id: nat)
    requires ForegroundReachable(s) && i < j < |s.stack| && s.stack[i].Open? && s.stack[j].Open? && id < NIRQ
    ensures !Honours(s, Enable(id)) && !Honours(s, Disable(id))
  {
    ForegroundInv(s);
    PriosFall(s.stack, i, j);
    InnermostAtMost(s.stack, j);
    ReachableMask(s);
    hide Below, Inv, MaskOf, Innermost;
    var p, q := s.stack[i].prio, s.stack[j].prio;
    assert HasPrio(s.stack[i]) && HasPrio(s.stack[j]);
    assert p in s.regs.active && q in s.regs.active && p !in s.regs.mask && q !in s.regs.mask;
    assert p in s.regs.active - {id} || q in s.regs.active - {id};
  }

  lemma {:induction false} InnermostAtMost(stack: seq<Frame>, j: nat)
    requires forall k :: 0 <= k < |stack| ==> FrameOk(stack, k)
    requires j < |stack| && stack[j].Open?
    ensures Innermost(stack) <= stack[j].prio
  {
    hide Below;
    var n := |stack| - 1;
    assert FrameOk(stack, n);
    if j < n {
      if stack[n].Open? {
        PriosFall(stack, j, n);
      } else {
        assert stack[..n][j] == stack[j];
        forall k | 0 <= k < n ensures FrameOk(stack[..n], k) {
          assert FrameOk(stack, k);
          assert stack[..n][..k] == stack[..k];
        }
        InnermostAtMost(stack[..n], j);
      }
    }
  }

  /** Line q is up, alone, while interrupts are on. */
  function LineUp(s: State, q: nat): State {
    s.(regs := s.regs.(pie := true), lines := {q})
  }

  /** Who can interrupt a handler in its open section: the active lines with lower numbers; once a
      line has been enabled in the section, every active line and the new one.  The handler's own
      line is among these, if only the foreground has enabled and disabled lines before. */
  lemma EnableLetsIn(s: State, id: nat, q: nat)
    requires Reachable(s) && s.stack != [] && Top(s).Open? && id < NIRQ && q < NIRQ
    ensures Enabled(LineUp(s, q), Take) <==> q in s.regs.active && q < Top(s).prio
    ensures Enabled(LineUp(Apply(s, Enable(id)), q), Take) <==> q in s.regs.active || q == id
    ensures ForegroundReachable(s) ==> Enabled(LineUp(Apply(s, Enable(id)), Top(s).prio), Take)
  {
    ReachableMask(s);
    if ForegroundReachable(s) {
      ForegroundInv(s);
      assert HasPrio(s.stack[|s.stack| - 1]);
    }
    hide Below, Inv, MaskOf;
    var t := Apply(s, Enable(id));
    SingleMeets(q, s.regs.ienable);
    SingleMeets(q, t.regs.ienable);
    SingleMeets(Top(s).prio, t.regs.ienable);
  }

  lemma SingleMeets(q: nat, a: set<nat>)
    ensures {q} * a != {} <==> q in a
  {
    if q in a {
      assert q in {q} * a;
    }
  }

  // -----------------------------------------------------------------------------------------
  // Runs that break the priorities
  // -----------------------------------------------------------------------------------------

  lemma {:induction false} RunsJoin(s: State, a: seq<Event>, b: seq<Event>)
    requires IsRun(s, a) && IsRun(After(s, a), b)
    ensures IsRun(s, a + b) && After(s, a + b) == After(After(s, a), b)
    ensures AllHonour(s, a + b) <==> AllHonour(s, a) && AllHonour(After(s, a), b)
    decreases |a|
  {
    hide Enabled, Apply, Honours;
    if a == [] {
      assert a + b == b;
    } else {
      assert (a + b)[1..] == a[1..] + b;
      RunsJoin(Apply(s, a[0]), a[1..], b);
    }
  }

  lemma OneEvent(s: State, e: Event)
    requires Enabled(s, e)
    ensures IsRun(s, [e]) && After(s, [e]) == Apply(s, e)
    ensures AllHonour(s, [e]) <==> Honours(s, e)
  {
    hide Enabled, Apply, Honours;
    assert [e][1..] == [];
    assert IsRun(Apply(s, e), []) && AllHonour(Apply(s, e), []);
  }

  lemma TwoEvents(s: State, e: Event, f: Event)
    requires Enabled(s, e) && Enabled(Apply(s, e), f)
    ensures IsRun(s, [e, f]) && After(s, [e, f]) == Apply(Apply(s, e), f)
    ensures AllHonour(s, [e, f]) <==> Honours(s, e) && Honours(Apply(s, e), f)
  {
    hide Enabled, Apply, Honours;
    assert [e, f][1..] == [f];
    OneEvent(Apply(s, e), f);
  }

  lemma LowestOne(p: nat)
    requires p < NIRQ
    ensures {p} <= AllLines() && Lowest({p}) == p
  {
    hide Below, LowestFrom;
  }

  /** The processor takes the only line that is up, and its handler is called. */
  lemma TakeAndCall(s: State, q: nat)
    requires s.regs.pie && s.lines == {q} && q in s.regs.ienable && q < NIRQ
    ensures IsRun(s, [Take, Call]) && AllHonour(s, [Take, Call])
    ensures After(s, [Take, Call]) == State(s.regs.(pie := false), {q}, s.stack + [Running(q)])
  {
    hide Below, LowestFrom, Lowest;
    LowestOne(q);
    assert q in Pending(s);
    var t := Apply(s, Take);
    assert Pending(s) == Pending(t) == {q};
    assert WithTop(t, Running(q)) == s.stack + [Running(q)];
    TwoEvents(s, Take, Call);
  }

  /** From the foreground into the handler of line p. */
  function Entry(p: nat): seq<Event> { [SetPie(true), Lines({p})] + [Take, Call] }

  lemma EntersHandler(active: set<nat>, p: nat)
    requires p in active && active <= AllLines()
    ensures var s := State(Regs(active, AllLines(), active, false), {}, []);
            && IsRun(s, Entry(p)) && AllHonour(s, Entry(p))
            && After(s, Entry(p)) == State(Regs(active, AllLines(), active, false), {p}, [Running(p)])
  {
    var s := State(Regs(active, AllLines(), active, false), {}, []);
    LowestOne(p);
    hide Below, LowestFrom, Lowest;
    TwoEvents(s, SetPie(true), Lines({p}));
    var t := State(Regs(active, AllLines(), active, true), {p}, []);
    assert After(s, [SetPie(true), Lines({p})]) == t;
    TakeAndCall(t, p);
    RunsJoin(s, [SetPie(true), Lines({p})], [Take, Call]);
    assert t.stack + [Running(p)] == [Running(p)];
  }

  lemma StartsWith(p: nat)
    requires p < NIRQ
    ensures IsRun(Start(), [Enable(p)]) && AllHonour(Start(), [Enable(p)])
    ensures After(Start(), [Enable(p)]) == State(Regs({p}, AllLines(), {p}, false), {}, [])
  {
    hide Below;
    OneEvent(Start(), Enable(p));
    assert {} + {p} == {p};
  }

  /** From the reset into the handler of the only line, which then does two things. */
  function Story(p: nat, e: Event, f: Event): seq<Event> { [Enable(p)] + Entry(p) + [e, f] }

  lemma StoryRuns(p: nat, e: Event, f: Event)
    requires p < NIRQ
    requires var s := State(Regs({p}, AllLines(), {p}, false), {p}, [Running(p)]); Enabled(s, e) && Enabled(Apply(s, e), f)
    ensures var s := State(Regs({p}, AllLines(), {p}, false), {p}, [Running(p)]);
            && IsRun(Start(), Story(p, e, f)) && After(Start(), Story(p, e, f)) == Apply(Apply(s, e), f)
            && (AllHonour(Start(), Story(p, e, f)) <==> Honours(s, e) && Honours(Apply(s, e), f))
  {
    var s := State(Regs({p}, AllLines(), {p}, false), {p}, [Running(p)]);
    hide Below, Entry, Enabled, Apply, Honours;
    StartsWith(p);
    assert {p} <= AllLines() by { LowestOne(p); }
    EntersHandler({p}, p);
    TwoEvents(s, e, f);
    RunsJoin(Start(), [Enable(p)], Entry(p));
    RunsJoin(Start(), [Enable(p)] + Entry(p), [e, f]);
  }

  /** Whatever line id the handler of line p enables in its section while its own line is up, it is
      called again, on top of itself. */
  lemma ReenteredByOwnLine(p: nat, id: nat)
    requires p < NIRQ && id < NIRQ
    ensures var run := Story(p, OpenUp, Enable(id)) + [Take, Call];
            IsRun(Start(), run) && After(Start(), run).stack == [Open(p, AllLines()), Running(p)]
  {
    LowestOne(p);
    hide Below, LowestFrom, Lowest, Story;
    StoryRuns(p, OpenUp, Enable(id));
    var t := State(Regs({p} + {id}, Below(p), {p} + {id}, true), {p}, [Open(p, AllLines())]);
    assert After(Start(), Story(p, OpenUp, Enable(id))) == t;
    TakeAndCall(t, p);
    RunsJoin(Start(), Story(p, OpenUp, Enable(id)), [Take, Call]);
    assert t.stack + [Running(p)] == [Open(p, AllLines()), Running(p)];
  }

  /** And any line q that it enables, of whatever priority, interrupts it. */
  lemma LowerPriorityLetIn(p: nat, q: nat)
    requires p < NIRQ && q < NIRQ
    ensures var run := Story(p, OpenUp, Enable(q)) + [Lines({q})] + [Take, Call];
            IsRun(Start(), run) && After(Start(), run).stack == [Open(p, AllLines()), Running(q)]
  {
    LowestOne(p);
    LowestOne(q);
    hide Below, LowestFrom, Lowest, Story;
    StoryRuns(p, OpenUp, Enable(q));
    var t := State(Regs({p} + {q}, Below(p), {p} + {q}, true), {p}, [Open(p, AllLines())]);
    assert After(Start(), Story(p, OpenUp, Enable(q))) == t;
    OneEvent(t, Lines({q}));
    RunsJoin(Start(), Story(p, OpenUp, Enable(q)), [Lines({q})]);
    var u := Apply(t, Lines({q}));
    TakeAndCall(u, q);
    RunsJoin(Start(), Story(p, OpenUp, Enable(q)) + [Lines({q})], [Take, Call]);
    assert u.stack + [Running(q)] == [Open(p, AllLines()), Running(q)];
  }

  /** A handler that turns its own line off before it opens its section: the run honours the mask,
      and in the section enabling a line of higher priority honours it too, and so does disabling
      any line. */
  lemma OwnLineOffFirst(p: nat, id: nat)
    requires p < NIRQ && id < NIRQ
    ensures var run := Story(p, Disable(p), OpenUp);
            && IsRun(Start(), run) && Reachable(After(Start(), run))
            && After(Start(), run).stack == [Open(p, AllLines())]
            && (Honours(After(Start(), run), Enable(id)) <==> id < p)
            && Honours(After(Start(), run), Disable(id))
  {
    LowestOne(p);
    hide Below, LowestFrom, Lowest, Story;
    StoryRuns(p, Disable(p), OpenUp);
    var run := Story(p, Disable(p), OpenUp);
    var s := State(Regs({}, Below(p), {}, true), {p}, [Open(p, AllLines())]);
    assert {p} - {p} == {};
    assert After(Start(), run) == s;
    assert Reachable(s);
  }

  // -----------------------------------------------------------------------------------------
  // A handler with everything that interrupts it
  // -----------------------------------------------------------------------------------------

  lemma {:induction false} ForegroundJoin(s: State, a: seq<Event>, b: seq<Event>)
    requires IsRun(s, a) && IsRun(After(s, a), b) && AllForeground(s, a) && AllForeground(After(s, a), b)
    ensures IsRun(s, a + b) && AllForeground(s, a + b)
    decreases |a|
  {
    hide Enabled, Apply, Foreground;
    if a == [] {
      assert a + b == b;
    } else {
      assert (a + b)[1..] == a[1..] + b;
      ForegroundJoin(Apply(s, a[0]), a[1..], b);
    }
  }

  lemma ForegroundOne(s: State, e: Event)
    requires ForegroundReachable(s) && Enabled(s, e) && Foreground(s, e)
    ensures ForegroundReachable(Apply(s, e))
  {
    hide Enabled, Apply, Foreground;
    var events :| IsRun(Start(), events) && AllForeground(Start(), events) && After(Start(), events) == s;
    OneEvent(s, e);
    assert AllForeground(s, [e]) by {
      assert [e][1..] == [] && AllForeground(Apply(s, e), []);
    }
    ForegroundJoin(Start(), events, [e]);
    RunsJoin(Start(), events, [e]);
  }

  /** Whatever happens while a handler runs, sections that it opens and handlers that interrupt it
      included: once it returns, all is as if it had only changed the lines. */
  lemma NestingIsInvisible(s: State, inside: seq<Event>)
    requires ForegroundReachable(s) && Enabled(s, Call)
    requires var t := Apply(s, Call);
             IsRun(t, inside) && AllForeground(t, inside) && Inside(t, inside) && After(t, inside).stack == t.stack
    ensures var lines := After(Apply(s, Call), inside).lines;
            var nested, flat := [Call] + inside + [Return], [Call] + [Lines(lines)] + [Return];
            IsRun(s, nested) && IsRun(s, flat) && After(s, nested) == After(s, flat)
  {
    var t := Apply(s, Call);
    assert t.stack != [] && Top(t).Running?;
    ForegroundOne(s, Call);
    BalancedPairsRestore(t, inside);
    ForegroundInv(t);
    SectionRun(t, inside);
    var u := After(t, inside);
    assert u == t.(lines := u.lines) == Apply(t, Lines(u.lines));
    hide Below, LowestFrom, Lowest, Apply, IsRun, After, AllForeground, Inside, AllHonour, ForegroundReachable;
    OneEvent(s, Call);
    OneEvent(t, Lines(u.lines));
    OneEvent(u, Return);
    RunsJoin(s, [Call], inside);
    RunsJoin(s, [Call], [Lines(u.lines)]);
    RunsJoin(s, [Call] + inside, [Return]);
    RunsJoin(s, [Call] + [Lines(u.lines)], [Return]);
  }
}
