/** Nested interrupts: the enable register, the priority mask and the handlers that interrupt one
    another.  A 32-bit register is given by the set of its one bits. */
module IrqNesting {
  import opened Arithmetic

  const NIRQ := 32

  function AllLines(): set<nat> { Below(NIRQ) }

  function Below(p: nat): (s: set<nat>)
    ensures forall q :: q in s <==> 0 <= q < p
  {
    if p == 0 then {} else Below(p - 1) + {p - 1}
  }

  /** The interrupt registers: the variables alt_irq_active and alt_priority_mask, the control
      register IENABLE, and the PIE bit of the status register. */
  datatype Regs = Regs(active: set<nat>, mask: set<nat>, ienable: set<nat>, pie: bool)

  function Reset(): Regs { Regs({}, AllLines(), {}, false) }

  /** alt_irq_enable() and alt_irq_disable() of one line. */
  function LineEnabled(r: Regs, id: nat): Regs {
    r.(active := r.active + {id}, ienable := r.active + {id})
  }

  function LineDisabled(r: Regs, id: nat): Regs {
    r.(active := r.active - {id}, ienable := r.active - {id})
  }

  /** alt_irq_interruptible() and alt_irq_non_interruptible(). */
  function Opened(r: Regs, priority: nat): Regs {
    r.(mask := Below(priority), ienable := r.active * Below(priority), pie := true)
  }

  function Closed(r: Regs, mask: set<nat>): Regs {
    r.(mask := mask, ienable := mask * r.active, pie := false)
  }

  // On 32-bit words these set operations are the masks and shifts of the code.

  lemma AndIsIntersection(x: bv32, y: bv32, i: bv6)
    requires i < 32
    ensures Bit(x & y, i) <==> Bit(x, i) && Bit(y, i)
  {
  }

  lemma OrIsInsertion(x: bv32, i: bv6, j: bv6)
    requires i < 32 && j < 32
    ensures Bit(x | (1 << j), i) <==> Bit(x, i) || i == j
  {
  }

  lemma AndNotIsRemoval(x: bv32, i: bv6, j: bv6)
    requires i < 32 && j < 32
    ensures Bit(x & !(1 << j), i) <==> Bit(x, i) && i != j
  {
  }

  lemma MaskIsBelow(i: bv6, j: bv6)
    requires i < 32 && j < 32
    ensures Bit((1 << j) - 1, i) <==> i < j
  {
  }

  /** The lowest member from i on. */
  function LowestFrom(s: set<nat>, i: nat): (p: nat)
    requires exists q :: q in s && i <= q < NIRQ
    ensures p in s && i <= p < NIRQ
    ensures forall q :: q in s && i <= q ==> p <= q
    decreases NIRQ - i
  {
    if i in s then i
    else
      assert exists q :: q in s && i + 1 <= q < NIRQ by {
        var q :| q in s && i <= q < NIRQ;
      }
      LowestFrom(s, i + 1)
  }

  function Lowest(s: set<nat>): (p: nat)
    requires s != {} && s <= AllLines()
    ensures p in s && forall q :: q in s ==> p <= q
  {
    assert exists q :: q in s && 0 <= q < NIRQ by {
      var q :| q in s;
    }
    LowestFrom(s, 0)
  }

  // -----------------------------------------------------------------------------------------
  // The machine
  // -----------------------------------------------------------------------------------------

  /** One activation of the dispatcher: between handlers, in a handler, or in a handler that has
      made itself interruptible and holds the mask to put back. */
  datatype Frame = Idle | Running(prio: nat) | Open(prio: nat, saved: set<nat>)

  datatype State = State(regs: Regs, lines: set<nat>, stack: seq<Frame>)

  datatype Event =
    | Lines(lines: set<nat>)   // devices raise and drop their lines
    | Take                     // the processor takes an interrupt
    | Call                     // the dispatcher calls the handler of the lowest pending line
    | OpenUp                   // the handler makes itself interruptible
    | CloseDown                // and not interruptible again
    | Return                   // the handler returns
    | Leave                    // the dispatcher finds nothing pending and returns
    | SetPie(on: bool)         // a critical section begins or ends
    | Enable(id: nat)          // somebody enables a line
    | Disable(id: nat)         // or disables one

  function Pending(s: State): set<nat> { s.lines * s.regs.ienable }

  function Top(s: State): Frame
    requires s.stack != []
  {
    s.stack[|s.stack| - 1]
  }

  function WithTop(s: State, f: Frame): seq<Frame>
    requires s.stack != []
  {
    s.stack[..|s.stack| - 1] + [f]
  }

  function Start(): State { State(Reset(), {}, []) }

  predicate Enabled(s: State, e: Event) {
    match e
    case Lines(l) => l <= AllLines()
    case Take => s.regs.pie && Pending(s) != {}
    case Call => s.stack != [] && Top(s).Idle? && Pending(s) != {} && Pending(s) <= AllLines()
    case OpenUp => s.stack != [] && Top(s).Running?
    case CloseDown => s.stack != [] && Top(s).Open?
    case Return => s.stack != [] && Top(s).Running?
    case Leave => s.stack != [] && Top(s).Idle? && Pending(s) == {}
    case SetPie(_) => s.stack == [] || Top(s).Open?
    case Enable(id) => id < NIRQ
    case Disable(id) => id < NIRQ
  }

  function Apply(s: State, e: Event): State
    requires Enabled(s, e)
  {
    match e
    case Lines(l) => s.(lines := l)
    case Take => s.(regs := s.regs.(pie := false), stack := s.stack + [Idle])
    case Call => s.(stack := WithTop(s, Running(Lowest(Pending(s)))))
    case OpenUp => s.(regs := Opened(s.regs, Top(s).prio), stack := WithTop(s, Open(Top(s).prio, s.regs.mask)))
    case CloseDown => s.(regs := Closed(s.regs, Top(s).saved), stack := WithTop(s, Running(Top(s).prio)))
    case Return => s.(stack := WithTop(s, Idle))
    case Leave => s.(regs := s.regs.(pie := true), stack := s.stack[..|s.stack| - 1])
    case SetPie(on) => s.(regs := s.regs.(pie := on))
    case Enable(id) => s.(regs := LineEnabled(s.regs, id))
    case Disable(id) => s.(regs := LineDisabled(s.regs, id))
  }

  /** Lines are enabled and disabled only outside interrupts. */
  predicate Foreground(s: State, e: Event) {
    e.Enable? || e.Disable? ==> s.stack == []
  }

  /** Enabling or disabling a line leaves no line active that the mask holds back. */
  predicate Honours(s: State, e: Event) {
    match e
    case Enable(id) => s.regs.active + {id} <= s.regs.mask
    case Disable(id) => s.regs.active - {id} <= s.regs.mask
    case _ => true
  }

  // -----------------------------------------------------------------------------------------
  // What every event keeps
  // -----------------------------------------------------------------------------------------

  /** The mask that the handlers on the stack have set: that of the innermost open one. */
  function MaskOf(stack: seq<Frame>): set<nat> {
    if stack == [] then AllLines()
    else
      match stack[|stack| - 1]
      case Open(p, _) => Below(p)
      case _ => MaskOf(stack[..|stack| - 1])
  }

  /** Frame i fits on what is below it: its line had priority there, and what it saved is the
      mask it found. */
  predicate FrameOk(stack: seq<Frame>, i: nat)
    requires i < |stack|
  {
    var found := MaskOf(stack[..i]);
    match stack[i]
    case Idle => i == |stack| - 1 && found != {}
    case Running(p) => i == |stack| - 1 && p in found
    case Open(p, saved) => p in found && saved == found
  }

  ghost predicate Inv(s: State) {
    && s.lines <= AllLines() && s.regs.active <= AllLines()
    && s.regs.mask == MaskOf(s.stack)
    && s.regs.ienable == s.regs.active * s.regs.mask
    && (s.regs.pie ==> s.stack == [] || Top(s).Open?)
    && (forall i :: 0 <= i < |s.stack| ==> FrameOk(s.stack, i))
  }

  lemma StartInv()
    ensures Inv(Start())
  {
  }

  lemma SameBelow(a: seq<Frame>, b: seq<Frame>, i: nat)
    requires i < |a| && i < |b| && a[..i + 1] == b[..i + 1]
    requires FrameOk(a, i) && a[i].Open?
    ensures FrameOk(b, i)
  {
    assert a[..i] == a[..i + 1][..i] == b[..i + 1][..i] == b[..i];
    assert a[i] == a[..i + 1][i] == b[..i + 1][i] == b[i];
  }

  /** Replacing, pushing or popping the top frame keeps the rest. */
  lemma RestOk(a: seq<Frame>, b: seq<Frame>, n: nat)
    requires n <= |a| && n <= |b| && a[..n] == b[..n]
    requires forall i :: 0 <= i < |a| ==> FrameOk(a, i)
    requires forall i :: 0 <= i < n ==> a[i].Open?
    ensures forall i :: 0 <= i < n ==> FrameOk(b, i)
  {
    forall i | 0 <= i < n ensures FrameOk(b, i) {
      assert a[..i + 1] == a[..n][..i + 1] == b[..n][..i + 1] == b[..i + 1];
      SameBelow(a, b, i);
    }
  }

  /** Every frame below the top belongs to an open handler. */
  lemma BelowTopOpen(s: State)
    requires Inv(s)
    ensures forall i :: 0 <= i < |s.stack| - 1 ==> s.stack[i].Open?
  {
    forall i | 0 <= i < |s.stack| - 1 ensures s.stack[i].Open? {
      assert FrameOk(s.stack, i);
    }
  }

  lemma ApplyInv(s: State, e: Event)
    requires Inv(s) && Enabled(s, e) && Honours(s, e)
    ensures Inv(Apply(s, e))
  {
    hide Below, FrameOk, MaskOf, WithTop, Top, Opened, Closed, Lowest;
    match e
    case Take => TakeInv(s);
    case Call => CallInv(s);
    case OpenUp => OpenUpInv(s);
    case CloseDown => CloseDownInv(s);
    case Return => ReturnInv(s);
    case Leave => LeaveInv(s);
    case _ => QuietInv(s, e);
  }

  lemma QuietInv(s: State, e: Event)
    requires Inv(s) && Enabled(s, e) && Honours(s, e) && (e.Lines? || e.SetPie? || e.Enable? || e.Disable?)
    ensures Inv(Apply(s, e))
  {
    hide Below, FrameOk, MaskOf;
    if e.Enable? {
      MeetsIsWithin(s.regs.active + {e.id}, s.regs.mask);
    } else if e.Disable? {
      MeetsIsWithin(s.regs.active - {e.id}, s.regs.mask);
    }
  }

  lemma MeetsIsWithin(a: set<nat>, b: set<nat>)
    ensures a * b == a <==> a <= b
  {
    assert a * b <= b;
  }

  lemma ForegroundHonours(s: State, e: Event)
    requires Inv(s) && Enabled(s, e) && Foreground(s, e)
    ensures Honours(s, e)
  {
    hide Below, FrameOk;
  }

  lemma TakeInv(s: State)
    requires Inv(s) && Enabled(s, Take)
    ensures Inv(Apply(s, Take))
  {
    hide Below;
    BelowTopOpen(s);
    var t := Apply(s, Take);
    RestOk(s.stack, t.stack, |s.stack|);
    assert t.stack[..|s.stack|] == s.stack;
  }

  lemma LeaveInv(s: State)
    requires Inv(s) && Enabled(s, Leave)
    ensures Inv(Apply(s, Leave))
  {
    hide Below;
    BelowTopOpen(s);
    var t := Apply(s, Leave);
    RestOk(s.stack, t.stack, |t.stack|);
  }

  /** Exchanging the top frame: the rest of the stack is as good as it was. */
  lemma TopRest(s: State, f: Frame)
    requires Inv(s) && s.stack != []
    ensures var b, n := WithTop(s, f), |s.stack| - 1;
            && |b| == n + 1 && b[..n] == s.stack[..n] && b[n] == f
            && (forall i :: 0 <= i < n ==> FrameOk(b, i))
            && FrameOk(s.stack, n)
  {
    hide Below;
    BelowTopOpen(s);
    var b := WithTop(s, f);
    assert b[..|b| - 1] == s.stack[..|s.stack| - 1];
    RestOk(s.stack, b, |b| - 1);
  }

  lemma CallInv(s: State)
    requires Inv(s) && Enabled(s, Call)
    ensures Inv(Apply(s, Call))
  {
    hide Below, LowestFrom;
    TopRest(s, Running(Lowest(Pending(s))));
  }

  lemma OpenUpInv(s: State)
    requires Inv(s) && Enabled(s, OpenUp)
    ensures Inv(Apply(s, OpenUp))
  {
    hide Below;
    TopRest(s, Open(Top(s).prio, s.regs.mask));
  }

  lemma CloseDownInv(s: State)
    requires Inv(s) && Enabled(s, CloseDown)
    ensures Inv(Apply(s, CloseDown))
  {
    hide Below;
    TopRest(s, Running(Top(s).prio));
  }

  lemma ReturnInv(s: State)
    requires Inv(s) && Enabled(s, Return)
    ensures Inv(Apply(s, Return))
  {
    hide Below;
    TopRest(s, Idle);
  }

  // -----------------------------------------------------------------------------------------
  // Whole runs
  // -----------------------------------------------------------------------------------------

  predicate IsRun(s: State, events: seq<Event>)
    decreases |events|
  {
    events == [] || (Enabled(s, events[0]) && IsRun(Apply(s, events[0]), events[1..]))
  }

  function After(s: State, events: seq<Event>): State
    requires IsRun(s, events)
    decreases |events|
  {
    if events == [] then s else After(Apply(s, events[0]), events[1..])
  }

  /** Every event of the run honours the mask. */
  predicate AllHonour(s: State, events: seq<Event>)
    requires IsRun(s, events)
    decreases |events|
  {
    events == [] || (Honours(s, events[0]) && AllHonour(Apply(s, events[0]), events[1..]))
  }

  lemma {:induction false} RunInv(s: State, events: seq<Event>)
    requires Inv(s) && IsRun(s, events) && AllHonour(s, events)
    ensures Inv(After(s, events))
    decreases |events|
  {
    hide Inv, Enabled, Apply, Honours;
    if events != [] {
      ApplyInv(s, events[0]);
      RunInv(Apply(s, events[0]), events[1..]);
    }
  }

  ghost predicate Reachable(s: State) {
    exists events :: IsRun(Start(), events) && AllHonour(Start(), events) && After(Start(), events) == s
  }

  lemma ReachableInv(s: State)
    requires Reachable(s)
    ensures Inv(s)
  {
    var events :| IsRun(Start(), events) && AllHonour(Start(), events) && After(Start(), events) == s;
    StartInv();
    RunInv(Start(), events);
  }

  predicate HasPrio(f: Frame) { !f.Idle? }

  lemma {:induction false} PriosFall(stack: seq<Frame>, i: nat, j: nat)
    requires forall k :: 0 <= k < |stack| ==> FrameOk(stack, k)
    requires i < j < |stack| && HasPrio(stack[j])
    ensures stack[i].Open? && stack[j].prio < stack[i].prio
    decreases j
  {
    hide Below;
    assert FrameOk(stack, i) && FrameOk(stack, j) && FrameOk(stack, j - 1);
    assert stack[..j][..j - 1] == stack[..j - 1];
    if i < j - 1 {
      PriosFall(stack, i, j - 1);
    }
  }

  lemma {:induction false} PrioBound(stack: seq<Frame>, i: nat)
    requires forall k :: 0 <= k < |stack| ==> FrameOk(stack, k)
    requires i < |stack| && HasPrio(stack[i])
    ensures stack[i].prio + i < NIRQ
  {
    hide Below;
    assert FrameOk(stack, i);
    if i > 0 {
      PriosFall(stack, i - 1, i);
      PrioBound(stack, i - 1);
    }
  }

  /** In every reachable state, even if handlers enable and disable lines, as long as they honour
      the mask: the enable register is what the active lines and the mask make
      it; whoever interrupts a handler has a higher priority, that is a lower number; handlers
      nest at most 32 deep. */
  lemma NestingRespectsPriority(s: State)
    requires Reachable(s)
    ensures s.regs.ienable == s.regs.active * s.regs.mask && s.regs.mask == MaskOf(s.stack)
    ensures forall i, j :: 0 <= i < j < |s.stack| && HasPrio(s.stack[j]) ==>
                             s.stack[i].Open? && s.stack[j].prio < s.stack[i].prio
    ensures |s.stack| <= NIRQ
  {
    hide Below;
    ReachableInv(s);
    forall i, j | 0 <= i < j < |s.stack| && HasPrio(s.stack[j])
      ensures s.stack[i].Open? && s.stack[j].prio < s.stack[i].prio
    {
      PriosFall(s.stack, i, j);
    }
    var n := |s.stack|;
    if n > 0 {
      assert FrameOk(s.stack, n - 1);
      if n > 1 {
        assert FrameOk(s.stack, n - 2);
        assert s.stack[..n - 1][..n - 2] == s.stack[..n - 2];
        PrioBound(s.stack, n - 2);
      }
    }
  }

  /** A handler that is called inside an open section has a lower number than its priority. */
  lemma PreemptedByHigherOnly(s: State, i: nat)
    requires Reachable(s) && Enabled(s, Call) && i < |s.stack| && s.stack[i].Open?
    ensures Top(Apply(s, Call)).prio < s.stack[i].prio
  {
    hide Below;
    ReachableInv(s);
    ApplyInv(s, Call);
    var t := Apply(s, Call);
    assert t.stack[i] == s.stack[i];
    PriosFall(t.stack, i, |t.stack| - 1);
  }
}
