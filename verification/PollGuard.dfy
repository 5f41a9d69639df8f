/**
 * The guard around the event drain of drivers/xhci.c: a flag read and set with interrupts
 * off, on one processor, by any number of contexts that interrupt and resume one another.
 */
module PollGuard {

  /** Where a context is in a call of the poll; `saved` is the interrupt flag it found. */
  datatype Point =
    | Outside
    | SaveFlags
    | DisableInterrupts
    | TestBusy
    | EnableAndLeave
    | SetBusy
    | Reenable
    | Draining(events: nat)
    | ClearBusy

  /** A context of execution with its own interrupt flag, as a switch away from it would save it. */
  datatype Context = Context(point: Point, interruptible: bool, saved: bool)

  datatype Machine = Machine(contexts: seq<Context>, running: nat, busy: bool)

  predicate Valid(m: Machine) { m.running < |m.contexts| }

  /** One instruction of the running context. `more` says whether the ring has another event. */
  function Advance(c: Context, busy: bool, more: bool): (Context, bool) {
    match c.point
    case Outside => (c.(point := SaveFlags), busy)
    case SaveFlags => (c.(point := DisableInterrupts, saved := c.interruptible), busy)
    case DisableInterrupts => (c.(point := TestBusy, interruptible := false), busy)
    case TestBusy => (c.(point := if busy then EnableAndLeave else SetBusy), busy)
    case EnableAndLeave => (c.(point := Outside, interruptible := c.interruptible || c.saved), busy)
    case SetBusy => (c.(point := Reenable), true)
    case Reenable => (c.(point := Draining(0), interruptible := c.interruptible || c.saved), busy)
    case Draining(k) => (c.(point := if more && k < 16 then Draining(k + 1) else ClearBusy), busy)
    case ClearBusy => (c.(point := Outside), false)
  }

  datatype Step =
    | Execute(more: bool)
    | Interrupt            // a new context starts, interrupts off
    | Switch(to: nat)      // another context resumes
    | Toggle(on: bool)     // code outside the poll sets its own interrupt flag

  /** The processor leaves a context only while it is interruptible, or outside the poll. */
  predicate CanLeave(c: Context) { c.interruptible || c.point == Outside }

  function Apply(m: Machine, step: Step): Machine
    requires Valid(m)
  {
    var c := m.contexts[m.running];
    match step
    case Execute(more) =>
      var (c', busy') := Advance(c, m.busy, more);
      Machine(m.contexts[m.running := c'], m.running, busy')
    case Interrupt =>
      if c.interruptible then Machine(m.contexts + [Context(Outside, false, false)], |m.contexts|, m.busy) else m
    case Switch(to) =>
      if CanLeave(c) && to < |m.contexts| then m.(running := to) else m
    case Toggle(on) =>
      if c.point == Outside then m.(contexts := m.contexts[m.running := c.(interruptible := on)]) else m
  }

  // ---- One context in the drain ----------------------------------------------------------

  /** The context holds the flag: from the store that sets it to the one that clears it. */
  predicate Holds(p: Point) { p == Reenable || p.Draining? || p == ClearBusy }

  /** The context is between turning interrupts off and the end of its test. */
  predicate Deciding(p: Point) { p == TestBusy || p == SetBusy }

  /** Interrupts are off while deciding, and what they were before in the drain. */
  predicate Flags(c: Context) {
    && (Deciding(c.point) || c.point == EnableAndLeave || c.point == Reenable ==> !c.interruptible)
    && (c.point == DisableInterrupts || c.point.Draining? || c.point == ClearBusy ==> c.interruptible == c.saved)
  }

  /** Only the running context can be deciding, and it decides on what it will find. */
  ghost predicate Alone(cs: seq<Context>, running: nat, busy: bool) {
    forall i :: 0 <= i < |cs| ==>
      && Flags(cs[i])
      && (Deciding(cs[i].point) ==> i == running)
      && (cs[i].point == SetBusy ==> !busy)
  }

  /** The flag is up exactly while one context holds it. */
  ghost predicate Owned(cs: seq<Context>, busy: bool) {
    && (forall i, j :: 0 <= i < |cs| && 0 <= j < |cs| && Holds(cs[i].point) && Holds(cs[j].point) ==> i == j)
    && (busy ==> exists i :: 0 <= i < |cs| && Holds(cs[i].point))
    && (!busy ==> forall i :: 0 <= i < |cs| ==> !Holds(cs[i].point))
  }

  ghost predicate Inv(m: Machine) { Valid(m) && Alone(m.contexts, m.running, m.busy) && Owned(m.contexts, m.busy) }

  lemma StartKeeps(interruptible: bool)
    ensures Inv(Machine([Context(Outside, interruptible, false)], 0, false))
  {
  }

  lemma OwnedUpdate(cs: seq<Context>, k: nat, c: Context, busy: bool, busy': bool)
    requires k < |cs| && Owned(cs, busy)
    requires Holds(c.point) ==> busy' && (Holds(cs[k].point) || !busy)
    requires !Holds(c.point) ==> busy' == (busy && !Holds(cs[k].point))
    ensures Owned(cs[k := c], busy')
  {
    var cs' := cs[k := c];
    if Holds(c.point) {
      assert Holds(cs'[k].point);
    } else if busy' {
      var i :| 0 <= i < |cs| && Holds(cs[i].point);
      assert Holds(cs'[i].point);
    }
  }

  lemma ExecuteKeeps(m: Machine, more: bool)
    requires Inv(m)
    ensures Inv(Apply(m, Execute(more)))
  {
    var c := m.contexts[m.running];
    var (c', busy') := Advance(c, m.busy, more);
    assert Flags(c);
    assert !m.busy ==> !Holds(c.point);
    assert Holds(c.point) ==> m.busy;
    OwnedUpdate(m.contexts, m.running, c', m.busy, busy');
    hide Owned;
  }

  lemma ApplyKeeps(m: Machine, step: Step)
    requires Inv(m)
    ensures Inv(Apply(m, step))
  {
    var c := m.contexts[m.running];
    match step
    case Execute(more) => ExecuteKeeps(m, more);
    case Interrupt =>
      assert Flags(c);
      if m.busy {
        var i :| 0 <= i < |m.contexts| && Holds(m.contexts[i].point);
        assert Holds(Apply(m, step).contexts[i].point);
      }
    case Switch(to) => assert Flags(c);
    case Toggle(on) =>
      if c.point == Outside {
        OwnedUpdate(m.contexts, m.running, c.(interruptible := on), m.busy, m.busy);
      }
  }

  /** A call that ends, either way, leaves interrupts as it found them when it saved them. */
  lemma LeavesFlagAsFound(m: Machine, more: bool)
    requires Inv(m) && m.contexts[m.running].point != Outside
    ensures var c, c' := m.contexts[m.running], Apply(m, Execute(more)).contexts[m.running];
            && (c.point == SaveFlags ==> c'.saved == c.interruptible)
            && (c.point != SaveFlags ==> c'.saved == c.saved)
            && (c'.point == Outside ==> c'.interruptible == c'.saved)
  {
    assert Flags(m.contexts[m.running]);
  }

  ghost function Run(m: Machine, steps: seq<Step>): (r: Machine)
    requires Valid(m)
    ensures Valid(r)
  {
    if steps == [] then m else Apply(Run(m, steps[..|steps| - 1]), steps[|steps| - 1])
  }

  lemma {:induction false} RunKeeps(m: Machine, steps: seq<Step>)
    requires Inv(m)
    ensures Inv(Run(m, steps))
  {
    if steps != [] {
      RunKeeps(m, steps[..|steps| - 1]);
      ApplyKeeps(Run(m, steps[..|steps| - 1]), steps[|steps| - 1]);
    }
  }

  /** However contexts interrupt and resume one another, no two are ever in the drain together. */
  lemma OneDrains(interruptible: bool, steps: seq<Step>, i: nat, j: nat)
    ensures var m := Run(Machine([Context(Outside, interruptible, false)], 0, false), steps);
            i < |m.contexts| && j < |m.contexts| && m.contexts[i].point.Draining? && m.contexts[j].point.Draining? ==> i == j
  {
    StartKeeps(interruptible);
    RunKeeps(Machine([Context(Outside, interruptible, false)], 0, false), steps);
  }
}
