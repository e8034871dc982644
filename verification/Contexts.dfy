/** Context preservation: what a process is resumed with is what it was stopped with. */
module Contexts {
  import opened Words
  import opened Scheduling

  /** Step `k` is a timer interrupt that switches, with the CPU holding some process's registers. */
  ghost predicate Preempts(events: seq<Event>, states: seq<Machine>, k: nat)
    requires IsRun(events, states) && k < |events|
  {
    events[k].Timer? && Due(states[k]) && Switches(states[k]) && !states[k].firstRun
  }

  /** The process in the current slot is the one the CPU is running, not one added there since. */
  ghost predicate Occupied(events: seq<Event>, states: seq<Machine>, k: nat)
    requires IsRun(events, states) && k <= |events|
    decreases k
  {
    if k == 0 then !states[0].firstRun
    else match events[k - 1]
      case Timer(_) => (Due(states[k - 1]) && Switches(states[k - 1])) || Occupied(events, states, k - 1)
      case Adds(_) => Occupied(events, states, k - 1) && FreeSlot(states[k - 1].procs) != states[k - 1].cur
      case Removes(_) => Occupied(events, states, k - 1)
  }

  /**
    The registers the process in slot `i` must resume with, read off the history
    alone: those it held when it was last preempted, or else those it was added with.
   */
  ghost function Expected(events: seq<Event>, states: seq<Machine>, i: nat, k: nat): Regs
    requires IsRun(events, states) && k <= |events| && i < |states[0].procs|
    decreases k
  {
    if k == 0 then states[0].procs[i].regs
    else match events[k - 1]
      case Timer(regs) =>
        if Preempts(events, states, k - 1) && states[k - 1].cur == i && Occupied(events, states, k - 1) then regs
        else Expected(events, states, i, k - 1)
      case Adds(p) =>
        if FreeSlot(states[k - 1].procs) == i then p.regs else Expected(events, states, i, k - 1)
      case Removes(_) => Expected(events, states, i, k - 1)
  }

  /** What a process record says besides pid and registers. */
  datatype Card = Card(heapStackBoundary: uint32, heapSize: uint32, dir: uint32, priority: byte)

  function CardOf(p: Process): Card {
    Card(p.heapStackBoundary, p.heapSize, p.dir, p.priority)
  }

  /** The card of the process in slot `i`: the one it was added with. */
  ghost function ExpectedCard(events: seq<Event>, states: seq<Machine>, i: nat, k: nat): Card
    requires IsRun(events, states) && k <= |events| && i < |states[0].procs|
    decreases k
  {
    if k == 0 then CardOf(states[0].procs[i])
    else match events[k - 1]
      case Adds(p) =>
        if FreeSlot(states[k - 1].procs) == i then CardOf(p) else ExpectedCard(events, states, i, k - 1)
      case _ => ExpectedCard(events, states, i, k - 1)
  }

  lemma {:induction false} SameSize(events: seq<Event>, states: seq<Machine>, k: nat)
    requires IsRun(events, states) && k < |states|
    ensures |states[k].procs| == |states[0].procs|
    decreases k
  {
    if k > 0 {
      SameSize(events, states, k - 1);
      StepWellFormed(states[k - 1], events[k - 1]);
    }
  }

  /** In state `k` every slot holds the context its process must resume with. */
  ghost predicate AllKept(events: seq<Event>, states: seq<Machine>, k: nat)
    requires IsRun(events, states) && k <= |events|
  {
    && |states[k].procs| == |states[0].procs|
    && forall i :: 0 <= i < |states[0].procs| ==> states[k].procs[i].regs == Expected(events, states, i, k)
  }

  /** Step `k` saves the CPU's registers over other ones, those of a process that was added to the slot meanwhile. */
  ghost predicate Clobbers(events: seq<Event>, states: seq<Machine>, k: nat)
    requires IsRun(events, states) && k < |events|
  {
    && Preempts(events, states, k)
    && !Occupied(events, states, k)
    && events[k].regs != states[k].procs[states[k].cur].regs
  }

  lemma StepKeepsContexts(events: seq<Event>, states: seq<Machine>, k: nat)
    requires IsRun(events, states) && k < |events|
    requires AllKept(events, states, k)
    ensures AllKept(events, states, k + 1) <==> !Clobbers(events, states, k)
  {
    var s, e, s' := states[k], events[k], states[k + 1];
    StepWellFormed(s, e);
    if Clobbers(events, states, k) {
      assert s'.procs[s.cur].regs == e.regs;
      assert Expected(events, states, s.cur, k + 1) == Expected(events, states, s.cur, k);
    } else {
      forall i | 0 <= i < |states[0].procs| ensures s'.procs[i].regs == Expected(events, states, i, k + 1) {
        assert s.procs[i].regs == Expected(events, states, i, k);
      }
    }
  }

  /**
    Contexts are kept throughout a run if and only if no step of it saves other
    registers than the newcomer's into a slot that was emptied and refilled
    while its old process was still running.
   */
  lemma {:induction false} ContextsKept(events: seq<Event>, states: seq<Machine>, t: nat)
    requires IsRun(events, states) && t <= |events|
    ensures KeptUpTo(events, states, t) <==> UnclobberedBefore(events, states, t)
    decreases t
  {
    if t == 0 {
      KeptAtStart(events, states);
    } else {
      ContextsKept(events, states, t - 1);
      KeptExtends(events, states, t - 1);
      if KeptUpTo(events, states, t - 1) {
        KeptLast(events, states, t - 1);
        StepKeepsContexts(events, states, t - 1);
      }
    }
  }

  lemma KeptLast(events: seq<Event>, states: seq<Machine>, t: nat)
    requires IsRun(events, states) && t <= |events| && KeptUpTo(events, states, t)
    ensures AllKept(events, states, t)
  {
  }

  lemma KeptAtStart(events: seq<Event>, states: seq<Machine>)
    requires IsRun(events, states)
    ensures KeptUpTo(events, states, 0) && UnclobberedBefore(events, states, 0)
  {
  }

  ghost predicate KeptUpTo(events: seq<Event>, states: seq<Machine>, t: nat)
    requires IsRun(events, states) && t <= |events|
  {
    forall k: nat :: k <= t ==> AllKept(events, states, k)
  }

  ghost predicate UnclobberedBefore(events: seq<Event>, states: seq<Machine>, t: nat)
    requires IsRun(events, states) && t <= |events|
  {
    forall k: nat :: k < t ==> !Clobbers(events, states, k)
  }

  lemma KeptExtends(events: seq<Event>, states: seq<Machine>, t: nat)
    requires IsRun(events, states) && t < |events|
    ensures KeptUpTo(events, states, t + 1) <==> KeptUpTo(events, states, t) && AllKept(events, states, t + 1)
    ensures UnclobberedBefore(events, states, t + 1) <==>
            UnclobberedBefore(events, states, t) && !Clobbers(events, states, t)
  {
  }

  /** Removing only processes that are not running is enough to keep every context. */
  lemma SafeRemovals(events: seq<Event>, states: seq<Machine>, t: nat)
    requires IsRun(events, states) && t <= |events|
    requires RunningWell(events, states, 0)
    requires OnlyOthersRemoved(events, states)
    ensures UnclobberedBefore(events, states, t)
  {
    forall k: nat | k < t ensures !Clobbers(events, states, k) {
      StaysWell(events, states, k);
    }
  }

  /** Once the first switch has happened, the current slot holds the process the CPU is running. */
  ghost predicate RunningWell(events: seq<Event>, states: seq<Machine>, k: nat)
    requires IsRun(events, states) && k <= |events|
  {
    !states[k].firstRun ==> Live(states[k].procs[states[k].cur]) && Occupied(events, states, k)
  }

  ghost predicate OnlyOthersRemoved(events: seq<Event>, states: seq<Machine>)
    requires IsRun(events, states)
  {
    forall k :: 0 <= k < |events| && events[k].Removes? && !states[k].firstRun ==>
                  events[k].pid != states[k].procs[states[k].cur].pid
  }

  lemma {:induction false} StaysWell(events: seq<Event>, states: seq<Machine>, k: nat)
    requires IsRun(events, states) && k <= |events|
    requires RunningWell(events, states, 0) && OnlyOthersRemoved(events, states)
    ensures RunningWell(events, states, k)
    decreases k
  {
    if k > 0 {
      StaysWell(events, states, k - 1);
      RunningStaysLive(states[k - 1], events[k - 1]);
      OccupiedNext(events, states, k - 1);
    }
  }

  lemma OccupiedNext(events: seq<Event>, states: seq<Machine>, k: nat)
    requires IsRun(events, states) && k < |events|
    requires !states[k].firstRun ==> Occupied(events, states, k)
    requires events[k].Adds? && !states[k].firstRun ==> FreeSlot(states[k].procs) != states[k].cur
    requires states[k].firstRun && !states[k + 1].firstRun ==>
               events[k].Timer? && Due(states[k]) && Switches(states[k])
    requires states[k + 1].firstRun ==> states[k].firstRun
    ensures !states[k + 1].firstRun ==> Occupied(events, states, k + 1)
  {
  }

  /** A step that does not remove the running process leaves a live one running. */
  lemma RunningStaysLive(s: Machine, e: Event)
    requires WellFormed(s)
    requires !s.firstRun ==> Live(s.procs[s.cur])
    requires e.Removes? && !s.firstRun ==> e.pid != s.procs[s.cur].pid
    ensures var s' := Step(s, e);
            && s'.cur < |s'.procs|
            && (!s'.firstRun ==> Live(s'.procs[s'.cur]))
            && (s'.firstRun ==> s.firstRun)
            && (s.firstRun && !s'.firstRun ==> e.Timer? && Due(s) && Switches(s))
            && (e.Adds? && !s.firstRun ==> FreeSlot(s.procs) != s.cur)
  {
  }

  lemma StepCards(s: Machine, e: Event, i: nat)
    requires WellFormed(s) && i < |s.procs|
    ensures |Step(s, e).procs| == |s.procs|
    ensures CardOf(Step(s, e).procs[i]) ==
            if e.Adds? && FreeSlot(s.procs) == i then CardOf(e.proc) else CardOf(s.procs[i])
  {
  }

  ghost predicate CardsKept(events: seq<Event>, states: seq<Machine>, k: nat)
    requires IsRun(events, states) && k <= |events|
  {
    && |states[k].procs| == |states[0].procs|
    && forall i :: 0 <= i < |states[0].procs| ==> CardOf(states[k].procs[i]) == ExpectedCard(events, states, i, k)
  }

  /**
    In every run every slot holds the priority, page directory, heap bounds and
    heap size its process was added with; interrupts and removals change none.
   */
  lemma {:induction false} RecordsKept(events: seq<Event>, states: seq<Machine>, k: nat)
    requires IsRun(events, states) && k <= |events|
    ensures CardsKept(events, states, k)
    decreases k
  {
    if k > 0 {
      RecordsKept(events, states, k - 1);
      StepWellFormed(states[k - 1], events[k - 1]);
      forall i: nat | i < |states[0].procs|
        ensures CardOf(states[k].procs[i]) == ExpectedCard(events, states, i, k)
      {
        StepCards(states[k - 1], events[k - 1], i);
      }
    }
  }

  /** A process that finds an empty slot is live in it with all it was given, its pid being the slot. */
  lemma AddedWhole(s: Machine, p: Process)
    requires WellFormed(s) && FreeSlot(s.procs) < |s.procs|
    ensures var i, s' := FreeSlot(s.procs), Add(s, p);
            && Live(s'.procs[i]) && s'.procs[i].pid == i
            && s'.procs[i].regs == p.regs && CardOf(s'.procs[i]) == CardOf(p)
            && forall j :: 0 <= j < |s.procs| && j != i ==> s'.procs[j] == s.procs[j]
  {
  }

  /**
    Each dispatch hands the CPU the registers the process was stopped with, or
    added with, and activates that process's own page directory.
   */
  lemma DispatchRestores(events: seq<Event>, states: seq<Machine>, k: nat, p: nat)
    requires IsRun(events, states) && Dispatches(events, states, k, p)
    requires UnclobberedBefore(events, states, k + 1)
    ensures p < |states[0].procs|
    ensures Tick(states[k], events[k].regs).1 == Expected(events, states, p, k + 1)
    ensures p != states[k].cur ==> Expected(events, states, p, k + 1) == Expected(events, states, p, k)
    ensures states[k + 1].dir == ExpectedCard(events, states, p, k + 1).dir
    ensures !states[k + 1].firstRun && Live(states[k].procs[p])
  {
    ContextsKept(events, states, k + 1);
    assert AllKept(events, states, k + 1);
    RecordsKept(events, states, k + 1);
    assert CardOf(states[k + 1].procs[p]) == ExpectedCard(events, states, p, k + 1);
  }

  /**
    What an interrupt hands back to the CPU: the registers it interrupted, unless
    it dispatches, and then those of the process dispatched.
   */
  lemma InterruptReturns(events: seq<Event>, states: seq<Machine>, k: nat)
    requires IsRun(events, states) && k < |events| && events[k].Timer?
    requires Due(states[k]) && Switches(states[k]) ==> UnclobberedBefore(events, states, k + 1)
    ensures |states[k + 1].procs| == |states[0].procs| && states[k + 1].cur < |states[0].procs|
    ensures Tick(states[k], events[k].regs).1 ==
            if Due(states[k]) && Switches(states[k]) then Expected(events, states, states[k + 1].cur, k + 1)
            else events[k].regs
  {
    SameSize(events, states, k + 1);
    if Due(states[k]) && Switches(states[k]) {
      DispatchRestores(events, states, k, states[k + 1].cur);
    }
  }

  /**
    The clobbering case is real: once the running process is removed and its slot
    refilled, the next switch overwrites the newcomer's registers.
   */
  lemma RefillLosesContext(s: Machine, p: Process, regs: Regs)
    requires WellFormed(s) && s.active && !s.firstRun && Due(s)
    requires !Live(s.procs[s.cur]) && FreeSlot(s.procs) == s.cur
    ensures var s1 := Add(s, p);
            && Live(s1.procs[s.cur]) && s1.procs[s.cur].regs == p.regs
            && Tick(s1, regs).0.procs[s.cur].regs == regs
  {
    var s1 := Add(s, p);
    assert Live(s1.procs[s.cur]);
    assert IsNext(s1.procs, s1.cur, NextSlot(s1.procs, s1.cur));
  }
}
