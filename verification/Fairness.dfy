/** Who runs when: round robin over a fixed live set, fairness under churn, and the real-time bound. */
module Fairness {
  import opened Words
  import opened Scheduling

  // ----- A switch brings every live slot nearer

  lemma SwitchComesCloser(procs: seq<Process>, c: nat, p: nat)
    requires c < |procs| && p < |procs| && Live(procs[p])
    ensures var n, i := |procs|, NextSlot(procs, c);
            Live(procs[i]) && (i == p || Dist(n, i, p) == Dist(n, c, p) - Dist(n, c, i))
  {
  }

  // ----- A fixed live set

  function LiveSlots(procs: seq<Process>): set<nat> {
    set i | 0 <= i < |procs| && Live(procs[i])
  }

  /** Live slots met on the way from `c` up to and including `p`. */
  function Ahead(procs: seq<Process>, c: nat, p: nat): set<nat>
    requires c < |procs| && p < |procs|
  {
    set i | 0 <= i < |procs| && Live(procs[i]) && Dist(|procs|, c, i) <= Dist(|procs|, c, p)
  }

  /** The slot running after `j` switches when nobody comes or goes. */
  function Visited(procs: seq<Process>, c: nat, j: nat): (r: nat)
    requires c < |procs|
    ensures r < |procs|
    decreases j
  {
    if j == 0 then c else Visited(procs, NextSlot(procs, c), j - 1)
  }

  /** Of `n = |LiveSlots|` consecutive slots visited, number `|Ahead(c, p)|` and no other is live slot `p`. */
  lemma {:induction false} VisitedOnce(procs: seq<Process>, c: nat, p: nat, j: nat)
    requires c < |procs| && p < |procs| && Live(procs[p])
    requires 1 <= j <= |LiveSlots(procs)|
    ensures 1 <= |Ahead(procs, c, p)| <= |LiveSlots(procs)|
    ensures Visited(procs, c, j) == p <==> j == |Ahead(procs, c, p)|
    decreases j
  {
    var i := NextSlot(procs, c);
    SwitchComesCloser(procs, c, p);
    AheadBounds(procs, c, p);
    AheadShrinks(procs, c, i, p);
    if j > 1 {
      VisitedOnce(procs, i, p, j - 1);
    } else {
      assert Visited(procs, c, 1) == Visited(procs, i, 0) == i;
    }
  }

  lemma AheadBounds(procs: seq<Process>, c: nat, p: nat)
    requires c < |procs| && p < |procs| && Live(procs[p])
    ensures 1 <= |Ahead(procs, c, p)| <= |LiveSlots(procs)|
  {
    assert p in Ahead(procs, c, p);
    SubsetSize(Ahead(procs, c, p), LiveSlots(procs));
  }

  lemma {:induction false} SubsetSize(a: set<nat>, b: set<nat>)
    requires a <= b
    ensures |a| <= |b|
    decreases |a|
  {
    if a != {} {
      var x :| x in a;
      SubsetSize(a - {x}, b - {x});
    }
  }

  lemma AheadShrinks(procs: seq<Process>, c: nat, i: nat, p: nat)
    requires c < |procs| && p < |procs| && Live(procs[p]) && i == NextSlot(procs, c)
    ensures |Ahead(procs, c, i)| == 1
    ensures p == i ==> |Ahead(procs, i, p)| == |LiveSlots(procs)|
    ensures p != i ==> |Ahead(procs, i, p)| == |Ahead(procs, c, p)| - 1 && |Ahead(procs, c, p)| > 1
  {
    var n := |procs|;
    SwitchComesCloser(procs, c, p);
    assert Ahead(procs, c, i) == {i};
    if p == i {
      assert Ahead(procs, i, p) == LiveSlots(procs);
    } else {
      assert i in Ahead(procs, c, p) && p in Ahead(procs, c, p);
      assert Ahead(procs, i, p) == Ahead(procs, c, p) - {i};
      SubsetSize({i, p}, Ahead(procs, c, p));
    }
  }

  /** One call of `start_next_process` goes to the next slot and changes no liveness. */
  lemma SwitchKeepsLive(s: Machine, regs: Regs)
    requires WellFormed(s) && s.active && LiveSlots(s.procs) != {}
    ensures var s' := Dispatch(s, regs).0;
            && WellFormed(s') && s'.active
            && s'.cur == NextSlot(s.procs, s.cur)
            && SameLive(s.procs, s'.procs)
  {
    var p :| p in LiveSlots(s.procs);
    SwitchComesCloser(s.procs, s.cur, p);
  }

  /** The machine after one `start_next_process` for each register set of `calls`. */
  function DispatchAll(s: Machine, calls: seq<Regs>): Machine
    requires s.cur < |s.procs|
    decreases |calls|
  {
    if calls == [] then s else DispatchAll(Dispatch(s, calls[0]).0, calls[1..])
  }

  lemma {:induction false} CallsVisit(s: Machine, calls: seq<Regs>)
    requires WellFormed(s) && s.active && LiveSlots(s.procs) != {}
    ensures DispatchAll(s, calls).cur == Visited(s.procs, s.cur, |calls|)
    decreases |calls|
  {
    if calls != [] {
      var s' := Dispatch(s, calls[0]).0;
      SwitchKeepsLive(s, calls[0]);
      SameLiveSlots(s.procs, s'.procs);
      CallsVisit(s', calls[1..]);
      VisitedSame(s.procs, s'.procs, s'.cur, |calls| - 1);
    }
  }

  /**
    Round robin: of as many consecutive calls of `start_next_process` as there
    are live processes, number `|Ahead(cur, p)|` and no other dispatches `p`.
   */
  lemma RoundRobin(s: Machine, calls: seq<Regs>, p: nat, j: nat)
    requires WellFormed(s) && s.active && p < |s.procs| && Live(s.procs[p])
    requires |calls| == |LiveSlots(s.procs)| && 1 <= j <= |calls|
    ensures 1 <= |Ahead(s.procs, s.cur, p)| <= |calls|
    ensures DispatchAll(s, calls[..j]).cur == p <==> j == |Ahead(s.procs, s.cur, p)|
  {
    assert p in LiveSlots(s.procs);
    CallsVisit(s, calls[..j]);
    VisitedOnce(s.procs, s.cur, p, j);
  }

  ghost predicate SameLive(procs: seq<Process>, procs': seq<Process>) {
    |procs| == |procs'| && forall i :: 0 <= i < |procs| ==> Live(procs[i]) == Live(procs'[i])
  }

  lemma SameLiveSlots(procs: seq<Process>, procs': seq<Process>)
    requires SameLive(procs, procs')
    ensures LiveSlots(procs') == LiveSlots(procs)
  {
  }

  lemma {:induction false} VisitedSame(procs: seq<Process>, procs': seq<Process>, c: nat, j: nat)
    requires SameLive(procs, procs') && c < |procs|
    ensures Visited(procs', c, j) == Visited(procs, c, j)
    decreases j
  {
    if j > 0 {
      NextUnique(procs', c, NextSlot(procs, c));
      VisitedSame(procs, procs', NextSlot(procs, c), j - 1);
    }
  }

  // ----- Any run

  /** Slot `p` holds a process throughout steps `a` to `b`. */
  ghost predicate StaysLive(states: seq<Machine>, a: nat, b: nat, p: nat) {
    forall k :: a <= k <= b && k < |states| ==> p < |states[k].procs| && Live(states[k].procs[p])
  }

  /** Step `k` of a run hands the CPU on. */
  ghost predicate SwitchAt(events: seq<Event>, states: seq<Machine>, k: nat)
    requires IsRun(events, states) && k < |events|
  {
    events[k].Timer? && Due(states[k]) && Switches(states[k])
  }

  /** How many of the steps `a` to `b - 1` switch processes. */
  ghost function SwitchCount(events: seq<Event>, states: seq<Machine>, a: nat, b: nat): nat
    requires IsRun(events, states) && a <= b <= |events|
    decreases b - a
  {
    if a == b then 0
    else (if SwitchAt(events, states, a) then 1 else 0) + SwitchCount(events, states, a + 1, b)
  }

  /** The same slots are occupied in every state from `a` to `b`, whatever events occur. */
  ghost predicate Steady(states: seq<Machine>, a: nat, b: nat) {
    a <= b < |states| && forall k :: a <= k <= b ==> SameLive(states[a].procs, states[k].procs)
  }

  lemma {:induction false} RunVisits(events: seq<Event>, states: seq<Machine>, a: nat, b: nat)
    requires IsRun(events, states) && b <= |events| && Steady(states, a, b)
    ensures states[b].cur == Visited(states[a].procs, states[a].cur, SwitchCount(events, states, a, b))
    decreases b
  {
    if a < b {
      RunVisits(events, states, a, b - 1);
      StepVisits(events, states, a, b - 1);
    }
  }

  lemma StepVisits(events: seq<Event>, states: seq<Machine>, a: nat, b: nat)
    requires IsRun(events, states) && b < |events| && a <= b && SameLive(states[a].procs, states[b].procs)
    requires states[b].cur == Visited(states[a].procs, states[a].cur, SwitchCount(events, states, a, b))
    ensures states[b + 1].cur == Visited(states[a].procs, states[a].cur, SwitchCount(events, states, a, b + 1))
  {
    CountNext(events, states, a, b);
    StepMoves(events, states, b);
    VisitNext(states[a].procs, states[b].procs, states[a].cur, SwitchCount(events, states, a, b));
  }

  lemma VisitNext(procs: seq<Process>, procs': seq<Process>, c: nat, n: nat)
    requires SameLive(procs, procs') && c < |procs|
    ensures NextSlot(procs', Visited(procs, c, n)) == Visited(procs, c, n + 1)
  {
    NextSame(procs, procs', Visited(procs, c, n));
    VisitedLast(procs, c, n);
  }

  lemma NextSame(procs: seq<Process>, procs': seq<Process>, c: nat)
    requires SameLive(procs, procs') && c < |procs|
    ensures NextSlot(procs', c) == NextSlot(procs, c)
  {
    NextUnique(procs', c, NextSlot(procs, c));
  }

  lemma {:induction false} VisitedLast(procs: seq<Process>, c: nat, n: nat)
    requires c < |procs|
    ensures Visited(procs, c, n + 1) == NextSlot(procs, Visited(procs, c, n))
    decreases n
  {
    if n > 0 {
      VisitedLast(procs, NextSlot(procs, c), n - 1);
    } else {
      assert Visited(procs, c, 1) == Visited(procs, NextSlot(procs, c), 0);
    }
  }

  /** Only a switch moves the CPU on, and then to the next live slot. */
  lemma StepMoves(events: seq<Event>, states: seq<Machine>, k: nat)
    requires IsRun(events, states) && k < |events|
    ensures states[k + 1].cur ==
            if SwitchAt(events, states, k) then NextSlot(states[k].procs, states[k].cur) else states[k].cur
  {
    assert states[k + 1] == Step(states[k], events[k]);
  }

  lemma {:induction false} CountNext(events: seq<Event>, states: seq<Machine>, a: nat, b: nat)
    requires IsRun(events, states) && a <= b < |events|
    ensures SwitchCount(events, states, a, b + 1) ==
            SwitchCount(events, states, a, b) + if SwitchAt(events, states, b) then 1 else 0
    decreases b - a
  {
    if a < b {
      CountNext(events, states, a + 1, b);
    }
  }

  lemma {:induction false} CountGrows(events: seq<Event>, states: seq<Machine>, a: nat, b: nat, c: nat)
    requires IsRun(events, states) && a <= b <= c <= |events|
    ensures SwitchCount(events, states, a, b) <= SwitchCount(events, states, a, c)
    decreases c
  {
    if b < c {
      CountGrows(events, states, a, b, c - 1);
      CountNext(events, states, a, c - 1);
    }
  }

  /** The step that is switch number `j` since step `a`. */
  lemma {:induction false} SwitchNumber(events: seq<Event>, states: seq<Machine>, a: nat, b: nat, j: nat)
    returns (k: nat)
    requires IsRun(events, states) && a <= b <= |events| && 1 <= j <= SwitchCount(events, states, a, b)
    ensures a <= k < b && SwitchAt(events, states, k) && SwitchCount(events, states, a, k + 1) == j
    decreases b
  {
    CountNext(events, states, a, b - 1);
    if j <= SwitchCount(events, states, a, b - 1) {
      k := SwitchNumber(events, states, a, b - 1, j);
    } else {
      k := b - 1;
    }
  }

  /**
    Round robin in every run: while the same slots are occupied, switch number
    `|Ahead|` dispatches `p`, and no other of the first `n = |LiveSlots|` does.
   */
  lemma SwitchOrder(events: seq<Event>, states: seq<Machine>, a: nat, k: nat, p: nat)
    requires IsRun(events, states) && a <= k < |events| && Steady(states, a, k + 1)
    requires p < |states[a].procs| && Live(states[a].procs[p])
    requires SwitchAt(events, states, k)
    requires SwitchCount(events, states, a, k + 1) <= |LiveSlots(states[a].procs)|
    ensures Dispatches(events, states, k, p) <==>
            SwitchCount(events, states, a, k + 1) == |Ahead(states[a].procs, states[a].cur, p)|
  {
    CountNext(events, states, a, k);
    RunVisits(events, states, a, k + 1);
    VisitedOnce(states[a].procs, states[a].cur, p, SwitchCount(events, states, a, k + 1));
  }

  /** So every stretch of `n` switches dispatches each live process exactly once. */
  lemma OncePerRound(events: seq<Event>, states: seq<Machine>, a: nat, b: nat, p: nat) returns (k: nat)
    requires IsRun(events, states) && b <= |events| && Steady(states, a, b)
    requires p < |states[a].procs| && Live(states[a].procs[p])
    requires SwitchCount(events, states, a, b) == |LiveSlots(states[a].procs)|
    ensures a <= k < b && Dispatches(events, states, k, p)
    ensures forall i: nat :: a <= i < b && Dispatches(events, states, i, p) ==> i == k
  {
    var j := |Ahead(states[a].procs, states[a].cur, p)|;
    AheadBounds(states[a].procs, states[a].cur, p);
    k := SwitchNumber(events, states, a, b, j);
    NumberOf(events, states, a, b, k, p);
    forall i: nat | a <= i < b && Dispatches(events, states, i, p) ensures i == k {
      NumberOf(events, states, a, b, i, p);
      DifferentCounts(events, states, a, i, k);
    }
  }

  lemma NumberOf(events: seq<Event>, states: seq<Machine>, a: nat, b: nat, i: nat, p: nat)
    requires IsRun(events, states) && b <= |events| && Steady(states, a, b) && a <= i < b
    requires p < |states[a].procs| && Live(states[a].procs[p])
    requires SwitchCount(events, states, a, b) == |LiveSlots(states[a].procs)|
    requires SwitchAt(events, states, i)
    ensures Dispatches(events, states, i, p) <==>
            SwitchCount(events, states, a, i + 1) == |Ahead(states[a].procs, states[a].cur, p)|
  {
    CountGrows(events, states, a, i + 1, b);
    SwitchOrder(events, states, a, i, p);
  }

  lemma DifferentCounts(events: seq<Event>, states: seq<Machine>, a: nat, i: nat, k: nat)
    requires IsRun(events, states) && a <= i < |events| && a <= k < |events|
    requires SwitchAt(events, states, i) && SwitchAt(events, states, k)
    requires SwitchCount(events, states, a, i + 1) == SwitchCount(events, states, a, k + 1)
    ensures i == k
  {
    CountNext(events, states, a, i);
    CountNext(events, states, a, k);
    if i < k { CountGrows(events, states, a, i + 1, k); }
    if k < i { CountGrows(events, states, a, k + 1, i); }
  }

  ghost predicate DispatchedWithin(events: seq<Event>, states: seq<Machine>, a: nat, b: nat, p: nat) {
    exists k: nat :: a <= k < b && Dispatches(events, states, k, p)
  }

  /**
    Fairness: whatever is added or removed meanwhile, a process that stays live
    is dispatched within as many switches as its slot is steps ahead of the
    running one, hence within the size of the table.
   */
  lemma {:induction false} Fair(events: seq<Event>, states: seq<Machine>, a: nat, b: nat, p: nat)
    requires IsRun(events, states) && a <= b <= |events|
    requires StaysLive(states, a, b, p) && p < |states[a].procs|
    requires SwitchCount(events, states, a, b) >= Dist(|states[a].procs|, states[a].cur, p)
    ensures DispatchedWithin(events, states, a, b, p)
    decreases b - a
  {
    var s, e := states[a], events[a];
    StepWellFormed(s, e);
    assert Live(s.procs[p]);
    if e.Timer? && Due(s) && Switches(s) {
      SwitchComesCloser(s.procs, s.cur, p);
      if states[a + 1].cur == p {
        assert Dispatches(events, states, a, p);
      } else {
        Fair(events, states, a + 1, b, p);
      }
    } else {
      Fair(events, states, a + 1, b, p);
    }
  }

  // ----- The clock

  /** Timer interrupts until the next switch, counting the one that switches; the counter wraps. */
  function TicksLeft(s: Machine): (n: nat)
    ensures 1 <= n <= TWO32
  {
    var t := SliceTicks(s.slice, s.freq);
    if s.ticks < t then t - s.ticks else TWO32 - s.ticks + t
  }

  /** The countdown is exact: the handler switches when one tick is left and otherwise uses up one. */
  lemma Countdown(s: Machine, regs: Regs)
    requires WellFormed(s)
    ensures Due(s) <==> TicksLeft(s) == 1
    ensures !Due(s) ==> TicksLeft(Tick(s, regs).0) == TicksLeft(s) - 1
  {
    var t := SliceTicks(s.slice, s.freq);
    assert Due(s) <==> if s.ticks == TWO32 - 1 then t == 0 else t == s.ticks + 1;
  }

  /** At 100 Hz each priority runs for a fixed number of ticks after a switch; below 10 ms the slice rounds to none. */
  lemma SliceLengths(s: Machine, regs: Regs)
    requires WellFormed(s) && s.active && s.freq == 100 && Due(s)
    ensures var s' := Tick(s, regs).0;
            var priority := s'.procs[s'.cur].priority;
            TicksLeft(s') == match priority
                             case 0 => 10
                             case 1 => 5
                             case 2 => 2
                             case 3 => 1
                             case _ => TWO32
  {
  }

  /** At 1000 Hz the ticks of a slice are its milliseconds. */
  lemma SliceMillis(s: Machine, regs: Regs)
    requires WellFormed(s) && s.active && s.freq == 1000 && Due(s)
    ensures var s' := Tick(s, regs).0;
            var priority := s'.procs[s'.cur].priority;
            TicksLeft(s') == match priority
                             case 0 => 100
                             case 1 => 50
                             case 2 => 25
                             case 3 => 10
                             case _ => 5
  {
  }

  /** While the scheduler is inactive nothing is switched and the handler looks again every five ticks at 100 Hz. */
  lemma InactiveSlice(s: Machine, regs: Regs)
    requires WellFormed(s) && !s.active && s.freq == 100 && Due(s)
    ensures var (s', r) := Tick(s, regs);
            s'.procs == s.procs && s'.cur == s.cur && r == regs && TicksLeft(s') == 5
  {
  }

  /**
    A slice has its exact length in every run: until its ticks are used up no
    interrupt switches, and the interrupt that uses up the last one does.
   */
  lemma {:induction false} SliceIsExact(events: seq<Event>, states: seq<Machine>, a: nat, b: nat)
    requires IsRun(events, states) && a <= b <= |events|
    requires TickCount(events, a, b) < TicksLeft(states[a])
    ensures forall k :: a <= k < b && events[k].Timer? ==> !Due(states[k])
    ensures TicksLeft(states[b]) == TicksLeft(states[a]) - TickCount(events, a, b)
    ensures Due(states[b]) <==> TickCount(events, a, b) == TicksLeft(states[a]) - 1
    decreases b - a
  {
    if a == b {
      Countdown(states[a], AnyRegs());
    } else {
      if events[a].Timer? {
        Countdown(states[a], events[a].regs);
      }
      SliceIsExact(events, states, a + 1, b);
    }
  }

  function AnyRegs(): Regs {
    Regs(0, 0, 0, 0, 0, 0, 0, 0, 0, 0, 0, 0, 0, 0, 0, 0, 0, 0, 0)
  }

  /** Every process is of a priority whose slice is at least one tick. */
  ghost predicate Prompt(s: Machine) {
    && s.active && s.freq == 100
    && (forall i :: 0 <= i < |s.procs| && Live(s.procs[i]) ==> s.procs[i].priority <= 3)
    && s.ticks < SliceTicks(s.slice, s.freq) <= 10
  }

  ghost predicate PromptEvents(events: seq<Event>) {
    forall k :: 0 <= k < |events| && events[k].Adds? ==> events[k].proc.priority <= 3
  }

  lemma StaysPrompt(s: Machine, e: Event)
    requires WellFormed(s) && Prompt(s)
    requires s.procs[s.cur].priority <= 3 || exists p :: 0 <= p < |s.procs| && Live(s.procs[p])
    requires e.Adds? ==> e.proc.priority <= 3
    ensures Prompt(Step(s, e))
    ensures s.procs[s.cur].priority <= 3 ==> Step(s, e).procs[Step(s, e).cur].priority <= 3
  {
    if e.Timer? && Due(s) {
      var i := NextSlot(s.procs, s.cur);
      if p :| 0 <= p < |s.procs| && Live(s.procs[p]) {
        SwitchComesCloser(s.procs, s.cur, p);
      }
      assert Step(s, e).cur == if Live(s.procs[i]) then i else s.cur;
    }
  }

  /** In every run the tick count stays below the slice, so no slice ever waits for the counter to wrap. */
  lemma {:induction false} AlwaysPrompt(events: seq<Event>, states: seq<Machine>, t: nat)
    requires IsRun(events, states) && PromptEvents(events) && t < |states|
    requires Prompt(states[0]) && states[0].procs[states[0].cur].priority <= 3
    ensures Prompt(states[t]) && states[t].procs[states[t].cur].priority <= 3
  {
    if t > 0 {
      AlwaysPrompt(events, states, t - 1);
      StaysPrompt(states[t - 1], events[t - 1]);
    }
  }

  function TickCount(events: seq<Event>, a: nat, b: nat): nat
    requires a <= b <= |events|
    decreases b - a
  {
    if a == b then 0 else (if events[a].Timer? then 1 else 0) + TickCount(events, a + 1, b)
  }

  /** Ticks after which slot `p` must have been dispatched. */
  function Wait(s: Machine, p: nat): int
    requires WellFormed(s) && p < |s.procs|
  {
    TicksLeft(s) + 10 * (Dist(|s.procs|, s.cur, p) - 1)
  }

  /** A timer interrupt that does not dispatch `p` brings `p` at least one tick nearer. */
  lemma WaitShrinks(s: Machine, e: Event, p: nat)
    requires WellFormed(s) && Prompt(s) && p < |s.procs| && Live(s.procs[p])
    ensures var s' := Step(s, e);
            && WellFormed(s') && |s'.procs| == |s.procs|
            && (if e.Timer? then (Due(s) && Switches(s) && s'.cur == p) || Wait(s', p) < Wait(s, p)
                else Wait(s', p) == Wait(s, p))
  {
    StepWellFormed(s, e);
    if e.Timer? {
      Countdown(s, e.regs);
      SwitchComesCloser(s.procs, s.cur, p);
      if Due(s) {
        SliceLengths(s, e.regs);
        assert Live(s.procs[Step(s, e).cur]);
      }
    }
  }

  /**
    Real time: with priorities 0 to 3 at 100 Hz, a process that stays live is
    dispatched within ten ticks per slot of the table.
   */
  lemma WaitBound(events: seq<Event>, states: seq<Machine>, a: nat, b: nat, p: nat)
    requires IsRun(events, states) && a <= b <= |events|
    requires PromptEvents(events) && Prompt(states[a])
    requires StaysLive(states, a, b, p)
    requires TickCount(events, a, b) >= 10 * |states[a].procs|
    ensures DispatchedWithin(events, states, a, b, p)
  {
    assert Live(states[a].procs[p]);
    assert Wait(states[a], p) <= 10 * |states[a].procs|;
    WaitEnds(events, states, a, b, p);
  }

  lemma {:induction false} WaitEnds(events: seq<Event>, states: seq<Machine>, a: nat, b: nat, p: nat)
    requires IsRun(events, states) && a <= b <= |events|
    requires PromptEvents(events) && Prompt(states[a])
    requires StaysLive(states, a, b, p) && p < |states[a].procs|
    requires TickCount(events, a, b) >= Wait(states[a], p)
    ensures DispatchedWithin(events, states, a, b, p)
    decreases b - a
  {
    var s, e := states[a], events[a];
    assert Live(s.procs[p]);
    WaitShrinks(s, e, p);
    if e.Timer? && Due(s) && Switches(s) && states[a + 1].cur == p {
      assert Dispatches(events, states, a, p);
    } else {
      StaysPrompt(s, e);
      WaitEnds(events, states, a + 1, b, p);
    }
  }
}
