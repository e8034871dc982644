/**
  The scheduler, process table and timer as one state machine on values, for a
  process table of any size. The Scheduler class is proved to perform these steps.
 */
module Scheduling {
  import opened Words

  /** The pid of an empty slot, -1 in a uint32_t. */
  const NOBODY: uint32 := 0xFFFF_FFFF

  datatype Regs = Regs(
    gs: uint32, fs: uint32, es: uint32, ds: uint32,
    edi: uint32, esi: uint32, ebp: uint32, esp: uint32, ebx: uint32, edx: uint32, ecx: uint32, eax: uint32,
    intNo: uint32, errCode: uint32,
    eip: uint32, cs: uint32, eflags: uint32, useresp: uint32, ss: uint32)

  datatype Process = Process(
    heapStackBoundary: uint32, heapSize: uint32, dir: uint32, pid: uint32, regs: Regs, priority: byte)

  predicate Live(p: Process) { p.pid != NOBODY }

  datatype Machine = Machine(
    procs: seq<Process>, cur: nat, active: bool, firstRun: bool, dir: uint32,
    ticks: uint32, slice: uint32, freq: uint32)

  ghost predicate WellFormed(s: Machine) {
    && 0 < |s.procs| < NOBODY
    && s.cur < |s.procs|
    && forall i :: 0 <= i < |s.procs| && Live(s.procs[i]) ==> s.procs[i].pid == i
  }

  // ----- Cyclic distance

  /** How many steps lead from slot `c` forward to slot `p`; a full turn for `c` itself. */
  function Dist(n: nat, c: nat, p: nat): (d: nat)
    requires c < n && p < n
    ensures 1 <= d <= n
  {
    if p > c then p - c else p + n - c
  }

  function At(n: nat, c: nat, d: nat): (p: nat)
    requires c < n && 1 <= d <= n
    ensures p < n && Dist(n, c, p) == d
  {
    if c + d < n then c + d else c + d - n
  }

  /** `r` is where the search from slot `c` must stop: the nearest live slot ahead, or `c` if all are empty. */
  ghost predicate IsNext(procs: seq<Process>, c: nat, r: nat) {
    && c < |procs| && r < |procs|
    && (Live(procs[r]) || r == c)
    && forall j :: 0 <= j < |procs| && Live(procs[j]) ==> Dist(|procs|, c, r) <= Dist(|procs|, c, j)
  }

  function Search(procs: seq<Process>, c: nat, d: nat): (r: nat)
    requires c < |procs| && 1 <= d <= |procs|
    requires forall j :: 0 <= j < |procs| && Live(procs[j]) ==> d <= Dist(|procs|, c, j)
    ensures IsNext(procs, c, r)
    decreases |procs| - d
  {
    var i := At(|procs|, c, d);
    if Live(procs[i]) || d == |procs| then i
    else
      assert forall j :: 0 <= j < |procs| && Live(procs[j]) ==> Dist(|procs|, c, j) != d by {
        forall j | 0 <= j < |procs| && Dist(|procs|, c, j) == d ensures j == i {}
      }
      Search(procs, c, d + 1)
  }

  function NextSlot(procs: seq<Process>, c: nat): (r: nat)
    requires c < |procs|
    ensures IsNext(procs, c, r)
  {
    Search(procs, c, 1)
  }

  lemma NextUnique(procs: seq<Process>, c: nat, r: nat)
    requires IsNext(procs, c, r)
    ensures r == NextSlot(procs, c)
  {
  }

  // ----- Steps

  function TimeSlice(priority: byte): nat {
    match priority
    case 0 => 100
    case 1 => 50
    case 2 => 25
    case 3 => 10
    case _ => 5
  }

  /** Whether `start_next_process` switches at all. */
  predicate Switches(s: Machine)
    requires s.cur < |s.procs|
  {
    s.active && Live(s.procs[NextSlot(s.procs, s.cur)])
  }

  /** The table after the running process's registers have been put away. */
  function Saved(s: Machine, regs: Regs): seq<Process>
    requires s.cur < |s.procs|
  {
    if s.firstRun then s.procs else s.procs[s.cur := s.procs[s.cur].(regs := regs)]
  }

  /** start_next_process: the new state and the registers that return to the CPU. */
  function Dispatch(s: Machine, regs: Regs): (Machine, Regs)
    requires s.cur < |s.procs|
  {
    if !Switches(s) then (s, regs)
    else
      var i := NextSlot(s.procs, s.cur);
      var procs := Saved(s, regs);
      (s.(procs := procs, cur := i, firstRun := false, dir := procs[i].dir), procs[i].regs)
  }

  /** The slice `start_next_process` returns, in milliseconds. */
  function SliceOf(s: Machine): nat
    requires s.cur < |s.procs|
  {
    if s.active then TimeSlice(s.procs[s.cur].priority) else 50
  }

  /** The tick count at which the handler switches: the product is a uint32_t. */
  function SliceTicks(slice: uint32, freq: uint32): uint32 {
    Wrap(slice * freq) / 1000
  }

  predicate Due(s: Machine) {
    Wrap(s.ticks + 1) == SliceTicks(s.slice, s.freq)
  }

  function Tick(s: Machine, regs: Regs): (Machine, Regs)
    requires s.cur < |s.procs|
  {
    if Due(s) then
      var (s', r) := Dispatch(s, regs);
      (s'.(slice := SliceOf(s'), ticks := 0), r)
    else (s.(ticks := Wrap(s.ticks + 1)), regs)
  }

  /** The slot `add_process` takes: the first empty one, `|procs|` if there is none. */
  function FreeSlot(procs: seq<Process>): (i: nat)
    ensures i <= |procs|
    ensures i < |procs| ==> !Live(procs[i])
    ensures forall j :: 0 <= j < i ==> Live(procs[j])
  {
    if procs == [] then 0
    else if !Live(procs[0]) then 0
    else
      var k := FreeSlot(procs[1..]);
      assert forall j :: 1 <= j < k + 1 ==> procs[j] == procs[1..][j - 1];
      k + 1
  }

  function Add(s: Machine, p: Process): Machine
    requires WellFormed(s)
  {
    var i := FreeSlot(s.procs);
    if i == |s.procs| then s else s.(procs := s.procs[i := p.(pid := i)])
  }

  function Removed(procs: seq<Process>, pid: uint32): (r: seq<Process>)
    ensures |r| == |procs|
    ensures forall i :: 0 <= i < |procs| ==>
              r[i] == if procs[i].pid == pid then procs[i].(pid := NOBODY) else procs[i]
  {
    if procs == [] then []
    else [if procs[0].pid == pid then procs[0].(pid := NOBODY) else procs[0]] + Removed(procs[1..], pid)
  }

  function Remove(s: Machine, pid: uint32): Machine {
    s.(procs := Removed(s.procs, pid))
  }

  // ----- Runs

  datatype Event = Timer(regs: Regs) | Adds(proc: Process) | Removes(pid: uint32)

  function Step(s: Machine, e: Event): Machine
    requires WellFormed(s)
  {
    match e
    case Timer(regs) => Tick(s, regs).0
    case Adds(p) => Add(s, p)
    case Removes(pid) => Remove(s, pid)
  }

  lemma StepWellFormed(s: Machine, e: Event)
    requires WellFormed(s)
    ensures WellFormed(Step(s, e))
    ensures |Step(s, e).procs| == |s.procs|
    ensures Step(s, e).freq == s.freq && Step(s, e).active == s.active
  {
  }

  ghost predicate IsRun(events: seq<Event>, states: seq<Machine>) {
    && |states| == |events| + 1
    && (forall k :: 0 <= k < |states| ==> WellFormed(states[k]))
    && (forall k :: 0 <= k < |events| ==> states[k + 1] == Step(states[k], events[k]))
  }

  /** The states a machine passes through. */
  function States(s: Machine, events: seq<Event>): (states: seq<Machine>)
    requires WellFormed(s)
    ensures |states| == |events| + 1 && states[0] == s
    decreases |events|
  {
    if events == [] then [s]
    else
      StepWellFormed(s, events[0]);
      [s] + States(Step(s, events[0]), events[1..])
  }

  /** Every sequence of events has its run from every well-formed state. */
  lemma {:induction false} EveryRun(s: Machine, events: seq<Event>)
    requires WellFormed(s)
    ensures IsRun(events, States(s, events))
    decreases |events|
  {
    if events != [] {
      StepWellFormed(s, events[0]);
      var rest := States(Step(s, events[0]), events[1..]);
      EveryRun(Step(s, events[0]), events[1..]);
      var states := [s] + rest;
      assert states == States(s, events);
      forall k | 0 <= k < |events| ensures states[k + 1] == Step(states[k], events[k]) {
        if k > 0 {
          assert rest[k] == Step(rest[k - 1], events[1..][k - 1]);
        }
      }
    }
  }

  /** Step `k` is a timer interrupt that hands the CPU to slot `p`. */
  ghost predicate Dispatches(events: seq<Event>, states: seq<Machine>, k: nat, p: nat) {
    && k < |events| && k + 1 < |states| && states[k].cur < |states[k].procs|
    && events[k].Timer? && Due(states[k]) && Switches(states[k])
    && states[k + 1].cur == p
  }
}
