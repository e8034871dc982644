/** The kernel's scheduler: a process table updated in place, driven by the timer interrupt. */
module Scheduler {
  import opened Words
  import opened Scheduling

  class Kernel {
    const procs: array<Process>
    var cur: nat
    var active: bool
    var firstRun: bool
    var currentDir: uint32
    var ticks: uint32
    var slice: uint32
    var freq: uint32

    ghost function State(): Machine
      reads this, procs
    {
      Machine(procs[..], cur, active, firstRun, currentDir, ticks, slice, freq)
    }

    ghost predicate Valid()
      reads this, procs
    {
      WellFormed(State())
    }

    /**
      init_scheduler, with the table memory and the kernel stack supplied by the
      caller. Fields it does not set keep whatever the memory held.
     */
    constructor (table: array<Process>, kernelFunc: uint32, kernelDir: uint32, stackTop: uint32, freq: uint32)
      requires 0 < table.Length < 0x100
      modifies table
      ensures Valid() && procs == table && cur == 0 && firstRun && !active
      ensures ticks == 0 && slice == 40 && this.freq == freq
      ensures forall i :: 1 <= i < table.Length ==> !Live(table[i])
      ensures Live(table[0]) && table[0].priority == 0 && table[0].dir == kernelDir
      ensures table[0].regs.eip == kernelFunc && table[0].regs.useresp == stackTop == table[0].regs.ebp
      ensures table[0].regs.cs == 0x08 && table[0].regs.ds == 0x10 && table[0].regs.eflags == 0x202
      ensures table[0].regs.ss == table[0].regs.es == table[0].regs.fs == table[0].regs.gs == 0x10
    {
      procs := table;
      cur, active, firstRun, currentDir := 0, false, true, kernelDir;
      ticks, slice, this.freq := 0, 40, freq;
      new;
      var i := 0;
      while i < table.Length
        invariant i <= table.Length
        invariant forall j :: 0 <= j < i ==> !Live(table[j])
        modifies table
      {
        table[i] := table[i].(pid := NOBODY);
        i := i + 1;
      }
      table[0] := table[0].(
        priority := 0, pid := 0, dir := kernelDir,
        regs := table[0].regs.(
        ds := 0x10, cs := 0x08, eip := kernelFunc, ss := 0x10, es := 0x10, fs := 0x10, gs := 0x10,
        eflags := 0x202, useresp := stackTop, ebp := stackTop));
    }

    method AddProcess(proc: Process) returns (pid: int)
      requires Valid()
      modifies procs
      ensures Valid() && State() == Add(old(State()), proc)
      ensures pid == if FreeSlot(old(procs[..])) < procs.Length then FreeSlot(old(procs[..])) else -1
    {
      ghost var free := FreeSlot(procs[..]);
      var i := 0;
      while i < procs.Length
        invariant 0 <= i <= free
        invariant procs[..] == old(procs[..])
        decreases procs.Length - i
      {
        if procs[i].pid == NOBODY {
          procs[i] := proc.(pid := i);
          return i;
        }
        i := i + 1;
      }
      return -1;
    }

    method RemoveProcess(pid: uint32)
      requires Valid()
      modifies procs
      ensures Valid() && State() == Remove(old(State()), pid)
    {
      var i := 0;
      while i < procs.Length
        invariant 0 <= i <= procs.Length
        invariant forall j :: 0 <= j < i ==>
                    procs[j] == if old(procs[j]).pid == pid then old(procs[j]).(pid := NOBODY) else old(procs[j])
        invariant forall j :: i <= j < procs.Length ==> procs[j] == old(procs[j])
      {
        if procs[i].pid == pid {
          procs[i] := procs[i].(pid := NOBODY);
        }
        i := i + 1;
      }
      assert procs[..] == Removed(old(procs[..]), pid);
    }

    method StartNextProcess(regs: Regs) returns (regs': Regs, millis: nat)
      requires Valid()
      modifies procs, `cur, `firstRun, `currentDir
      ensures Valid()
      ensures (State(), regs') == Dispatch(old(State()), regs)
      ensures millis == SliceOf(State())
    {
      regs' := regs;
      if !active { return regs, 50; }
      ghost var n, c, d := procs.Length, cur, 0;
      var i := cur;
      var searching := true;
      while searching
        invariant Valid() && c < n == procs.Length
        invariant searching ==> State() == old(State()) && regs' == regs
        invariant searching ==> 0 <= d < n && i == if d == 0 then c else At(n, c, d)
        invariant searching ==> forall j :: 0 <= j < n && Live(procs[j]) ==> d < Dist(n, c, j)
        invariant !searching ==> (State(), regs') == Dispatch(old(State()), regs)
        decreases searching, n - d
      {
        i := i + 1;
        if i >= procs.Length { i := 0; }
        d := d + 1;
        if procs[i].pid != NOBODY {
          NextUnique(procs[..], c, i);
          regs' := SwitchTo(i, regs);
        } else if i == cur {
          NextUnique(procs[..], c, i);
        } else {
          forall j | 0 <= j < n && Live(procs[j]) ensures d < Dist(n, c, j) {
            assert Dist(n, c, j) == d ==> j == i;
          }
        }
        searching := cur != i;
      }
      millis := TimeSlice(procs[cur].priority);
    }

    /** Put the running process away and load the one in slot `i`. */
    method SwitchTo(i: nat, regs: Regs) returns (regs': Regs)
      requires Valid() && active
      requires i == NextSlot(procs[..], cur) && Live(procs[i])
      modifies procs, `cur, `firstRun, `currentDir
      ensures Valid() && cur == i
      ensures (State(), regs') == Dispatch(old(State()), regs)
    {
      if !firstRun {
        procs[cur] := procs[cur].(regs := regs);
      } else {
        firstRun := false;
      }
      regs' := procs[i].regs;
      currentDir := procs[i].dir;
      cur := i;
      assert procs[..] == Saved(old(State()), regs);
    }

    method TimerHandler(regs: Regs) returns (regs': Regs)
      requires Valid()
      modifies this, procs
      ensures Valid()
      ensures (State(), regs') == Tick(old(State()), regs)
    {
      regs' := regs;
      ticks := Wrap(ticks + 1);
      if ticks == Wrap(slice * freq) / 1000 {
        var millis;
        regs', millis := StartNextProcess(regs);
        slice := millis;
        ticks := 0;
      }
    }
  }
}
