/**
  The page tables of a history lie in the same physical memory as its heaps.
  What the allocator writes, what the heaps write and what their owners write
  keep that memory telling which page of which directory is in which frame.
 */
module OneMemory {
  import opened Words
  import opened PageTables
  import opened PagingRuns
  import opened PhysicalMemory
  import opened HeapIsolation
  import Paging

  /** The tables in physical memory are those of the abstract state; clean kernel memory stays clean. */
  ghost predicate Tables(w: World, clean: bool) {
    |w.ram| == TWO32 && Serves(KernelAt(w), w.space, clean)
  }

  lemma MoveKeepsTables(w: World, op: Op, w': World, clean: bool)
    requires Tables(w, clean) && KernelMove(w, op, w')
    ensures Tables(w', clean)
  {
    StepServes(KernelAt(w), op, KernelAt(w'), w.space, clean);
  }

  /** Writes that leave the kernel's structures alone keep every translation. */
  lemma SameKernelKeepsTables(w: World, w': World, clean: bool)
    requires Tables(w, clean) && SameKernel(w, w') && w'.space == w.space
    ensures Tables(w', clean)
  {
    StructuresKept(WordsOf(w.ram), WordsOf(w'.ram), w.layout, w.place, w.space);
  }

  lemma {:induction false} GrewKeepsTables(ws: seq<World>, d: nat, v: nat, frames: seq<nat>, n: nat, clean: bool)
    requires Grew(ws, d, v, frames) && n <= |frames| && Tables(ws[0], clean)
    ensures Tables(ws[n], clean)
  {
    if n > 0 {
      GrewKeepsTables(ws, d, v, frames, n - 1, clean);
      MovedKeepsTables(ws, d, v, frames, n - 1, clean);
    }
  }

  lemma MovedKeepsTables(ws: seq<World>, d: nat, v: nat, frames: seq<nat>, j: nat, clean: bool)
    requires Grew(ws, d, v, frames) && j < |frames| && Tables(ws[j], clean)
    ensures Tables(ws[j + 1], clean)
  {
    assert Moved(ws, d, v, frames, j);
    MoveKeepsTables(ws[j], GrowthOp(ws[j].space, d, v + j, frames[j]), ws[j + 1], clean);
  }

  /** The chain of allocations leads to the pages of the abstract state. */
  lemma {:induction false} GrewSpace(ws: seq<World>, d: nat, v: nat, frames: seq<nat>, n: nat)
    requires Grew(ws, d, v, frames) && n <= |frames|
    ensures ws[n].space == AllocAll(ws[0].space, d, v, frames[..n])
  {
    if n > 0 {
      GrewSpace(ws, d, v, frames, n - 1);
      assert ws[n].space == Step(ws[n - 1].space, GrowthOp(ws[n - 1].space, d, v + (n - 1), frames[n - 1])) by {
        assert Moved(ws, d, v, frames, n - 1);
      }
      AllocAllLast(ws[0].space, d, v, frames[..n]);
      assert frames[..n][..n - 1] == frames[..n - 1];
    }
  }

  lemma {:induction false} AllocAllLast(s: Space, d: nat, v: nat, frames: seq<nat>)
    requires frames != []
    ensures var n := |frames| - 1;
            AllocAll(s, d, v, frames) == Step(AllocAll(s, d, v, frames[..n]), GrowthOp(s, d, v + n, frames[n]))
    decreases |frames|
  {
    var n := |frames| - 1;
    if n > 0 {
      var s1 := Step(s, GrowthOp(s, d, v, frames[0]));
      AllocAllLast(s1, d, v + 1, frames[1..]);
      assert frames[1..][..n - 1] == frames[..n][1..];
    } else {
      assert frames[1..] == [];
    }
  }

  /** A page a heap grows into is writeable, and open to users unless it is the kernel's heap, as its table is. */
  lemma GrowthRights(w: World, d: nat, v: nat, f: nat, w': World, clean: bool)
    requires Tables(w, clean) && KernelMove(w, GrowthOp(w.space, d, v, f), w')
    ensures Paging.AccessGiven(WordsOf(w.ram), WordsOf(w'.ram), d, v, true, d == w.layout.kernel)
  {
    StepGivesRights(KernelAt(w), GrowthOp(w.space, d, v, f), KernelAt(w'));
  }

  lemma HeapKeepsTables(w: World, d: nat, op: HeapOp, frames: seq<nat>, w': World, clean: bool)
    requires Inv(w) && Tables(w, clean) && HeapStep(w, d, op, frames, w')
    ensures Tables(w', clean)
  {
    GrowthMaps(w, d, op, frames);
    WritesKeepTables(w, d, op, frames, w.heaps[d], After(w.heaps[d], op), Grown(w, d, frames), w', clean);
  }

  lemma WritesKeepTables(w: World, d: nat, op: HeapOp, frames: seq<nat>, h: ProcHeap, h': ProcHeap,
                         s: Space, w': World, clean: bool)
    requires |w.ram| == TWO32 && Isolated(s) && HeapEnd(h') < TWO32 && Mapped(s, d, h.base, HeapEnd(h'))
    requires Tables(w, clean) && HeapWrites(w, d, op, frames, h, h', s, w')
    requires s == AllocAll(w.space, d, HeapEnd(h) / PAGE_SIZE, frames)
    ensures Tables(w', clean)
  {
    var v := HeapEnd(h) / PAGE_SIZE;
    var ws: seq<World> :| Grew(ws, d, v, frames) && ws[0] == w && SameKernel(ws[|frames|], w');
    GrewSpace(ws, d, v, frames, |frames|);
    assert frames[..|frames|] == frames;
    GrewKeepsTables(ws, d, v, frames, |frames|, clean);
    SameKernelKeepsTables(ws[|frames|], w', clean);
  }

  lemma NextKeepsTables(w: World, act: Act, w': World, clean: bool)
    requires Inv(w) && Tables(w, clean) && Next(w, act, w')
    ensures Tables(w', clean)
  {
    match act
    case Paged(change) => MoveKeepsTables(w, change, w', clean);
    case Start(d, base, size) => SameKernelKeepsTables(w, w', clean);
    case Heap(d, op, frames) => HeapKeepsTables(w, d, op, frames, w', clean);
  }

  lemma InitTables(w: World)
    requires AfterInit(w)
    ensures Tables(w, Paging.FreshZero(WordsOf(w.ram), w.place))
  {
    InitServes(KernelAt(w));
  }

  /** In every history the page tables in physical memory are those of the state, whatever the heaps write to it. */
  lemma AlwaysTables(acts: seq<Act>, worlds: seq<World>, t: nat)
    requires IsHistory(acts, worlds) && t < |worlds|
    ensures Tables(worlds[t], Paging.FreshZero(WordsOf(worlds[0].ram), worlds[0].place))
  {
    var clean := Paging.FreshZero(WordsOf(worlds[0].ram), worlds[0].place);
    InitTables(worlds[0]);
    forall i | 0 <= i < |acts| ensures StepKept(worlds, i, clean) {
      HistoryKeepsTables(acts, worlds, i, clean);
    }
    TablesKeptTo(worlds, t, clean);
  }

  ghost predicate StepKept(worlds: seq<World>, i: nat, clean: bool)
    requires i + 1 < |worlds|
  {
    Tables(worlds[i], clean) ==> Tables(worlds[i + 1], clean)
  }

  lemma {:induction false} TablesKeptTo(worlds: seq<World>, t: nat, clean: bool)
    requires t < |worlds| && Tables(worlds[0], clean)
    requires forall i :: 0 <= i < |worlds| - 1 ==> StepKept(worlds, i, clean)
    ensures Tables(worlds[t], clean)
  {
    if t > 0 {
      TablesKeptTo(worlds, t - 1, clean);
      assert StepKept(worlds, t - 1, clean);
    }
  }

  lemma HistoryKeepsTables(acts: seq<Act>, worlds: seq<World>, t: nat, clean: bool)
    requires IsHistory(acts, worlds) && t < |acts|
    ensures StepKept(worlds, t, clean)
  {
    AlwaysSound(acts, worlds, t);
    assert Follows(worlds[t], acts[t], worlds[t + 1]);
    if Tables(worlds[t], clean) {
      NextKeepsTables(worlds[t], acts[t], worlds[t + 1], clean);
    }
  }

  /**
    In every history the tables in memory translate each address of each heap,
    and to the physical byte the process sees there.
   */
  lemma HeapTranslated(acts: seq<Act>, worlds: seq<World>, t: nat, d: nat, a: nat)
    requires IsHistory(acts, worlds) && t < |worlds| && InHeap(worlds[t], d, a)
    ensures var w := worlds[t];
            && |w.ram| == TWO32 && a < TWO32 && IsDir(w.layout, d) && d < PAGES && Isolated(w.space)
            && Present(Lookup(WordsOf(w.ram), d, a / PAGE_SIZE))
            && Translate(WordsOf(w.ram), d, a) < TWO32
            && w.ram[Translate(WordsOf(w.ram), d, a)] == View(w.space, d, w.ram)[a]
  {
    var w := worlds[t];
    AlwaysSound(acts, worlds, t);
    AlwaysTables(acts, worlds, t);
    assert Sound(w.space, w.ram, d, w.heaps[d]);
    InHeapAllocated(w, d, a);
    TranslateIsPhys(WordsOf(w.ram), w.layout, w.space, d, a);
  }

  /** Memory that represents the state translates every allocated address as the state says. */
  lemma TranslateIsPhys(m: Memory, l: Layout, s: Space, d: nat, a: nat)
    requires Represents(m, l, s) && Isolated(s) && a < TWO32 && Allocated(s, d, a)
    ensures IsDir(l, d) && Present(Lookup(m, d, a / PAGE_SIZE))
    ensures Translate(m, d, a) == Phys(s, d, a)
  {
  }

  /** The directory the code of an act runs under. */
  function Under(act: Act): nat {
    match act
    case Paged(change) => change.c
    case Start(d, _, _) => d
    case Heap(d, _, _) => d
  }

  /** In every history each act finds the kernel's memory where its code takes it to be. */
  lemma ActsSeeKernel(acts: seq<Act>, worlds: seq<World>, t: nat)
    requires IsHistory(acts, worlds) && t < |acts|
    ensures |worlds[t].ram| == TWO32 && SeesKernel(WordsOf(worlds[t].ram), Under(acts[t]))
  {
    var w := worlds[t];
    AlwaysSound(acts, worlds, t);
    AlwaysTables(acts, worlds, t);
    assert Follows(w, acts[t], worlds[t + 1]);
    HeapDirs(w, acts[t], worlds[t + 1]);
    SeesKernelExactly(WordsOf(w.ram), w.layout, w.space, Under(acts[t]));
  }

  lemma HeapDirs(w: World, act: Act, w': World)
    requires Inv(w) && Next(w, act, w')
    ensures Under(act) in w.space.dirs && KernelIntact(w.space, Under(act))
  {
    if act.Heap? {
      assert Sound(w.space, w.ram, act.d, w.heaps[act.d]);
    }
  }
}
