/**
  All heaps of the system together, over the page allocator and one physical
  memory that holds the heaps and the page tables alike. A run creates
  directories, maps pages, starts heaps and performs heap operations; a `malloc`
  that grows its heap takes each page from `alloc_page`.
 */
module HeapIsolation {
  import opened Words
  import opened Blocks
  import opened BlockMemory
  import opened PageTables
  import opened PagingRuns
  import opened PhysicalMemory
  import Paging
  import Policy
  import HeapRuns
  import ProcessHeap

  /** The heap of one process: where it starts, how large it was made, and what it has come to. */
  datatype ProcHeap = ProcHeap(base: nat, size: nat, state: HeapRuns.State)

  /**
    `ram` is physical memory, byte by byte; `heaps` is keyed by page directory.
    `layout` and `place` tell which of the kernel's pages are its structures and
    where its bump allocator stands.
   */
  datatype World = World(space: Space, heaps: map<nat, ProcHeap>, ram: seq<byte>, layout: Layout, place: nat)

  type HeapOp = HeapRuns.Op

  datatype Act =
    | Paged(change: Op)
    | Start(d: nat, base: nat, size: nat)
    | Heap(d: nat, op: HeapRuns.Op, frames: seq<nat>)

  function HeapEnd(h: ProcHeap): nat { h.base + Total(h.state.blocks) }

  // ----- Virtual addresses

  ghost predicate Allocated(s: Space, d: nat, a: nat) { (d, a / PAGE_SIZE) in s.owned }

  /** The physical address behind virtual address `a` of directory `d`. */
  ghost function Phys(s: Space, d: nat, a: nat): (p: nat)
    requires Isolated(s) && Allocated(s, d, a)
    ensures KERNEL_BYTES <= p < TWO32
  {
    s.owned[(d, a / PAGE_SIZE)] * PAGE_SIZE + a % PAGE_SIZE
  }

  /** Different bytes of allocated pages, of whichever processes, are different physical bytes outside the kernel's. */
  lemma BytesApart(s: Space, d: nat, a: nat, d': nat, a': nat)
    requires Isolated(s) && Allocated(s, d, a) && Allocated(s, d', a')
    ensures Phys(s, d, a) == Phys(s, d', a') <==> d == d' && a == a'
  {
    var v, v' := a / PAGE_SIZE, a' / PAGE_SIZE;
    DifferentFrames(s.owned[(d, v)], a % PAGE_SIZE, s.owned[(d', v')], a' % PAGE_SIZE);
  }

  lemma DifferentFrames(f: nat, x: nat, g: nat, y: nat)
    requires x < PAGE_SIZE && y < PAGE_SIZE
    ensures f * PAGE_SIZE + x == g * PAGE_SIZE + y <==> f == g && x == y
  {
  }

  ghost function ByteAt(s: Space, d: nat, ram: seq<byte>, a: nat): byte
    requires Isolated(s) && |ram| == TWO32
  {
    if Allocated(s, d, a) then ram[Phys(s, d, a)] else 0
  }

  /** Memory as the process with directory `d` sees it, as far as `alloc_page` gave it pages. */
  ghost function View(s: Space, d: nat, ram: seq<byte>): (vm: seq<byte>)
    requires Isolated(s) && |ram| == TWO32
    ensures |vm| == TWO32 && forall a :: 0 <= a < TWO32 ==> vm[a] == ByteAt(s, d, ram, a)
  {
    seq(TWO32, a requires 0 <= a < TWO32 => ByteAt(s, d, ram, a))
  }

  /** Every byte of `[lo, hi)` lies in a page `alloc_page` mapped for `d`. */
  ghost predicate Mapped(s: Space, d: nat, lo: nat, hi: nat) {
    forall a: nat :: lo <= a < hi ==> Allocated(s, d, a)
  }

  /** Physical byte `p` is what directory `d` sees somewhere in `[lo, hi)`. */
  ghost predicate Behind(s: Space, d: nat, lo: nat, hi: nat, p: nat)
    requires Isolated(s) && Mapped(s, d, lo, hi)
  {
    exists a: nat :: lo <= a < hi && Phys(s, d, a) == p
  }

  /** `ram'` is `ram` after the process with directory `d` turned `[lo, hi)` of what it sees into that of `vm`. */
  ghost predicate WrittenThrough(s: Space, d: nat, lo: nat, hi: nat, ram: seq<byte>, vm: seq<byte>, ram': seq<byte>)
    requires Isolated(s) && Mapped(s, d, lo, hi) && hi <= TWO32 == |ram| == |vm|
  {
    && |ram'| == TWO32
    && (forall a: nat :: lo <= a < hi ==> ram'[Phys(s, d, a)] == vm[a])
    && (forall p: nat :: KERNEL_BYTES <= p < TWO32 && !Behind(s, d, lo, hi, p) ==> ram'[p] == ram[p])
  }

  // ----- Steps

  /** What `alloc_new_page` asks for: a writeable page, for the kernel's own directory a kernel page. */
  function GrowthOp(s: Space, d: nat, v: nat, f: nat): Op {
    Alloc(d, d, v, f, true, d == s.kernel)
  }

  /** `frames` are allocated, one after the other, to the pages of `d` from `v` on, by code that runs under `d`. */
  ghost predicate AllEnabled(s: Space, d: nat, v: nat, frames: seq<nat>)
    decreases |frames|
  {
    frames == [] ||
    var op := GrowthOp(s, d, v, frames[0]);
    Enabled(s, op) && AllEnabled(Step(s, op), d, v + 1, frames[1..])
  }

  function AllocAll(s: Space, d: nat, v: nat, frames: seq<nat>): Space
    decreases |frames|
  {
    if frames == [] then s else AllocAll(Step(s, GrowthOp(s, d, v, frames[0])), d, v + 1, frames[1..])
  }

  /** How many pages an operation asks `alloc_page` for. */
  function Pages(h: ProcHeap, op: HeapRuns.Op): nat {
    match op
    case Malloc(n, align) => Policy.Rounds(h.base, h.state.blocks, n, align)
    case _ => 0
  }

  ghost predicate Next(w: World, act: Act, w': World)
    requires Inv(w)
  {
    match act
    case Paged(change) => PageStep(w, change, w')
    case Start(d, base, size) => StartStep(w, d, base, size, w')
    case Heap(d, op, frames) => HeapStep(w, d, op, frames, w')
  }

  /** The allocator's view of the same memory. */
  ghost function KernelAt(w: World): Kernel
    requires |w.ram| == TWO32
  {
    Kernel(WordsOf(w.ram), w.layout, w.place)
  }

  /** The page allocator has acted. */
  ghost predicate KernelMove(w: World, op: Op, w': World) {
    && |w.ram| == |w'.ram| == TWO32 && Enabled(w.space, op)
    && PagingStep(KernelAt(w), op, KernelAt(w')) && w'.place <= Paging.KERNEL_MEM_END
    && w'.space == Step(w.space, op) && w'.heaps == w.heaps
  }

  /** A new directory, or a page mapped for some other purpose than a heap. */
  ghost predicate PageStep(w: World, op: Op, w': World) {
    && KernelMove(w, op, w')
    && (op.Alloc? && op.d in w.heaps ==>
          var h := w.heaps[op.d]; !(h.base < (op.v + 1) * PAGE_SIZE && op.v * PAGE_SIZE < HeapEnd(h)))
  }

  /** From `ws[0]` through `ws` the allocator maps `frames` to the pages of `d` from `v` on. */
  ghost predicate Grew(ws: seq<World>, d: nat, v: nat, frames: seq<nat>) {
    |ws| == |frames| + 1 && |ws[0].ram| == TWO32 && forall j: nat :: j < |frames| ==> Moved(ws, d, v, frames, j)
  }

  ghost predicate Moved(ws: seq<World>, d: nat, v: nat, frames: seq<nat>, j: nat)
    requires j < |frames| < |ws|
  {
    KernelMove(ws[j], GrowthOp(ws[j].space, d, v + j, frames[j]), ws[j + 1])
  }

  /** The kernel's structures are those of `w`; its other data, such as the process's record, may have changed. */
  ghost predicate SameKernel(w: World, w': World) {
    && |w.ram| == |w'.ram| == TWO32 && w'.layout == w.layout && w'.place == w.place
    && StructuresSame(WordsOf(w.ram), WordsOf(w'.ram), w.layout, w.place)
  }

  /** `initialise_heap` on pages mapped before; as process.h asks, the heap ends on a page end. */
  ghost predicate StartStep(w: World, d: nat, base: nat, size: nat, w': World)
    requires |w.ram| == TWO32 && Isolated(w.space)
  {
    && d in w.space.dirs && d !in w.heaps && KernelIntact(w.space, d)
    && HEADER <= size && base + size < TWO32 && (base + size) % PAGE_SIZE == 0
    && Mapped(w.space, d, base, base + size)
    && w'.space == w.space && w'.heaps == w.heaps[d := ProcHeap(base, size, HeapRuns.Initial(size))]
    && SameKernel(w, w')
    && exists vm: seq<byte> :: Started(w.space, d, base, size, w.ram, vm, w'.ram)
  }

  /** The process of `d` has written the first header of its heap. */
  ghost predicate Started(s: Space, d: nat, base: nat, size: nat, ram: seq<byte>, vm: seq<byte>, ram': seq<byte>)
    requires Isolated(s) && HEADER <= size && base + size < TWO32 == |ram| && Mapped(s, d, base, base + size)
  {
    && AgreeOutside(View(s, d, ram), vm, base, base + HEADER)
    && HeapRuns.Pictures(base, HeapRuns.Initial(size), vm)
    && WrittenThrough(s, d, base, base + size, ram, vm, ram')
  }

  /**
    The pages a heap operation needs are allocated at the heap's end, which
    changes nothing beyond the kernel's memory; then it does what `Heap` does.
   */
  ghost predicate HeapStep(w: World, d: nat, op: HeapRuns.Op, frames: seq<nat>, w': World)
    requires Inv(w)
  {
    && HeapEnabled(w, d, op, frames)
    && (GrowthMaps(w, d, op, frames);
        HeapWrites(w, d, op, frames, w.heaps[d], After(w.heaps[d], op), Grown(w, d, frames), w'))
  }

  /** With its pages in `s`, the heap of `d` has gone from `h` to `h'`. */
  ghost predicate HeapWrites(w: World, d: nat, op: HeapRuns.Op, frames: seq<nat>, h: ProcHeap, h': ProcHeap,
                             s: Space, w': World)
    requires |w.ram| == TWO32 && Isolated(s) && HeapEnd(h') < TWO32 && Mapped(s, d, h.base, HeapEnd(h'))
  {
    && w'.space == s && w'.heaps == w.heaps[d := h']
    && (exists vm: seq<byte> ::
          && HeapRuns.Performed(h.base, h.state, op, h'.state, View(s, d, w.ram), vm)
          && WrittenThrough(s, d, h.base, HeapEnd(h'), w.ram, vm, w'.ram))
    && (exists ws: seq<World> ::
          Grew(ws, d, HeapEnd(h) / PAGE_SIZE, frames) && ws[0] == w && SameKernel(ws[|frames|], w'))
  }

  ghost predicate HeapEnabled(w: World, d: nat, op: HeapRuns.Op, frames: seq<nat>)
    requires Inv(w)
  {
    && d in w.heaps && KernelIntact(w.space, d)
    && var h := w.heaps[d];
    && HeapRuns.Legal(h.base, h.state, op)
    && HeapEnd(After(h, op)) < TWO32
    && |frames| == Pages(h, op)
    && AllEnabled(w.space, d, HeapEnd(h) / PAGE_SIZE, frames)
  }

  ghost function After(h: ProcHeap, op: HeapRuns.Op): ProcHeap
    requires NoAdjacentFree(h.state.blocks) && HeapRuns.Legal(h.base, h.state, op)
  {
    h.(state := HeapRuns.Step(h.base, h.state, op))
  }

  ghost function Grown(w: World, d: nat, frames: seq<nat>): Space
    requires d in w.heaps
  {
    AllocAll(w.space, d, HeapEnd(w.heaps[d]) / PAGE_SIZE, frames)
  }

  // ----- Growth

  /** `s'` has pages `lo` to `hi - 1` of directory `d` as well, and every other page as `s` has it. */
  ghost predicate Gained(s: Space, s': Space, d: nat, lo: nat, hi: nat) {
    && s'.dirs == s.dirs
    && (forall v: nat :: lo <= v < hi ==> (d, v) in s'.owned)
    && (forall a :: a in s.owned && !(a.0 == d && lo <= a.1 < hi) ==> a in s'.owned && s'.owned[a] == s.owned[a])
  }

  lemma {:induction false} AllocAllGains(s: Space, d: nat, v: nat, frames: seq<nat>)
    requires Isolated(s) && d in s.dirs && AllEnabled(s, d, v, frames)
    ensures Isolated(AllocAll(s, d, v, frames))
    ensures Gained(s, AllocAll(s, d, v, frames), d, v, v + |frames|)
    decreases |frames|
  {
    if frames != [] {
      var s' := Step(s, GrowthOp(s, d, v, frames[0]));
      StepKeepsIsolated(s, GrowthOp(s, d, v, frames[0]));
      AllocAllGains(s', d, v + 1, frames[1..]);
    }
  }

  /** A heap operation changes the size by the pages it asked for. */
  lemma GrowsByPages(h: ProcHeap, op: HeapRuns.Op)
    requires NoAdjacentFree(h.state.blocks) && HeapRuns.Legal(h.base, h.state, op)
    ensures HeapEnd(After(h, op)) == HeapEnd(h) + Pages(h, op) * PAGE_SIZE
  {
    match op
    case Malloc(n, align) => HeapRuns.MallocCorrect(h.base, h.state.blocks, n, align);
    case Free(ptr) =>
      var k: nat :| Policy.LiveAt(h.base, h.state.blocks, ptr, k)
                    && HeapRuns.Step(h.base, h.state, op).blocks == Policy.Free(h.state.blocks, k);
      Policy.FreeCorrect(h.base, h.state.blocks, k);
    case Write(_, _) =>
  }

  /** After its pages have been allocated, the whole grown heap is mapped. */
  lemma GrowthMaps(w: World, d: nat, op: HeapRuns.Op, frames: seq<nat>)
    requires Inv(w) && HeapEnabled(w, d, op, frames)
    ensures Isolated(Grown(w, d, frames))
    ensures Mapped(Grown(w, d, frames), d, w.heaps[d].base, HeapEnd(After(w.heaps[d], op)))
    ensures Gained(w.space, Grown(w, d, frames), d, HeapEnd(w.heaps[d]) / PAGE_SIZE,
                   HeapEnd(After(w.heaps[d], op)) / PAGE_SIZE)
  {
    var h := w.heaps[d];
    assert Sound(w.space, w.ram, d, w.heaps[d]);
    var v := HeapEnd(h) / PAGE_SIZE;
    AllocAllGains(w.space, d, v, frames);
    GrowsByPages(w.heaps[d], op);
    GrownTo(w.space, Grown(w, d, frames), d, h.base, HeapEnd(h), HeapEnd(After(h, op)), |frames|);
  }

  lemma GrownTo(s: Space, s': Space, d: nat, lo: nat, end: nat, end': nat, n: nat)
    requires Mapped(s, d, lo, end) && end % PAGE_SIZE == 0 && end' == end + n * PAGE_SIZE
    requires Gained(s, s', d, end / PAGE_SIZE, end / PAGE_SIZE + n)
    ensures Mapped(s', d, lo, end') && Gained(s, s', d, end / PAGE_SIZE, end' / PAGE_SIZE)
  {
    assert end' / PAGE_SIZE == end / PAGE_SIZE + n;
    MappedGrows(s, s', d, lo, end, end / PAGE_SIZE, n);
  }

  lemma MappedGrows(s: Space, s': Space, d: nat, lo: nat, end: nat, v: nat, n: nat)
    requires Mapped(s, d, lo, end) && end == v * PAGE_SIZE
    requires Gained(s, s', d, v, v + n)
    ensures Mapped(s', d, lo, end + n * PAGE_SIZE)
  {
    forall a: nat | lo <= a < end + n * PAGE_SIZE ensures Allocated(s', d, a) {
      if a < end {
        assert Allocated(s, d, a);
      } else {
        assert v <= a / PAGE_SIZE < v + n;
      }
    }
  }

  /** The heap `[base, end)` of `d` has stayed where it was and goes on to `end'`. */
  ghost predicate GrownInPlace(s: Space, s': Space, d: nat, base: nat, end: nat, end': nat)
    requires Isolated(s) && Mapped(s, d, base, end)
  {
    && Isolated(s') && Mapped(s', d, base, end')
    && forall a: nat :: base <= a < end ==> Allocated(s', d, a) && Phys(s', d, a) == Phys(s, d, a)
  }

  /**
    Growing page by page keeps every byte of a heap where it is and maps all of
    what is added if and only if no page is needed or the heap ends on a page
    end. Otherwise the page that holds the last byte gets another frame.
   */
  lemma GrowthInPlaceExactly(s: Space, d: nat, base: nat, end: nat, frames: seq<nat>)
    requires Isolated(s) && d in s.dirs && base < end && Mapped(s, d, base, end)
    requires AllEnabled(s, d, end / PAGE_SIZE, frames)
    ensures GrownInPlace(s, AllocAll(s, d, end / PAGE_SIZE, frames), d, base, end, end + |frames| * PAGE_SIZE) <==>
            frames == [] || end % PAGE_SIZE == 0
  {
    var v, s' := end / PAGE_SIZE, AllocAll(s, d, end / PAGE_SIZE, frames);
    AllocAllGains(s, d, v, frames);
    if frames != [] && end % PAGE_SIZE != 0 {
      assert Allocated(s, d, end - 1) && (end - 1) / PAGE_SIZE == v;
      FirstFrame(s, d, v, frames);
      DifferentFrames(s.owned[(d, v)], (end - 1) % PAGE_SIZE, frames[0], (end - 1) % PAGE_SIZE);
      assert Phys(s', d, end - 1) != Phys(s, d, end - 1);
    } else if frames != [] {
      MappedGrows(s, s', d, base, end, v, |frames|);
      forall a: nat | base <= a < end ensures Allocated(s', d, a) && Phys(s', d, a) == Phys(s, d, a) {
        assert Allocated(s, d, a);
        PageBelow(a, end);
      }
    }
  }

  lemma FirstFrame(s: Space, d: nat, v: nat, frames: seq<nat>)
    requires Isolated(s) && d in s.dirs && frames != [] && AllEnabled(s, d, v, frames)
    ensures var s' := AllocAll(s, d, v, frames);
            (d, v) in s'.owned && s'.owned[(d, v)] == frames[0] && frames[0] !in s.used
  {
    var s1 := Step(s, GrowthOp(s, d, v, frames[0]));
    StepKeepsIsolated(s, GrowthOp(s, d, v, frames[0]));
    AllocAllGains(s1, d, v + 1, frames[1..]);
  }

  // ----- The invariant

  /** The heap of `d` is mapped to the last byte, and in physical memory its headers tile it as its state says. */
  ghost predicate Sound(s: Space, ram: seq<byte>, d: nat, h: ProcHeap)
    requires |ram| == TWO32 && Isolated(s)
  {
    && d in s.dirs
    && HEADER <= h.size && HeapRuns.Inv(h.base, h.size, h.state)
    && HeapEnd(h) < TWO32 && HeapEnd(h) % PAGE_SIZE == 0
    && Mapped(s, d, h.base, HeapEnd(h))
    && HeapRuns.Pictures(h.base, h.state, View(s, d, ram))
  }

  ghost predicate Inv(w: World) {
    && |w.ram| == TWO32 && Isolated(w.space)
    && forall d :: d in w.heaps ==> Sound(w.space, w.ram, d, w.heaps[d])
  }

  // ----- What one step leaves alone

  /** Byte `a` of `d` lies where it did and holds what it did. */
  ghost predicate KeptByte(w: World, w': World, d: nat, a: nat) {
    && |w.ram| == |w'.ram| == TWO32 && Isolated(w.space) && Isolated(w'.space)
    && Allocated(w.space, d, a) && Allocated(w'.space, d, a)
    && Phys(w'.space, d, a) == Phys(w.space, d, a)
    && w'.ram[Phys(w'.space, d, a)] == w.ram[Phys(w.space, d, a)]
  }

  ghost predicate Kept(w: World, w': World, d: nat, lo: nat, hi: nat) {
    forall a: nat :: lo <= a < hi ==> KeptByte(w, w', d, a)
  }

  ghost predicate SameHeap(w: World, w': World, d: nat) {
    d in w.heaps ==> d in w'.heaps && w'.heaps[d] == w.heaps[d]
  }

  lemma ReplacedHeap(w: World, w': World, d: nat, h: ProcHeap, d': nat)
    requires w'.heaps == w.heaps[d := h] && d' != d
    ensures SameHeap(w, w', d')
  {
  }

  /** A heap that looks the same is tiled the same. */
  lemma SamePicture(base: nat, s: HeapRuns.State, vm: seq<byte>, vm': seq<byte>)
    requires HeapRuns.Pictures(base, s, vm) && Agree(vm, vm', base, base + Total(s.blocks))
    ensures HeapRuns.Pictures(base, s, vm')
  {
    TiledFrame(vm, vm', base, s.blocks);
  }

  lemma KeptView(w: World, w': World, d: nat, lo: nat, hi: nat)
    requires |w.ram| == |w'.ram| == TWO32 && Isolated(w.space) && Isolated(w'.space)
    requires Kept(w, w', d, lo, hi)
    ensures Agree(View(w.space, d, w.ram), View(w'.space, d, w'.ram), lo, hi)
    ensures Mapped(w'.space, d, lo, hi)
  {
    forall a: nat | lo <= a < hi
      ensures ByteAt(w.space, d, w.ram, a) == ByteAt(w'.space, d, w'.ram, a) && Allocated(w'.space, d, a)
    {
      assert KeptByte(w, w', d, a);
    }
  }

  /** A heap whose bytes are kept is as sound as before. */
  lemma KeptSound(w: World, w': World, d: nat, h: ProcHeap)
    requires |w.ram| == |w'.ram| == TWO32 && Isolated(w.space) && Isolated(w'.space)
    requires Sound(w.space, w.ram, d, h) && d in w'.space.dirs
    requires Kept(w, w', d, h.base, HeapEnd(h))
    ensures Sound(w'.space, w'.ram, d, h)
  {
    KeptView(w, w', d, h.base, HeapEnd(h));
    SamePicture(h.base, h.state, View(w.space, d, w.ram), View(w'.space, d, w'.ram));
  }

  lemma SamePage(w: World, w': World, d: nat, a: nat)
    requires |w.ram| == |w'.ram| == TWO32 && Isolated(w.space) && Isolated(w'.space)
    requires Allocated(w.space, d, a) && Allocated(w'.space, d, a)
    requires w'.space.owned[(d, a / PAGE_SIZE)] == w.space.owned[(d, a / PAGE_SIZE)]
    requires w'.ram[Phys(w'.space, d, a)] == w.ram[Phys(w'.space, d, a)]
    ensures KeptByte(w, w', d, a)
  {
  }

  lemma MoveKeepsUser(w: World, op: Op, w': World)
    requires KernelMove(w, op, w')
    ensures KernelOnly(w.ram, w'.ram)
  {
    StepKeepsUser(KernelAt(w), op, KernelAt(w'));
    UserBytes(w.ram, w'.ram);
  }

  lemma PageKeeps(w: World, op: Op, w': World, d: nat, h: ProcHeap)
    requires |w.ram| == TWO32 && Isolated(w.space) && PageStep(w, op, w') && Isolated(w'.space)
    requires d in w.heaps && h == w.heaps[d] && Mapped(w.space, d, h.base, HeapEnd(h))
    ensures SameHeap(w, w', d) && Kept(w, w', d, h.base, HeapEnd(h))
  {
    MoveKeepsUser(w, op, w');
    forall a: nat | h.base <= a < HeapEnd(h) ensures KeptByte(w, w', d, a) {
      assert Allocated(w.space, d, a);
      if op.Alloc? && op.d == d {
        OutsidePage(h.base, HeapEnd(h), op.v, a);
      }
      SamePage(w, w', d, a);
    }
  }

  lemma OutsidePage(lo: nat, hi: nat, v: nat, a: nat)
    requires !(lo < (v + 1) * PAGE_SIZE && v * PAGE_SIZE < hi) && lo <= a < hi
    ensures a / PAGE_SIZE != v
  {
  }

  /** What the process of `d` writes through its own pages reaches no other allocated byte. */
  lemma WritesStayIn(s: Space, d: nat, lo: nat, hi: nat, ram: seq<byte>, vm: seq<byte>, ram': seq<byte>,
                     d': nat, a: nat)
    requires Isolated(s) && Mapped(s, d, lo, hi) && hi <= TWO32 == |ram| == |vm|
    requires WrittenThrough(s, d, lo, hi, ram, vm, ram')
    requires Allocated(s, d', a) && !(d' == d && lo <= a < hi)
    ensures ram'[Phys(s, d', a)] == ram[Phys(s, d', a)]
  {
    forall x: nat | lo <= x < hi ensures Phys(s, d, x) != Phys(s, d', a) {
      assert Allocated(s, d, x);
      BytesApart(s, d, x, d', a);
    }
  }

  /** A process that writes to its own pages, perhaps after gaining some, leaves all others' bytes alone. */
  lemma ForeignKept(w: World, w': World, d: nat, v: nat, v': nat, lo: nat, hi: nat, vm: seq<byte>,
                    d': nat, lo': nat, hi': nat)
    requires |w.ram| == TWO32 && Isolated(w.space) && Isolated(w'.space) && Gained(w.space, w'.space, d, v, v')
    requires Mapped(w'.space, d, lo, hi) && hi <= TWO32 == |vm|
    requires WrittenThrough(w'.space, d, lo, hi, w.ram, vm, w'.ram)
    requires d' != d && Mapped(w.space, d', lo', hi')
    ensures Kept(w, w', d', lo', hi')
  {
    forall a: nat | lo' <= a < hi' ensures KeptByte(w, w', d', a) {
      assert Allocated(w.space, d', a) && Allocated(w'.space, d', a);
      WritesStayIn(w'.space, d, lo, hi, w.ram, vm, w'.ram, d', a);
      SamePage(w, w', d', a);
    }
  }

  lemma StartKeeps(w: World, d: nat, base: nat, size: nat, w': World, d': nat, lo: nat, hi: nat)
    requires |w.ram| == TWO32 && Isolated(w.space) && StartStep(w, d, base, size, w')
    requires d' != d && Mapped(w.space, d', lo, hi)
    ensures SameHeap(w, w', d') && Kept(w, w', d', lo, hi)
  {
    ReplacedHeap(w, w', d, ProcHeap(base, size, HeapRuns.Initial(size)), d');
    var vm: seq<byte> :| Started(w.space, d, base, size, w.ram, vm, w'.ram);
    StartedKeeps(w, w', d, base, size, vm, d', lo, hi);
  }

  lemma StartedKeeps(w: World, w': World, d: nat, base: nat, size: nat, vm: seq<byte>, d': nat, lo: nat, hi: nat)
    requires |w.ram| == TWO32 && Isolated(w.space) && w'.space == w.space && d' != d && Mapped(w.space, d', lo, hi)
    requires HEADER <= size && base + size < TWO32 && Mapped(w.space, d, base, base + size)
    requires Started(w.space, d, base, size, w.ram, vm, w'.ram)
    ensures Kept(w, w', d', lo, hi)
  {
    ForeignKept(w, w', d, 0, 0, base, base + size, vm, d', lo, hi);
  }

  lemma HeapKeeps(w: World, d: nat, op: HeapRuns.Op, frames: seq<nat>, w': World, d': nat, lo: nat, hi: nat)
    requires Inv(w) && HeapStep(w, d, op, frames, w')
    requires d' != d && Mapped(w.space, d', lo, hi)
    ensures SameHeap(w, w', d') && Kept(w, w', d', lo, hi)
  {
    assert SameHeap(w, w', d') by { ReplacedHeap(w, w', d, After(w.heaps[d], op), d'); }
    GrowthMaps(w, d, op, frames);
    var h, h', s := w.heaps[d], After(w.heaps[d], op), w'.space;
    var vm: seq<byte> :|
      && HeapRuns.Performed(h.base, h.state, op, h'.state, View(s, d, w.ram), vm)
      && WrittenThrough(s, d, h.base, HeapEnd(h'), w.ram, vm, w'.ram);
    ForeignKept(w, w', d, HeapEnd(h) / PAGE_SIZE, HeapEnd(h') / PAGE_SIZE, h.base, HeapEnd(h'), vm, d', lo, hi);
  }

  // ----- Every step keeps every heap sound

  /** The directory whose heap the act is about; the kernel's own acts have none. */
  function Actor(act: Act): Option<nat> {
    match act
    case Paged(_) => None
    case Start(d, _, _) => Some(d)
    case Heap(d, _, _) => Some(d)
  }

  /** No act changes or moves a byte of the heap of any process but its own. */
  lemma OthersKept(w: World, act: Act, w': World, d: nat)
    requires Inv(w) && Next(w, act, w') && d in w.heaps && Actor(act) != Some(d)
    ensures d in w'.heaps && w'.heaps[d] == w.heaps[d]
    ensures Kept(w, w', d, w.heaps[d].base, HeapEnd(w.heaps[d]))
  {
    var h := w.heaps[d];
    assert Mapped(w.space, d, h.base, HeapEnd(h)) by { assert Sound(w.space, w.ram, d, h); }
    match act
    case Paged(change) =>
      StepKeepsIsolated(w.space, change);
      PageKeeps(w, change, w', d, h);
    case Start(d', base, size) => StartKeeps(w, d', base, size, w', d, h.base, HeapEnd(h));
    case Heap(d', op, frames) => HeapKeeps(w, d', op, frames, w', d, h.base, HeapEnd(h));
  }

  lemma SpaceStep(w: World, act: Act, w': World)
    requires Inv(w) && Next(w, act, w')
    ensures |w'.ram| == TWO32 && Isolated(w'.space) && w.space.dirs <= w'.space.dirs
  {
    match act
    case Paged(change) => StepKeepsIsolated(w.space, change);
    case Start(_, _, _) =>
    case Heap(d, op, frames) => GrowthMaps(w, d, op, frames);
  }

  /** What a process wrote through its pages is what it then sees. */
  lemma SeesAll(s: Space, d: nat, lo: nat, hi: nat, ram: seq<byte>, vm: seq<byte>, ram': seq<byte>)
    requires Isolated(s) && Mapped(s, d, lo, hi) && hi <= TWO32 == |ram| == |vm|
    requires WrittenThrough(s, d, lo, hi, ram, vm, ram')
    ensures Agree(vm, View(s, d, ram'), lo, hi)
  {
    forall a: nat | lo <= a < hi ensures vm[a] == ByteAt(s, d, ram', a) {
      assert Allocated(s, d, a);
    }
  }

  lemma SeesWrites(s: Space, d: nat, base: nat, end: nat, state: HeapRuns.State,
                   ram: seq<byte>, vm: seq<byte>, ram': seq<byte>)
    requires Isolated(s) && |ram| == TWO32 && HeapRuns.Pictures(base, state, vm)
    requires end == base + Total(state.blocks) && Mapped(s, d, base, end)
    requires WrittenThrough(s, d, base, end, ram, vm, ram')
    ensures HeapRuns.Pictures(base, state, View(s, d, ram'))
  {
    SeesAll(s, d, base, end, ram, vm, ram');
    SamePicture(base, state, vm, View(s, d, ram'));
  }

  lemma StartSound(w: World, d: nat, base: nat, size: nat, w': World)
    requires |w.ram| == TWO32 && Isolated(w.space) && StartStep(w, d, base, size, w')
    ensures Sound(w'.space, w'.ram, d, w'.heaps[d])
  {
    var vm: seq<byte> :| Started(w.space, d, base, size, w.ram, vm, w'.ram);
    StartedSound(w.space, d, base, size, w.ram, vm, w'.ram);
  }

  lemma StartedSound(s: Space, d: nat, base: nat, size: nat, ram: seq<byte>, vm: seq<byte>, ram': seq<byte>)
    requires Isolated(s) && d in s.dirs && HEADER <= size && base + size < TWO32 == |ram|
    requires Mapped(s, d, base, base + size)
    requires (base + size) % PAGE_SIZE == 0 && Started(s, d, base, size, ram, vm, ram')
    ensures Sound(s, ram', d, ProcHeap(base, size, HeapRuns.Initial(size)))
  {
    InitialInv(base, size);
    SeesWrites(s, d, base, base + size, HeapRuns.Initial(size), ram, vm, ram');
  }

  lemma InitialInv(base: nat, size: nat)
    requires HEADER <= size
    ensures HeapRuns.Inv(base, size, HeapRuns.Initial(size))
    ensures HeapEnd(ProcHeap(base, size, HeapRuns.Initial(size))) == base + size
  {
    One(base, Block(true, size - HEADER));
  }

  lemma HeapSound(w: World, d: nat, op: HeapRuns.Op, frames: seq<nat>, w': World)
    requires Inv(w) && HeapStep(w, d, op, frames, w')
    ensures |w'.ram| == TWO32 && Isolated(w'.space) && d in w'.heaps && Sound(w'.space, w'.ram, d, w'.heaps[d])
  {
    var h, h', s := w.heaps[d], After(w.heaps[d], op), w'.space;
    GrowthMaps(w, d, op, frames);
    AfterKeepsInv(h, op);
    var vm: seq<byte> :|
      && HeapRuns.Performed(h.base, h.state, op, h'.state, View(s, d, w.ram), vm)
      && WrittenThrough(s, d, h.base, HeapEnd(h'), w.ram, vm, w'.ram);
    SeesWrites(s, d, h.base, HeapEnd(h'), h'.state, w.ram, vm, w'.ram);
  }

  lemma AfterKeepsInv(h: ProcHeap, op: HeapRuns.Op)
    requires HeapRuns.Inv(h.base, h.size, h.state) && HeapRuns.Legal(h.base, h.state, op)
    requires HeapEnd(h) % PAGE_SIZE == 0
    ensures HeapEnd(After(h, op)) % PAGE_SIZE == 0
    ensures HeapRuns.Inv(h.base, h.size, After(h, op).state)
  {
    HeapRuns.StepKeepsInv(h.base, h.size, h.state, op);
    GrowsByPages(h, op);
    WholePages(HeapEnd(h), Pages(h, op));
  }

  lemma WholePages(end: nat, n: nat)
    requires end % PAGE_SIZE == 0
    ensures (end + n * PAGE_SIZE) % PAGE_SIZE == 0
  {
  }

  lemma NextKeepsInv(w: World, act: Act, w': World)
    requires Inv(w) && Next(w, act, w')
    ensures Inv(w')
  {
    SpaceStep(w, act, w');
    forall d | d in w'.heaps ensures Sound(w'.space, w'.ram, d, w'.heaps[d]) {
      if Actor(act) == Some(d) {
        match act
        case Start(_, base, size) => StartSound(w, d, base, size, w');
        case Heap(_, op, frames) => HeapSound(w, d, op, frames, w');
      } else {
        OthersKept(w, act, w', d);
        KeptSound(w, w', d, w.heaps[d]);
      }
    }
  }

  /** Before a heap operation writes, the process sees the heap it left, its new pages mapped. */
  lemma CallReady(w: World, d: nat, op: HeapRuns.Op, frames: seq<nat>)
    requires Inv(w) && HeapEnabled(w, d, op, frames)
    ensures Isolated(Grown(w, d, frames))
    ensures HeapRuns.Pictures(w.heaps[d].base, w.heaps[d].state, View(Grown(w, d, frames), d, w.ram))
  {
    var h := w.heaps[d];
    GrowthMaps(w, d, op, frames);
    var w' := w.(space := Grown(w, d, frames));
    forall a: nat | h.base <= a < HeapEnd(h) ensures KeptByte(w, w', d, a) {
      GrowthKeeps(w, d, op, frames, a);
    }
    KeptSound(w, w', d, h);
  }

  lemma GrowthKeeps(w: World, d: nat, op: HeapRuns.Op, frames: seq<nat>, a: nat)
    requires Inv(w) && HeapEnabled(w, d, op, frames) && w.heaps[d].base <= a < HeapEnd(w.heaps[d])
    ensures Isolated(Grown(w, d, frames)) && KeptByte(w, w.(space := Grown(w, d, frames)), d, a)
  {
    GrowthMaps(w, d, op, frames);
    assert Sound(w.space, w.ram, d, w.heaps[d]);
    assert Allocated(w.space, d, a);
    PageBelow(a, HeapEnd(w.heaps[d]));
    SamePage(w, w.(space := Grown(w, d, frames)), d, a);
  }

  lemma PageBelow(a: nat, end: nat)
    requires a < end && end % PAGE_SIZE == 0
    ensures a / PAGE_SIZE < end / PAGE_SIZE
  {
  }

  // ----- The code in its process's memory performs the step

  /** Physical memory after `[lo, hi)` of what `d` sees has become that of `vm`. */
  ghost function WriteBack(s: Space, d: nat, lo: nat, hi: nat, ram: seq<byte>, vm: seq<byte>): (ram': seq<byte>)
    requires Isolated(s) && Mapped(s, d, lo, hi) && hi <= TWO32 == |ram| == |vm|
    ensures |ram'| == TWO32
    ensures forall p: nat :: p < TWO32 ==> ram'[p] == WrittenByte(s, d, lo, hi, ram, vm, p)
  {
    seq(TWO32, p requires 0 <= p < TWO32 => WrittenByte(s, d, lo, hi, ram, vm, p))
  }

  ghost function WrittenByte(s: Space, d: nat, lo: nat, hi: nat, ram: seq<byte>, vm: seq<byte>, p: nat): byte
    requires Isolated(s) && Mapped(s, d, lo, hi) && hi <= TWO32 == |ram| == |vm| && p < TWO32
  {
    if Behind(s, d, lo, hi, p) then
      var a: nat :| lo <= a < hi && Phys(s, d, a) == p;
      vm[a]
    else ram[p]
  }

  lemma WritesBack(s: Space, d: nat, lo: nat, hi: nat, ram: seq<byte>, vm: seq<byte>)
    requires Isolated(s) && Mapped(s, d, lo, hi) && hi <= TWO32 == |ram| == |vm|
    ensures WrittenThrough(s, d, lo, hi, ram, vm, WriteBack(s, d, lo, hi, ram, vm))
  {
    var ram' := WriteBack(s, d, lo, hi, ram, vm);
    forall a: nat | lo <= a < hi ensures ram'[Phys(s, d, a)] == vm[a] {
      assert Allocated(s, d, a);
      var p := Phys(s, d, a);
      assert Behind(s, d, lo, hi, p);
      var b: nat :| lo <= b < hi && Phys(s, d, b) == p && WrittenByte(s, d, lo, hi, ram, vm, p) == vm[b];
      assert Allocated(s, d, b);
      BytesApart(s, d, a, d, b);
    }
  }

  lemma WroteBackKernel(s: Space, d: nat, lo: nat, hi: nat, ram: seq<byte>, vm: seq<byte>, l: Layout, place: nat)
    requires Isolated(s) && Mapped(s, d, lo, hi) && hi <= TWO32 == |ram| == |vm|
    ensures StructuresSame(WordsOf(ram), WordsOf(WriteBack(s, d, lo, hi, ram, vm)), l, place)
  {
    var ram' := WriteBack(s, d, lo, hi, ram, vm);
    forall p: nat, i: nat | p < KERNEL_PAGES && i < SLOTS
      ensures Word(WordsOf(ram'), p, i) == Word(WordsOf(ram), p, i)
    {
      forall a: nat | p * PAGE_SIZE <= a < p * PAGE_SIZE + PAGE_SIZE ensures ram'[a] == ram[a] {
        assert ram'[a] == WrittenByte(s, d, lo, hi, ram, vm, a) && !Behind(s, d, lo, hi, a);
      }
      BytesWord(ram, ram', p, i);
    }
  }

  /** `initialise_heap`, run on memory that agrees with what the process sees, is a step of the run. */
  method StartCall(ghost w: World, ghost d: nat, mem: array<byte>, base: nat, size: nat)
    returns (h: ProcessHeap.Heap, ghost w': World)
    requires |w.ram| == TWO32 && Isolated(w.space)
    requires d in w.space.dirs && d !in w.heaps && KernelIntact(w.space, d)
    requires HEADER <= size && base + size < TWO32 && (base + size) % PAGE_SIZE == 0
    requires Mapped(w.space, d, base, base + size)
    requires mem.Length == TWO32 && Agree(mem[..], View(w.space, d, w.ram), base, base + size)
    modifies mem
    ensures StartStep(w, d, base, size, w')
    ensures h.Valid() && h.mem == mem && h.base == base && h.blocks == w'.heaps[d].state.blocks && h.size == size
    ensures |w'.ram| == TWO32 && Isolated(w'.space)
    ensures Agree(mem[..], View(w'.space, d, w'.ram), base, base + size)
  {
    h := new ProcessHeap.Heap(mem, base, size);
    InitialInv(base, size);
    ghost var vm := Overlay(View(w.space, d, w.ram), mem[..], base, base + size);
    SamePicture(base, HeapRuns.Initial(size), mem[..], vm);
    w' := StartedWorld(w, d, base, size, vm);
  }

  /** `vm` with `[lo, hi)` taken from `m`. */
  function Overlay(vm: seq<byte>, m: seq<byte>, lo: nat, hi: nat): (r: seq<byte>)
    requires lo <= hi <= |vm| == |m|
    ensures |r| == |vm| && Agree(m, r, lo, hi) && AgreeOutside(vm, r, lo, hi)
  {
    vm[..lo] + m[lo..hi] + vm[hi..]
  }

  lemma StartedWorld(w: World, d: nat, base: nat, size: nat, vm: seq<byte>) returns (w': World)
    requires |w.ram| == TWO32 && Isolated(w.space)
    requires d in w.space.dirs && d !in w.heaps && KernelIntact(w.space, d)
    requires HEADER <= size && base + size < TWO32 && (base + size) % PAGE_SIZE == 0
    requires Mapped(w.space, d, base, base + size)
    requires AgreeOutside(View(w.space, d, w.ram), vm, base, base + HEADER)
    requires HeapRuns.Pictures(base, HeapRuns.Initial(size), vm)
    ensures StartStep(w, d, base, size, w') && |w'.ram| == TWO32
    ensures Agree(vm, View(w'.space, d, w'.ram), base, base + size)
  {
    var ram := StartedBytes(w.space, d, base, size, w.ram, vm, w.layout, w.place);
    w' := w.(heaps := w.heaps[d := ProcHeap(base, size, HeapRuns.Initial(size))], ram := ram);
    assert SameKernel(w, w');
  }

  lemma StartedBytes(s: Space, d: nat, base: nat, size: nat, ram: seq<byte>, vm: seq<byte>, l: Layout, place: nat)
    returns (ram': seq<byte>)
    requires |ram| == TWO32 && Isolated(s) && HEADER <= size && base + size < TWO32
    requires Mapped(s, d, base, base + size)
    requires AgreeOutside(View(s, d, ram), vm, base, base + HEADER)
    requires HeapRuns.Pictures(base, HeapRuns.Initial(size), vm)
    ensures |ram'| == TWO32 && Started(s, d, base, size, ram, vm, ram')
    ensures StructuresSame(WordsOf(ram), WordsOf(ram'), l, place)
    ensures Agree(vm, View(s, d, ram'), base, base + size)
  {
    ram' := BackAgrees(s, d, base, base + size, ram, vm, l, place);
    assert Started(s, d, base, size, ram, vm, ram');
  }

  lemma BackAgrees(s: Space, d: nat, lo: nat, hi: nat, ram: seq<byte>, vm: seq<byte>, l: Layout, place: nat)
    returns (ram': seq<byte>)
    requires Isolated(s) && Mapped(s, d, lo, hi) && hi <= TWO32 == |ram| == |vm|
    ensures WrittenThrough(s, d, lo, hi, ram, vm, ram') && |ram'| == TWO32
    ensures StructuresSame(WordsOf(ram), WordsOf(ram'), l, place)
    ensures Agree(vm, View(s, d, ram'), lo, hi)
  {
    ram' := WriteBack(s, d, lo, hi, ram, vm);
    assert WrittenThrough(s, d, lo, hi, ram, vm, ram') by { WritesBack(s, d, lo, hi, ram, vm); }
    assert Agree(vm, View(s, d, ram'), lo, hi) by { SeesAll(s, d, lo, hi, ram, vm, ram'); }
    WroteBackKernel(s, d, lo, hi, ram, vm, l, place);
  }

  /**
    `malloc`, `free` or a write is a step of the run. It needs of memory only
    that the heap is as the process sees it; `page` is what its new pages hold
    when they appear. Afterwards the heap is again as the process sees it, so
    calls follow one another.
   */
  method HeapCall(ghost w: World, ghost ws: seq<World>, ghost d: nat, op: HeapRuns.Op, ghost frames: seq<nat>,
                  h: ProcessHeap.Heap, page: seq<byte>)
    requires Inv(w) && HeapEnabled(w, d, op, frames)
    requires Grew(ws, d, HeapEnd(w.heaps[d]) / PAGE_SIZE, frames) && ws[0] == w
    requires h.mem.Length == TWO32 && h.base == w.heaps[d].base
    requires h.blocks == w.heaps[d].state.blocks && h.size == Total(h.blocks) && h.blocks != []
    requires Agree(h.mem[..], View(w.space, d, w.ram), h.base, HeapEnd(w.heaps[d]))
    requires Isolated(Grown(w, d, frames)) && HeapEnd(w.heaps[d]) <= HeapEnd(After(w.heaps[d], op))
    requires page == View(Grown(w, d, frames), d, w.ram)[HeapEnd(w.heaps[d])..HeapEnd(After(w.heaps[d], op))]
    modifies h`blocks, h`size, h.mem
    ensures h.Valid() && h.blocks == After(w.heaps[d], op).state.blocks && h.size == Total(h.blocks)
    ensures exists w': World :: CallDone(w, d, op, frames, h.mem[..], w')
  {
    ReadyToRun(w, d, op, frames);
    RunHeap(h, w.heaps[d], op, View(Grown(w, d, frames), d, w.ram), page);
    CallIsStep(w, ws, d, op, frames, h.mem[..]);
  }

  lemma CallIsStep(w: World, ws: seq<World>, d: nat, op: HeapRuns.Op, frames: seq<nat>, m: seq<byte>)
    requires Inv(w) && HeapEnabled(w, d, op, frames) && Isolated(Grown(w, d, frames)) && |m| == TWO32
    requires Grew(ws, d, HeapEnd(w.heaps[d]) / PAGE_SIZE, frames) && ws[0] == w
    requires w.heaps[d].base <= HeapEnd(After(w.heaps[d], op))
    requires HeapRuns.Performed(w.heaps[d].base, w.heaps[d].state, op, After(w.heaps[d], op).state,
                                View(Grown(w, d, frames), d, w.ram),
                                Overlay(View(Grown(w, d, frames), d, w.ram), m, w.heaps[d].base,
                                        HeapEnd(After(w.heaps[d], op))))
    ensures exists w': World :: CallDone(w, d, op, frames, m, w')
  {
    GrowthMaps(w, d, op, frames);
    var w' := CalledWorld(w, ws, d, op, frames, w.heaps[d], After(w.heaps[d], op), Grown(w, d, frames), m);
    assert CallDone(w, d, op, frames, m, w');
  }

  /** The call has taken `w` to `w'`, and the heap in `m` is as the process now sees it. */
  ghost predicate CallDone(w: World, d: nat, op: HeapRuns.Op, frames: seq<nat>, m: seq<byte>, w': World)
    requires Inv(w)
  {
    && HeapStep(w, d, op, frames, w') && |w'.ram| == TWO32 && Isolated(w'.space)
    && d in w'.heaps && w'.heaps[d] == After(w.heaps[d], op)
    && Agree(m, View(w'.space, d, w'.ram), w'.heaps[d].base, HeapEnd(w'.heaps[d]))
  }

  lemma ReadyToRun(w: World, d: nat, op: HeapRuns.Op, frames: seq<nat>)
    requires Inv(w) && HeapEnabled(w, d, op, frames)
    ensures NoAdjacentFree(w.heaps[d].state.blocks) && Isolated(Grown(w, d, frames))
    ensures Agree(View(w.space, d, w.ram), View(Grown(w, d, frames), d, w.ram), w.heaps[d].base, HeapEnd(w.heaps[d]))
    ensures HeapRuns.Pictures(w.heaps[d].base, w.heaps[d].state, View(Grown(w, d, frames), d, w.ram))
  {
    assert Sound(w.space, w.ram, d, w.heaps[d]);
    OldPartSeen(w, d, op, frames);
    CallReady(w, d, op, frames);
  }

  /** The heap's code on its own memory, which shows the heap as the process `sees` it. */
  method RunHeap(h: ProcessHeap.Heap, ghost p: ProcHeap, op: HeapRuns.Op, ghost sees: seq<byte>, page: seq<byte>)
    requires NoAdjacentFree(p.state.blocks) && HeapRuns.Legal(p.base, p.state, op)
    requires HeapEnd(p) <= HeapEnd(After(p, op)) < TWO32 == |sees| && page == sees[HeapEnd(p)..HeapEnd(After(p, op))]
    requires HeapRuns.Pictures(p.base, p.state, sees)
    requires h.mem.Length == TWO32 && h.base == p.base && h.blocks == p.state.blocks && h.size == Total(h.blocks)
    requires Agree(h.mem[..], sees, h.base, HeapEnd(p)) && h.blocks != []
    modifies h`blocks, h`size, h.mem
    ensures h.Valid() && h.blocks == After(p, op).state.blocks && h.size == Total(h.blocks)
    ensures HeapRuns.Performed(p.base, p.state, op, After(p, op).state, sees,
                               Overlay(sees, h.mem[..], p.base, HeapEnd(After(p, op))))
  {
    PagesAppear(h, page);
    ghost var m := h.mem[..];
    assert Agree(sees, m, p.base, HeapEnd(After(p, op)));
    SamePicture(p.base, p.state, sees, m);
    HeapRuns.Perform(h, p.state, op);
    OverlayPerforms(p, op, sees, m, h.mem[..]);
  }

  /** The bytes of a process's new pages come into its sight behind the heap. */
  method PagesAppear(h: ProcessHeap.Heap, page: seq<byte>)
    requires h.base + h.size + |page| <= h.mem.Length
    modifies h.mem
    ensures forall a :: 0 <= a < h.mem.Length ==>
              h.mem[a] == if h.base + h.size <= a < h.base + h.size + |page| then page[a - h.base - h.size]
                          else old(h.mem[a])
  {
    var end := h.base + h.size;
    for i := 0 to |page|
      invariant forall a :: 0 <= a < h.mem.Length ==>
                  h.mem[a] == if end <= a < end + i then page[a - end] else old(h.mem[a])
    {
      h.mem[end + i] := page[i];
    }
  }

  /** What the process saw of its heap it still sees after the pages have been allocated. */
  lemma OldPartSeen(w: World, d: nat, op: HeapRuns.Op, frames: seq<nat>)
    requires Inv(w) && HeapEnabled(w, d, op, frames)
    ensures Isolated(Grown(w, d, frames))
    ensures Agree(View(w.space, d, w.ram), View(Grown(w, d, frames), d, w.ram), w.heaps[d].base, HeapEnd(w.heaps[d]))
  {
    var h := w.heaps[d];
    GrowthMaps(w, d, op, frames);
    forall a: nat | h.base <= a < HeapEnd(h)
      ensures ByteAt(w.space, d, w.ram, a) == ByteAt(Grown(w, d, frames), d, w.ram, a)
    {
      GrowthKeeps(w, d, op, frames, a);
    }
  }

  /** What `Heap` does to its memory it does to any memory that agrees on the heap. */
  lemma OverlayPerforms(h: ProcHeap, op: HeapRuns.Op, sees: seq<byte>, m: seq<byte>, m': seq<byte>)
    requires NoAdjacentFree(h.state.blocks) && HeapRuns.Legal(h.base, h.state, op)
    requires HeapEnd(After(h, op)) < TWO32 == |sees|
    requires HeapRuns.Performed(h.base, h.state, op, After(h, op).state, m, m')
    requires Agree(sees, m, h.base, HeapEnd(After(h, op)))
    ensures HeapRuns.Performed(h.base, h.state, op, After(h, op).state, sees,
                               Overlay(sees, m', h.base, HeapEnd(After(h, op))))
  {
    var h', vm := After(h, op), Overlay(sees, m', h.base, HeapEnd(After(h, op)));
    GrowsByPages(h, op);
    LiveBounds(h.base, h.state.blocks);
    LiveBounds(h.base, h'.state.blocks);
    SamePicture(h.base, h'.state, m', vm);
    assert op.Write? ==> vm == sees[op.a := op.x];
  }

  lemma CalledWorld(w: World, ws: seq<World>, d: nat, op: HeapRuns.Op, frames: seq<nat>,
                    h: ProcHeap, h': ProcHeap, s: Space, m: seq<byte>)
    returns (w': World)
    requires |w.ram| == |m| == TWO32 && Isolated(s) && h.base <= HeapEnd(h') < TWO32
    requires Mapped(s, d, h.base, HeapEnd(h'))
    requires Grew(ws, d, HeapEnd(h) / PAGE_SIZE, frames) && ws[0] == w
    requires HeapRuns.Performed(h.base, h.state, op, h'.state, View(s, d, w.ram),
                                Overlay(View(s, d, w.ram), m, h.base, HeapEnd(h')))
    ensures HeapWrites(w, d, op, frames, h, h', s, w') && |w'.ram| == TWO32
    ensures Agree(m, View(s, d, w'.ram), h.base, HeapEnd(h'))
  {
    var vm := Overlay(View(s, d, w.ram), m, h.base, HeapEnd(h'));
    GrewKeepsUser(ws, d, HeapEnd(h) / PAGE_SIZE, frames, |frames|);
    var w1 := ws[|frames|];
    var ram := WrittenWorld(s, d, h.base, HeapEnd(h'), w.ram, w1, vm);
    w' := World(s, w.heaps[d := h'], ram, w1.layout, w1.place);
    assert SameKernel(w1, w');
  }

  /** Physical memory once `vm` has been written back, the kernel's structures being those of `w1`. */
  lemma WrittenWorld(s: Space, d: nat, lo: nat, hi: nat, ram: seq<byte>, w1: World, vm: seq<byte>)
    returns (ram': seq<byte>)
    requires Isolated(s) && Mapped(s, d, lo, hi) && lo <= hi <= TWO32 == |vm| && KernelOnly(ram, w1.ram)
    ensures |ram'| == TWO32 && WrittenThrough(s, d, lo, hi, ram, vm, ram')
    ensures StructuresSame(WordsOf(w1.ram), WordsOf(ram'), w1.layout, w1.place)
    ensures Agree(vm, View(s, d, ram'), lo, hi)
  {
    ram' := WriteBack(s, d, lo, hi, w1.ram, vm);
    WritesBack(s, d, lo, hi, w1.ram, vm);
    WroteBackKernel(s, d, lo, hi, w1.ram, vm, w1.layout, w1.place);
    SeesAll(s, d, lo, hi, w1.ram, vm, ram');
  }

  lemma {:induction false} GrewKeepsUser(ws: seq<World>, d: nat, v: nat, frames: seq<nat>, n: nat)
    requires Grew(ws, d, v, frames) && n <= |frames|
    ensures KernelOnly(ws[0].ram, ws[n].ram)
  {
    if n > 0 {
      GrewKeepsUser(ws, d, v, frames, n - 1);
      assert Moved(ws, d, v, frames, n - 1);
      MoveKeepsUser(ws[n - 1], GrowthOp(ws[n - 1].space, d, v + (n - 1), frames[n - 1]), ws[n]);
    }
  }

  // ----- Whole runs

  ghost predicate IsHistory(acts: seq<Act>, worlds: seq<World>) {
    && |worlds| == |acts| + 1
    && AfterInit(worlds[0])
    && forall t :: 0 <= t < |acts| ==> Follows(worlds[t], acts[t], worlds[t + 1])
  }

  /** What `init_paging` leaves, with no heap yet. */
  ghost predicate AfterInit(w: World) {
    && |w.ram| == TWO32
    && Shape(WordsOf(w.ram), w.layout) && Paging.KernelMapped(WordsOf(w.ram), w.layout, KERNEL_PAGES)
    && w.space == Space(w.layout.kernel, {w.layout.kernel}, FramesBelow(KERNEL_PAGES), map[]) && w.heaps == map[]
  }

  ghost predicate Follows(w: World, act: Act, w': World) { Inv(w) ==> Next(w, act, w') }

  /** In every run every heap of every process is wholly mapped, and its headers in physical memory tile it. */
  lemma {:induction false} AlwaysSound(acts: seq<Act>, worlds: seq<World>, t: nat)
    requires IsHistory(acts, worlds) && t < |worlds|
    ensures Inv(worlds[t])
  {
    if t > 0 {
      AlwaysSound(acts, worlds, t - 1);
      assert Follows(worlds[t - 1], acts[t - 1], worlds[t]);
      NextKeepsInv(worlds[t - 1], acts[t - 1], worlds[t]);
    }
  }

  /** The heaps of all processes have no physical byte in common. */
  lemma HeapsApart(acts: seq<Act>, worlds: seq<World>, t: nat, d: nat, a: nat, d': nat, a': nat)
    requires IsHistory(acts, worlds) && t < |worlds|
    requires InHeap(worlds[t], d, a) && InHeap(worlds[t], d', a')
    ensures Isolated(worlds[t].space) && Allocated(worlds[t].space, d, a) && Allocated(worlds[t].space, d', a')
    ensures Phys(worlds[t].space, d, a) == Phys(worlds[t].space, d', a') <==> d == d' && a == a'
  {
    var w := worlds[t];
    AlwaysSound(acts, worlds, t);
    InHeapAllocated(w, d, a);
    InHeapAllocated(w, d', a');
    BytesApart(w.space, d, a, d', a');
  }

  ghost predicate InHeap(w: World, d: nat, a: nat) {
    d in w.heaps && w.heaps[d].base <= a < HeapEnd(w.heaps[d])
  }

  lemma InHeapAllocated(w: World, d: nat, a: nat)
    requires Inv(w) && InHeap(w, d, a)
    ensures Allocated(w.space, d, a)
  {
    assert Sound(w.space, w.ram, d, w.heaps[d]);
  }

  // ----- What a process keeps in its heap

  /** Byte `a` belongs to an allocation in the heap of `d`. */
  ghost predicate Held(w: World, d: nat, a: nat) {
    d in w.heaps && HeapRuns.InSomePayload(LiveOf(w.heaps[d].base, w.heaps[d].state.blocks), a)
  }

  lemma HeldInHeap(w: World, d: nat, a: nat)
    requires Held(w, d, a)
    ensures InHeap(w, d, a)
  {
    LiveBounds(w.heaps[d].base, w.heaps[d].state.blocks);
  }

  ghost predicate Writes(act: Act, d: nat, a: nat) {
    act.Heap? && act.d == d && act.op.Write? && act.op.a == a
  }

  /** A heap operation keeps the bytes of its own process's other allocations. */
  lemma OwnKept(w: World, act: Act, w': World, d: nat, a: nat)
    requires Inv(w) && act.Heap? && act.d == d && HeapStep(w, d, act.op, act.frames, w')
    requires Held(w, d, a) && Held(w', d, a) && !Writes(act, d, a)
    ensures KeptByte(w, w', d, a)
  {
    var op, h, h', s := act.op, w.heaps[d], After(w.heaps[d], act.op), w'.space;
    HeldInHeap(w, d, a);
    HeldInHeap(w', d, a);
    GrowthKeeps(w, d, op, act.frames, a);
    GrowthMaps(w, d, op, act.frames);
    var vm: seq<byte> :|
      && HeapRuns.Performed(h.base, h.state, op, h'.state, View(s, d, w.ram), vm)
      && WrittenThrough(s, d, h.base, HeapEnd(h'), w.ram, vm, w'.ram);
    HeapRuns.StepKeepsByte(h.base, h.state, op, h'.state, View(s, d, w.ram), vm, a);
  }

  ghost predicate HeldThroughout(worlds: seq<World>, i: nat, j: nat, d: nat, a: nat) {
    i <= j < |worlds| && forall t :: i <= t <= j ==> Held(worlds[t], d, a)
  }

  ghost predicate WrittenBetween(acts: seq<Act>, i: nat, j: nat, d: nat, a: nat) {
    exists t :: i <= t < j && t < |acts| && Writes(acts[t], d, a)
  }

  /**
    In every run, an allocated byte stays at its physical address and keeps its
    value until its own process writes it, whatever any process requests, frees,
    maps or writes meanwhile.
   */
  lemma {:induction false} BytesSurvive(acts: seq<Act>, worlds: seq<World>, i: nat, j: nat, d: nat, a: nat)
    requires IsHistory(acts, worlds)
    requires HeldThroughout(worlds, i, j, d, a) && !WrittenBetween(acts, i, j, d, a)
    ensures KeptByte(worlds[i], worlds[j], d, a)
    decreases j
  {
    if i == j {
      SelfKept(acts, worlds, i, d, a);
    } else {
      var t := j - 1;
      HeldAt(worlds, i, t, d, a);
      BytesSurvive(acts, worlds, i, t, d, a);
      assert KeptByte(worlds[t], worlds[j], d, a) by { StepSurvives(acts, worlds, t, d, a); }
      KeptAcross(worlds[i], worlds[t], worlds[j], d, a);
    }
  }

  lemma HeldAt(worlds: seq<World>, i: nat, t: nat, d: nat, a: nat)
    requires HeldThroughout(worlds, i, t + 1, d, a) && i <= t
    ensures Held(worlds[t], d, a) && Held(worlds[t + 1], d, a) && HeldThroughout(worlds, i, t, d, a)
  {
  }

  lemma SelfKept(acts: seq<Act>, worlds: seq<World>, t: nat, d: nat, a: nat)
    requires IsHistory(acts, worlds) && t < |worlds| && Held(worlds[t], d, a)
    ensures KeptByte(worlds[t], worlds[t], d, a)
  {
    AlwaysSound(acts, worlds, t);
    HeldInHeap(worlds[t], d, a);
    InHeapAllocated(worlds[t], d, a);
  }

  lemma KeptAcross(w: World, w': World, w'': World, d: nat, a: nat)
    requires KeptByte(w, w', d, a) && KeptByte(w', w'', d, a)
    ensures KeptByte(w, w'', d, a)
  {
  }

  lemma StepSurvives(acts: seq<Act>, worlds: seq<World>, t: nat, d: nat, a: nat)
    requires IsHistory(acts, worlds) && t < |acts|
    requires Held(worlds[t], d, a) && Held(worlds[t + 1], d, a) && !Writes(acts[t], d, a)
    ensures KeptByte(worlds[t], worlds[t + 1], d, a)
  {
    AlwaysSound(acts, worlds, t);
    assert Follows(worlds[t], acts[t], worlds[t + 1]);
    ByteSurvives(worlds[t], acts[t], worlds[t + 1], d, a);
  }

  lemma ByteSurvives(w: World, act: Act, w': World, d: nat, a: nat)
    requires Inv(w) && Next(w, act, w')
    requires Held(w, d, a) && Held(w', d, a) && !Writes(act, d, a)
    ensures KeptByte(w, w', d, a)
  {
    HeldInHeap(w, d, a);
    if Actor(act) == Some(d) {
      assert act.Heap?;
      OwnKept(w, act, w', d, a);
    } else {
      OthersKept(w, act, w', d);
    }
  }
}
