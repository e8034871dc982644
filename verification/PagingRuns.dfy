/**
  Whole runs of the page allocator. The abstract state says which frames are
  used and which (directory, page) pairs `alloc_page` has mapped to which frame;
  the lemmas show that memory keeps representing it. With paging on, the code
  reaches the bitmap and the tables through the directory it runs under, so
  every operation names that directory.
 */
module PagingRuns {
  import opened Words
  import opened PageTables
  import opened Paging

  type Page = (nat, nat)

  datatype Space = Space(kernel: nat, dirs: set<nat>, used: set<nat>, owned: map<Page, nat>)

  /** `c` is the directory the code runs under; `writeable` and `kernel` are what `alloc_page` is asked for. */
  datatype Op = NewDir(c: nat, d: nat) | Alloc(c: nat, d: nat, v: nat, f: nat, writeable: bool, kernel: bool)

  ghost predicate LeastFree(used: set<nat>, f: nat) {
    f !in used && f < PAGES && forall g: nat :: g < f ==> g in used
  }

  /** No page of the kernel has been mapped to another frame in directory `c`. */
  ghost predicate KernelIntact(s: Space, c: nat) {
    forall v: nat :: v < KERNEL_PAGES ==> (c, v) !in s.owned
  }

  /** What callers must respect: the code sees the kernel's pages as they are, before and after. */
  ghost predicate Allowed(s: Space, op: Op) {
    && op.c in s.dirs && KernelIntact(s, op.c)
    && (op.Alloc? ==> op.d in s.dirs && op.v < PAGES && (op.d == op.c ==> KERNEL_PAGES <= op.v))
  }

  ghost predicate Enabled(s: Space, op: Op) {
    && Allowed(s, op)
    && match op
       case NewDir(_, d) => d !in s.dirs
       case Alloc(_, _, _, f, _, _) => LeastFree(s.used, f)
  }

  function WithDir(s: Space, d: nat): Space {
    s.(dirs := s.dirs + {d})
  }

  function WithPage(s: Space, d: nat, v: nat, f: nat): Space {
    s.(used := s.used + {f}, owned := s.owned[(d, v) := f])
  }

  function Step(s: Space, op: Op): Space {
    match op
    case NewDir(_, d) => WithDir(s, d)
    case Alloc(_, d, v, f, _, _) => WithPage(s, d, v, f)
  }

  function FramesBelow(n: nat): (fs: set<nat>)
    ensures forall f: nat :: f in fs <==> f < n
  {
    if n == 0 then {} else FramesBelow(n - 1) + {n - 1}
  }

  ghost predicate IsRun(kernel: nat, ops: seq<Op>, states: seq<Space>) {
    && |states| == |ops| + 1
    && states[0] == Space(kernel, {kernel}, FramesBelow(KERNEL_PAGES), map[])
    && forall i :: 0 <= i < |ops| ==> Enabled(states[i], ops[i]) && states[i + 1] == Step(states[i], ops[i])
  }

  /** No two allocated pages share a frame, and none has one of the kernel's. */
  ghost predicate Isolated(s: Space) {
    && (forall a, b :: a in s.owned && b in s.owned && a != b ==> s.owned[a] != s.owned[b])
    && (forall a :: a in s.owned ==> KERNEL_PAGES <= s.owned[a] < PAGES && s.owned[a] in s.used)
    && (forall a :: a in s.owned ==> a.0 in s.dirs && a.1 < PAGES)
    && (forall f: nat :: f < KERNEL_PAGES ==> f in s.used)
  }

  lemma {:induction false} RunsAreIsolated(kernel: nat, ops: seq<Op>, states: seq<Space>, t: nat)
    requires IsRun(kernel, ops, states) && t < |states|
    ensures Isolated(states[t])
  {
    if t > 0 {
      RunsAreIsolated(kernel, ops, states, t - 1);
      StepKeepsIsolated(states[t - 1], ops[t - 1]);
    }
  }

  lemma StepKeepsIsolated(s: Space, op: Op)
    requires Isolated(s) && Enabled(s, op)
    ensures Isolated(Step(s, op))
  {
  }

  /** An operation leaves the directory it runs under intact. */
  lemma StaysIntact(s: Space, op: Op)
    requires Enabled(s, op)
    ensures KernelIntact(Step(s, op), op.c)
  {
  }

  // ----- Memory represents the abstract state

  ghost predicate Represents(m: Memory, l: Layout, s: Space) {
    && Shape(m, l)
    && l.bitmap + BITMAP_PAGES <= PAGES && s.kernel == l.kernel
    && (forall d: nat :: d in s.dirs <==> IsDir(l, d))
    && (forall f: nat :: f < PAGES ==> InUse(m, l.bitmap, f) == (f in s.used))
    && (forall d: nat, v: nat :: (d, v) in s.owned ==>
          IsDir(l, d) && v < PAGES && Present(Lookup(m, d, v)) && FrameOf(Lookup(m, d, v)) == s.owned[(d, v)])
    && (forall d: nat, v: nat :: IsDir(l, d) && v < KERNEL_PAGES && (d, v) !in s.owned ==>
          Lookup(m, d, v) == v * PAGE_SIZE + 3)
    && KernelTables(m, l)
  }

  /** Every directory holds the tables of the kernel's pages, which only the kernel may use. */
  ghost predicate KernelTables(m: Memory, l: Layout) {
    && FullSize(m)
    && forall d: nat, t: nat :: IsDir(l, d) && d < PAGES && t < SLOTS && Covers(t, KERNEL_PAGES) ==>
         KernelTable(Word(m, d, t))
  }

  /** After `init_paging` memory represents the initial state of a run. */
  lemma InitRepresents(m: Memory, l: Layout)
    requires Shape(m, l) && KernelMapped(m, l, KERNEL_PAGES)
    ensures Represents(m, l, Space(l.kernel, {l.kernel}, FramesBelow(KERNEL_PAGES), map[]))
  {
  }

  /** What `AllocPage` is proved to do to memory is an `Alloc` step. */
  lemma AllocRefines(m: Memory, m': Memory, l: Layout, l': Layout, s: Space,
                     d: nat, v: nat, f: nat, flags: nat, page: nat, entry: nat)
    requires Represents(m, l, s) && Isolated(s)
    requires Shape(m', l') && OnlyTablesAdded(l, l')
    requires IsDir(l, d) && v < PAGES && flags < 8 && flags % 2 == 1
    requires IsFirstFree(m, l.bitmap, f) && FrameTaken(m, m', l', f)
    requires AllocEffect(m, m', l', d, v, f * PAGE_SIZE + flags, f * PAGE_SIZE, page)
    requires TablesGrown(m, m', l', d, v / SLOTS, entry)
    ensures LeastFree(s.used, f)
    ensures Represents(m', l', WithPage(s, d, v, f))
  {
    assert LeastFree(s.used, f) by {
      assert !InUse(m, l.bitmap, f);
      forall g: nat | g < f ensures g in s.used { assert InUse(m, l.bitmap, g); }
    }
    var x := f * PAGE_SIZE + flags;
    EntryParts(f, flags);
    EntriesKept(m, m', l', d, v, x, f * PAGE_SIZE, page);
    OwnedKept(m, m', l', s, d, v, f, x);
    KernelViewKept(m, m', l', s, d, v, f);
    KernelTablesKept(m, m', l', d, v / SLOTS, entry);
  }

  lemma KernelTablesKept(m: Memory, m': Memory, l: Layout, d: nat, t: nat, entry: nat)
    requires KernelTables(m, l) && TablesGrown(m, m', l, d, t, entry)
    ensures KernelTables(m', l)
  {
    forall d': nat, t': nat | IsDir(l, d') && d' < PAGES && t' < SLOTS && Covers(t', KERNEL_PAGES)
      ensures KernelTable(Word(m', d', t'))
    {
      KernelTableBits(Word(m, d', t'));
      assert TableGrown(Word(m, d', t'), Word(m', d', t'), d' == d && t' == t, d' == l.kernel, entry);
    }
  }

  lemma EntryParts(f: nat, flags: nat)
    requires f < PAGES && flags < 8 && flags % 2 == 1
    ensures f * PAGE_SIZE + flags < TWO32
    ensures Present(f * PAGE_SIZE + flags) && FrameOf(f * PAGE_SIZE + flags) == f
  {
    var x := f * PAGE_SIZE + flags;
    assert x == 2 * (f * 2048) + flags;
    assert x / PAGE_SIZE == f;
  }

  /** An allocation takes no translation away except the one it replaces. */
  ghost predicate Kept(m: Memory, m': Memory, l: Layout, d: nat, v: nat) {
    && FullSize(m) && FullSize(m')
    && forall d': nat, v': nat ::
         IsDir(l, d') && d' < PAGES && v' < PAGES && !(d' == d && v' == v) && Present(Lookup(m, d', v')) ==>
           Lookup(m', d', v') == Lookup(m, d', v')
  }

  lemma EntriesKept(m: Memory, m': Memory, l: Layout, d: nat, v: nat,
                    x: uint32, addr: uint32, page: nat)
    requires Shape(m', l) && IsDir(l, d) && v < PAGES
    requires AllocEffect(m, m', l, d, v, x, addr, page)
    ensures Kept(m, m', l, d, v) && Lookup(m', d, v) == x
  {
  }

  lemma OwnedKept(m: Memory, m': Memory, l: Layout, s: Space, d: nat, v: nat, f: nat, x: uint32)
    requires Shape(m', l) && Kept(m, m', l, d, v) && IsDir(l, d) && v < PAGES
    requires Lookup(m', d, v) == x && Present(x) && FrameOf(x) == f
    requires forall d': nat, v': nat :: (d', v') in s.owned ==>
               && IsDir(l, d') && v' < PAGES
               && Present(Lookup(m, d', v')) && FrameOf(Lookup(m, d', v')) == s.owned[(d', v')]
    ensures var owned := WithPage(s, d, v, f).owned;
            forall d': nat, v': nat :: (d', v') in owned ==>
              && IsDir(l, d') && v' < PAGES
              && Present(Lookup(m', d', v')) && FrameOf(Lookup(m', d', v')) == owned[(d', v')]
  {
  }

  lemma KernelViewKept(m: Memory, m': Memory, l: Layout, s: Space, d: nat, v: nat, f: nat)
    requires Shape(m', l) && Kept(m, m', l, d, v)
    requires forall d': nat, v': nat :: IsDir(l, d') && v' < KERNEL_PAGES && (d', v') !in s.owned ==>
               Lookup(m, d', v') == v' * PAGE_SIZE + 3
    ensures forall d': nat, v': nat ::
              IsDir(l, d') && v' < KERNEL_PAGES && (d', v') !in WithPage(s, d, v, f).owned ==>
                Lookup(m', d', v') == v' * PAGE_SIZE + 3
  {
    forall d': nat, v': nat | IsDir(l, d') && v' < KERNEL_PAGES && (d', v') !in WithPage(s, d, v, f).owned
      ensures Lookup(m', d', v') == v' * PAGE_SIZE + 3
    {
      EntryParts(v', 3);
    }
  }

  lemma NewDirRefines(m: Memory, m': Memory, l: Layout, l': Layout, s: Space, d: nat)
    requires Represents(m, l, s) && Isolated(s)
    requires Shape(m', l') && DirAdded(l, l', d) && !IsDir(l, d)
    requires SameBitmap(m, m', l') && OthersSame(m, m', l', d) && DirMapped(m', d, KERNEL_PAGES)
    ensures d !in s.dirs
    ensures Represents(m', l', WithDir(s, d))
  {
  }

  /** Every directory translates an unremapped kernel page exactly as the kernel directory does. */
  lemma KernelViewsAgree(m: Memory, l: Layout, s: Space, d: nat, v: nat)
    requires Represents(m, l, s)
    requires IsDir(l, d) && v < KERNEL_PAGES && (d, v) !in s.owned && (l.kernel, v) !in s.owned
    ensures Lookup(m, d, v) == Lookup(m, l.kernel, v)
    ensures Present(Lookup(m, d, v)) && FrameOf(Lookup(m, d, v)) == v
  {
  }

  /** Two processes never translate allocated pages to the same frame, nor to one of the kernel's. */
  lemma TranslationsApart(m: Memory, l: Layout, s: Space, a: Page, b: Page)
    requires Represents(m, l, s) && Isolated(s)
    requires a in s.owned && b in s.owned && a != b
    ensures FrameOf(Lookup(m, a.0, a.1)) != FrameOf(Lookup(m, b.0, b.1))
    ensures FrameOf(Lookup(m, a.0, a.1)) >= KERNEL_PAGES
  {
    assert (a.0, a.1) == a && (b.0, b.1) == b;
  }

  /** The pages of all structures, and what the bump allocator has not handed out, hold what they held. */
  ghost predicate StructuresSame(m: Memory, m': Memory, l: Layout, place: nat) {
    && FullSize(m) && FullSize(m')
    && forall p: nat, i: nat :: p < KERNEL_PAGES && i < SLOTS && (p in l.roles || place <= p * PAGE_SIZE) ==>
         Word(m', p, i) == Word(m, p, i)
  }

  lemma StructuresKept(m: Memory, m': Memory, l: Layout, place: nat, s: Space)
    requires Represents(m, l, s) && StructuresSame(m, m', l, place)
    ensures Represents(m', l, s)
    ensures SameTranslations(m, m', l)
    ensures FreshZero(m, place) ==> FreshZero(m', place)
  {
    assert SameTables(m, m', l);
    ShapeKept(m, m', l);
    forall d: nat, v: nat | IsDir(l, d) && v < PAGES ensures Lookup(m', d, v) == Lookup(m, d, v) {
      if HasTable(m, d, v / SLOTS) {
        assert Owned(l, TableOf(m, d, v / SLOTS), d, v / SLOTS);
      }
    }
    forall f: nat | f < PAGES ensures InUse(m', l.bitmap, f) == InUse(m, l.bitmap, f) {
      assert BitmapPage(l, f / 32 / SLOTS);
    }
  }

  /** A process writing to a frame it owns reaches no directory, no table and no part of the bitmap. */
  lemma OwnerWritesHarmless(m: Memory, m': Memory, l: Layout, s: Space, a: Page)
    requires Represents(m, l, s) && Isolated(s) && a in s.owned && FullSize(m')
    requires forall p: nat, i: nat :: p < PAGES && i < SLOTS && p != s.owned[a] ==> Word(m', p, i) == Word(m, p, i)
    ensures Represents(m', l, s)
    ensures SameTranslations(m, m', l)
    ensures forall place: nat :: FreshZero(m, place) ==> FreshZero(m', place)
  {
    StructuresKept(m, m', l, 0, s);
  }

  // ----- Nothing but what was allocated

  /**
    A directory shows, besides the pages allocated under it, only identity
    entries: of the kernel's pages, in the kernel directory of any page.
   */
  ghost predicate Closed(m: Memory, l: Layout, s: Space) {
    && FullSize(m)
    && forall d: nat, v: nat :: IsDir(l, d) && d < PAGES && v < PAGES && (d, v) !in s.owned ==>
         Spare(Lookup(m, d, v), v, d == l.kernel)
  }

  predicate Spare(entry: uint32, v: nat, kernel: bool) {
    Present(entry) ==> FrameOf(entry) == v && (kernel || v < KERNEL_PAGES)
  }

  lemma InitClosed(m: Memory, l: Layout)
    requires Shape(m, l) && KernelMapped(m, l, KERNEL_PAGES)
    ensures Closed(m, l, Space(l.kernel, {l.kernel}, FramesBelow(KERNEL_PAGES), map[]))
  {
    forall v: nat | v < PAGES ensures Spare(Lookup(m, l.kernel, v), v, true) {
      if v < KERNEL_PAGES {
        EntryParts(v, 3);
      }
    }
  }

  /** Fresh memory that is zero makes a clean table. */
  lemma FreshIsClean(m: Memory, place: nat, page: nat, addr: uint32)
    requires FreshZero(m, place) && place <= page * PAGE_SIZE && page < KERNEL_PAGES
    ensures CleanFor(m, page, addr)
    ensures CleanEnd(m, page)
  {
  }

  /** An allocation keeps it so if the kernel directory had a table for the frame or gets a clean one. */
  lemma AllocKeepsClosed(m: Memory, m': Memory, l: Layout, l': Layout, s: Space,
                         d: nat, v: nat, f: nat, x: uint32, page: nat)
    requires Closed(m, l, s) && Shape(m', l') && OnlyTablesAdded(l, l') && f < PAGES
    requires AllocEffect(m, m', l', d, v, x, f * PAGE_SIZE, page)
    requires d == l.kernel || HasTable(m, l.kernel, f / SLOTS) || CleanFor(m, page, f * PAGE_SIZE)
    ensures Closed(m', l', WithPage(s, d, v, f))
  {
    var s' := WithPage(s, d, v, f);
    forall d': nat, v': nat | IsDir(l', d') && d' < PAGES && v' < PAGES && (d', v') !in s'.owned
      ensures Spare(Lookup(m', d', v'), v', d' == l'.kernel)
    {
      assert Spare(Lookup(m, d', v'), v', d' == l.kernel);
      if d' == l'.kernel && d != d' {
        assert f * PAGE_SIZE / PAGE_SIZE == f;
        EntryWord(f * PAGE_SIZE, 3);
        assert Lookup(m', d', v') == IdentityEntry(m, d', f * PAGE_SIZE, v');
      }
    }
  }

  /** On clean kernel memory it always does, and the memory left is clean. */
  lemma AllocKeepsClean(m: Memory, m': Memory, l: Layout, l': Layout, s: Space, d: nat, v: nat, f: nat, x: uint32,
                        page: nat, place: nat, place': nat)
    requires Closed(m, l, s) && Shape(m', l') && OnlyTablesAdded(l, l') && f < PAGES && l.kernel < PAGES
    requires AllocEffect(m, m', l', d, v, x, f * PAGE_SIZE, page)
    requires d == l.kernel || HasTable(m, l.kernel, f / SLOTS) || (place <= page * PAGE_SIZE && page < KERNEL_PAGES)
    requires FreshZero(m, place) && place <= place' && FreshSame(m, m', place')
    ensures Closed(m', l', WithPage(s, d, v, f)) && FreshZero(m', place')
  {
    FreshZeroKept(m, m', place, place');
    if d != l.kernel && !HasTable(m, l.kernel, f / SLOTS) {
      FreshIsClean(m, place, page, f * PAGE_SIZE);
    }
    AllocKeepsClosed(m, m', l, l', s, d, v, f, x, page);
  }

  lemma NewDirKeepsClosed(m: Memory, m': Memory, l: Layout, l': Layout, s: Space, d: nat)
    requires Closed(m, l, s) && Shape(m', l') && DirAdded(l, l', d) && !IsDir(l, d) && IsDir(l, l.kernel)
    requires OthersSame(m, m', l', d) && DirMapped(m', d, KERNEL_PAGES) && NothingBeyond(m', d, KERNEL_PAGES)
    ensures Closed(m', l', WithDir(s, d))
  {
    forall d': nat, v: nat | IsDir(l', d') && d' < PAGES && v < PAGES && (d', v) !in s.owned
      ensures Spare(Lookup(m', d', v), v, d' == l'.kernel)
    {
      if d' != d {
        assert Spare(Lookup(m, d', v), v, d' == l.kernel);
      } else if v < KERNEL_PAGES {
        EntryParts(v, 3);
      }
    }
  }

  /** In closed memory no translation of a process, allocated or stale, reaches a frame allocated for another page. */
  lemma NoForeignFrame(m: Memory, l: Layout, s: Space, d: nat, v: nat, a: Page)
    requires Represents(m, l, s) && Isolated(s) && Closed(m, l, s)
    requires IsDir(l, d) && d != l.kernel && v < PAGES && Present(Lookup(m, d, v))
    requires a in s.owned && a != (d, v)
    ensures FrameOf(Lookup(m, d, v)) != s.owned[a]
    ensures (d, v) !in s.owned ==> FrameOf(Lookup(m, d, v)) == v < KERNEL_PAGES
  {
    if (d, v) !in s.owned {
      assert Spare(Lookup(m, d, v), v, false);
    } else {
      assert s.owned[(d, v)] != s.owned[a];
    }
  }

  // ----- The kernel directory stays an identity map

  ghost predicate AllIdentity(m: Memory, k: nat) {
    && FullSize(m) && k < PAGES
    && forall v: nat :: v < PAGES && Present(Lookup(m, k, v)) ==> FrameOf(Lookup(m, k, v)) == v
  }

  /** An allocation for a process keeps it so and adds the frame, given a kernel table for it or a clean fresh page. */
  lemma AllocKeepsIdentity(m: Memory, m': Memory, l: Layout, d: nat, v: nat, x: uint32, addr: uint32, page: nat)
    requires AllIdentity(m, l.kernel) && d != l.kernel
    requires AllocEffect(m, m', l, d, v, x, addr, page)
    requires HasTable(m, l.kernel, addr / PAGE_SIZE / SLOTS) || CleanFor(m, page, addr)
    ensures AllIdentity(m', l.kernel)
    ensures var entry := Lookup(m', l.kernel, addr / PAGE_SIZE);
            Present(entry) && FrameOf(entry) == addr / PAGE_SIZE
  {
    EntryWord(addr, 3);
    assert IdentityAdded(m, m', l.kernel, addr);
  }

  // ----- The code reaches its own tables

  /** The physical address behind virtual address `a` of directory `d`, as the page tables in `m` translate it. */
  function Translate(m: Memory, d: nat, a: nat): nat
    requires FullSize(m) && d < PAGES && a < TWO32
  {
    FrameOf(Lookup(m, d, a / PAGE_SIZE)) * PAGE_SIZE + a % PAGE_SIZE
  }

  /** Under directory `c` every address of the kernel's memory is its own physical address. */
  ghost predicate SeesKernel(m: Memory, c: nat) {
    && FullSize(m) && c < PAGES
    && forall a: nat :: a < KERNEL_MEM_END ==> Present(Lookup(m, c, a / PAGE_SIZE)) && Translate(m, c, a) == a
  }

  /**
    The bitmap, the directories and the tables lie in the kernel's memory; code
    that runs under `c` reads and writes them where they are if and only if no
    page of the kernel was mapped anew in `c`.
   */
  lemma SeesKernelExactly(m: Memory, l: Layout, s: Space, c: nat)
    requires Represents(m, l, s) && Isolated(s) && IsDir(l, c)
    ensures SeesKernel(m, c) <==> KernelIntact(s, c)
  {
    if KernelIntact(s, c) {
      forall a: nat | a < KERNEL_MEM_END
        ensures Present(Lookup(m, c, a / PAGE_SIZE)) && Translate(m, c, a) == a
      {
        var v := a / PAGE_SIZE;
        assert (c, v) !in s.owned;
        EntryParts(v, 3);
      }
    } else {
      var v: nat :| v < KERNEL_PAGES && (c, v) in s.owned;
      var a := v * PAGE_SIZE;
      assert a / PAGE_SIZE == v && Translate(m, c, a) == s.owned[(c, v)] * PAGE_SIZE != a;
    }
  }

  /**
    What happens otherwise: mapping a page of the kernel in the directory the
    code runs under takes the allocator's own structures out of its sight. Here
    it is the bitmap, which the code then reads from the frame just handed out.
   */
  lemma RemapBlinds(m: Memory, l: Layout, s: Space, c: nat, v: nat, f: nat, i: nat)
    requires Isolated(s) && Represents(m, l, WithPage(s, c, v, f)) && IsDir(l, c) && LeastFree(s.used, f)
    requires l.bitmap <= v < l.bitmap + BITMAP_PAGES && i < PAGE_SIZE
    ensures v < KERNEL_PAGES && !SeesKernel(m, c)
    ensures Translate(m, c, v * PAGE_SIZE + i) == f * PAGE_SIZE + i != v * PAGE_SIZE + i
    ensures forall op: Op :: op.c == c ==> !Enabled(WithPage(s, c, v, f), op)
  {
    var s' := WithPage(s, c, v, f);
    ShapeBitmap(m, l);
    assert (c, v) in s'.owned;
    var a := v * PAGE_SIZE + i;
    assert a / PAGE_SIZE == v && a % PAGE_SIZE == i;
    assert f >= KERNEL_PAGES;
    assert Translate(m, c, a) != a;
  }

  // ----- The allocator performs the run

  /** Memory as the allocator leaves it: its words, who owns which page, and where the bump allocator stands. */
  datatype Kernel = Kernel(m: Memory, l: Layout, place: nat)

  /** Memory represents `s`; if kernel memory was clean at first, it still is, and nothing is stale. */
  ghost predicate Serves(k: Kernel, s: Space, clean: bool) {
    && Represents(k.m, k.l, s) && Isolated(s)
    && (clean ==> FreshZero(k.m, k.place) && Closed(k.m, k.l, s))
  }

  lemma InitServes(k: Kernel)
    requires Shape(k.m, k.l) && KernelMapped(k.m, k.l, KERNEL_PAGES)
    ensures Serves(k, Space(k.l.kernel, {k.l.kernel}, FramesBelow(KERNEL_PAGES), map[]), FreshZero(k.m, k.place))
  {
    InitRepresents(k.m, k.l);
    InitClosed(k.m, k.l);
  }

  /** Page `v` of `d` was mapped to frame `f`; a table the kernel directory needed for it comes from `place` on. */
  ghost predicate PageMapped(k: Kernel, k': Kernel, d: nat, v: nat, f: nat, writeable: bool, kernel: bool,
                             page: nat, entry: nat)
  {
    && k.l.kernel < PAGES && IsFirstFree(k.m, k.l.bitmap, f)
    && FrameTaken(k.m, k'.m, k'.l, f)
    && f * PAGE_SIZE + Flags(writeable, kernel) < TWO32
    && AllocEffect(k.m, k'.m, k'.l, d, v, f * PAGE_SIZE + Flags(writeable, kernel), f * PAGE_SIZE, page)
    && TablesGrown(k.m, k'.m, k'.l, d, v / SLOTS, entry)
    && AccessGiven(k.m, k'.m, d, v, writeable, kernel) && RightsKept(k.m, k'.m, k'.l, d, v)
    && (d == k.l.kernel || HasTable(k.m, k.l.kernel, f / SLOTS)
        || (k.place <= page * PAGE_SIZE && page < KERNEL_PAGES))
  }

  ghost predicate DirMade(k: Kernel, k': Kernel, d: nat) {
    && DirAdded(k.l, k'.l, d) && !IsDir(k.l, d)
    && SameBitmap(k.m, k'.m, k'.l) && OthersSame(k.m, k'.m, k'.l, d) && DirMapped(k'.m, d, KERNEL_PAGES)
    && (NothingBeyond(k'.m, d, KERNEL_PAGES) <==> CleanEnd(k.m, d + 4))
    && k.place <= d * PAGE_SIZE && d + 4 < KERNEL_PAGES
  }

  /** What the allocator does to memory for `op`. */
  ghost predicate PagingStep(k: Kernel, op: Op, k': Kernel) {
    && Shape(k'.m, k'.l) && k.place <= k'.place && FreshSame(k.m, k'.m, k'.place)
    && match op
       case NewDir(_, d) => DirMade(k, k', d)
       case Alloc(_, d, v, f, writeable, kernel) =>
         && OnlyTablesAdded(k.l, k'.l)
         && exists page, entry :: PageMapped(k, k', d, v, f, writeable, kernel, page, entry)
  }

  /** If the caller may ask for it, what the allocator does is a step of the run, which memory then represents. */
  lemma StepServes(k: Kernel, op: Op, k': Kernel, s: Space, clean: bool)
    requires Serves(k, s, clean) && Allowed(s, op) && PagingStep(k, op, k')
    ensures Enabled(s, op) && Serves(k', Step(s, op), clean)
  {
    StepKeepsKernel(k, op, k', s);
    StepKeepsIsolated(s, op);
    if clean {
      StepKeepsClean(k, op, k', s);
    }
  }

  lemma StepKeepsKernel(k: Kernel, op: Op, k': Kernel, s: Space)
    requires Represents(k.m, k.l, s) && Isolated(s) && Allowed(s, op) && PagingStep(k, op, k')
    ensures Enabled(s, op) && Represents(k'.m, k'.l, Step(s, op))
  {
    match op
    case NewDir(_, d) => NewDirRefines(k.m, k'.m, k.l, k'.l, s, d);
    case Alloc(_, d, v, f, writeable, kernel) =>
      var page, entry :| PageMapped(k, k', d, v, f, writeable, kernel, page, entry);
      AllocRefines(k.m, k'.m, k.l, k'.l, s, d, v, f, Flags(writeable, kernel), page, entry);
  }

  lemma StepKeepsClean(k: Kernel, op: Op, k': Kernel, s: Space)
    requires Shape(k.m, k.l) && Closed(k.m, k.l, s) && FreshZero(k.m, k.place) && PagingStep(k, op, k')
    ensures Closed(k'.m, k'.l, Step(s, op)) && FreshZero(k'.m, k'.place)
  {
    match op
    case NewDir(_, d) =>
      FreshZeroKept(k.m, k'.m, k.place, k'.place);
      FreshIsClean(k.m, k.place, d + 4, 0);
      NewDirKeepsClosed(k.m, k'.m, k.l, k'.l, s, d);
    case Alloc(_, d, v, f, writeable, kernel) =>
      var page, entry :| PageMapped(k, k', d, v, f, writeable, kernel, page, entry);
      AllocKeepsClean(k.m, k'.m, k.l, k'.l, s, d, v, f, f * PAGE_SIZE + Flags(writeable, kernel), page,
                      k.place, k'.place);
  }

  /** A run in memory, from `init_paging` on. */
  ghost predicate IsMemoryRun(ops: seq<Op>, states: seq<Space>, ks: seq<Kernel>) {
    && |states| == |ks| == |ops| + 1
    && Shape(ks[0].m, ks[0].l) && KernelMapped(ks[0].m, ks[0].l, KERNEL_PAGES)
    && states[0] == Space(ks[0].l.kernel, {ks[0].l.kernel}, FramesBelow(KERNEL_PAGES), map[])
    && forall i :: 0 <= i < |ops| ==> PerformsAt(ops, states, ks, i)
  }

  ghost predicate PerformsAt(ops: seq<Op>, states: seq<Space>, ks: seq<Kernel>, i: nat)
    requires i < |ops| && i + 1 < |states| && i + 1 < |ks|
  {
    Performs(ks[i], states[i], ops[i], ks[i + 1], states[i + 1])
  }

  ghost predicate Performs(k: Kernel, s: Space, op: Op, k': Kernel, s': Space) {
    Allowed(s, op) && PagingStep(k, op, k') && s' == Step(s, op)
  }

  /** Every run in memory is a run, and memory represents its state throughout. */
  lemma {:induction false} MemoryRuns(ops: seq<Op>, states: seq<Space>, ks: seq<Kernel>, t: nat)
    requires IsMemoryRun(ops, states, ks) && t < |states|
    ensures IsRun(ks[0].l.kernel, ops[..t], states[..t + 1])
    ensures Serves(ks[t], states[t], FreshZero(ks[0].m, ks[0].place))
  {
    if t == 0 {
      InitServes(ks[0]);
    } else {
      MemoryRuns(ops, states, ks, t - 1);
      assert PerformsAt(ops, states, ks, t - 1);
      StepServes(ks[t - 1], ops[t - 1], ks[t], states[t - 1], FreshZero(ks[0].m, ks[0].place));
      RunGrows(ks[0].l.kernel, ops, states, t);
    }
  }

  lemma RunGrows(kernel: nat, ops: seq<Op>, states: seq<Space>, t: nat)
    requires 0 < t <= |ops| < |states|
    requires IsRun(kernel, ops[..t - 1], states[..t])
    requires Enabled(states[t - 1], ops[t - 1]) && states[t] == Step(states[t - 1], ops[t - 1])
    ensures IsRun(kernel, ops[..t], states[..t + 1])
  {
    var os, ss := ops[..t], states[..t + 1];
    forall i | 0 <= i < |os| ensures Enabled(ss[i], os[i]) && ss[i + 1] == Step(ss[i], os[i]) {
      if i < t - 1 {
        assert ops[..t - 1][i] == os[i] && states[..t][i] == ss[i] && states[..t][i + 1] == ss[i + 1];
      }
    }
  }

  // ----- Access rights over a run

  ghost predicate Remaps(op: Op, d: nat, v: nat) {
    op.Alloc? && op.d == d && op.v == v
  }

  ghost predicate NotRemapped(ops: seq<Op>, i: nat, j: nat, d: nat, v: nat) {
    i <= j <= |ops| && forall t :: i <= t < j ==> !Remaps(ops[t], d, v)
  }

  lemma StepKeepsRights(k: Kernel, op: Op, k': Kernel, s: Space, d: nat, v: nat)
    requires Represents(k.m, k.l, s) && PagingStep(k, op, k')
    requires IsDir(k.l, d) && v < PAGES && Present(Lookup(k.m, d, v)) && !Remaps(op, d, v)
    ensures SameRights(k.m, k'.m, d, v)
  {
    if op.Alloc? {
      var page, entry :| PageMapped(k, k', op.d, op.v, op.f, op.writeable, op.kernel, page, entry);
    } else {
      assert Lookup(k'.m, d, v) == Lookup(k.m, d, v);
      assert Word(k'.m, d, v / SLOTS) == Word(k.m, d, v / SLOTS);
    }
  }

  /** An allocated page keeps its rights until it is allocated anew, whatever else is. */
  lemma {:induction false} RightsSurvive(ops: seq<Op>, states: seq<Space>, ks: seq<Kernel>, i: nat, j: nat,
                                         d: nat, v: nat)
    requires IsMemoryRun(ops, states, ks) && NotRemapped(ops, i, j, d, v) && (d, v) in states[i].owned
    ensures (d, v) in states[j].owned && RightsHeld(ks[i].m, ks[j].m, d, v)
    decreases j
  {
    if i < j {
      var t := j - 1;
      RightsSurvive(ops, states, ks, i, t, d, v);
      assert !Remaps(ops[t], d, v);
      RunKeepsRights(ops, states, ks, t, d, v);
      HeldAcross(ks[i].m, ks[t].m, ks[j].m, d, v);
    } else {
      RightsAtFirst(ops, states, ks, i, d, v);
    }
  }

  ghost predicate RightsHeld(m: Memory, m': Memory, d: nat, v: nat) {
    FullSize(m) && FullSize(m') && d < PAGES && v < PAGES && SameRights(m, m', d, v)
  }

  lemma HeldAcross(m: Memory, m1: Memory, m': Memory, d: nat, v: nat)
    requires RightsHeld(m, m1, d, v) && RightsHeld(m1, m', d, v)
    ensures RightsHeld(m, m', d, v)
  {
  }

  lemma RightsAtFirst(ops: seq<Op>, states: seq<Space>, ks: seq<Kernel>, i: nat, d: nat, v: nat)
    requires IsMemoryRun(ops, states, ks) && i < |states| && (d, v) in states[i].owned
    ensures RightsHeld(ks[i].m, ks[i].m, d, v)
  {
    MemoryRuns(ops, states, ks, i);
  }

  lemma RunKeepsRights(ops: seq<Op>, states: seq<Space>, ks: seq<Kernel>, t: nat, d: nat, v: nat)
    requires IsMemoryRun(ops, states, ks) && t < |ops| && (d, v) in states[t].owned && !Remaps(ops[t], d, v)
    ensures (d, v) in states[t + 1].owned && RightsHeld(ks[t].m, ks[t + 1].m, d, v)
  {
    MemoryRuns(ops, states, ks, t);
    assert PerformsAt(ops, states, ks, t);
    StepKeepsRights(ks[t], ops[t], ks[t + 1], states[t], d, v);
  }

  /**
    From its allocation on, a page is writeable if that was asked for and its
    table, unless it was made for it, is; it is open to user mode likewise.
   */
  lemma RightsOfPage(ops: seq<Op>, states: seq<Space>, ks: seq<Kernel>, t: nat, j: nat)
    requires IsMemoryRun(ops, states, ks) && t < j <= |ops| && ops[t].Alloc?
    requires NotRemapped(ops, t + 1, j, ops[t].d, ops[t].v)
    ensures AccessGiven(ks[t].m, ks[j].m, ops[t].d, ops[t].v, ops[t].writeable, ops[t].kernel)
  {
    var op := ops[t];
    assert PerformsAt(ops, states, ks, t);
    StepGivesRights(ks[t], op, ks[t + 1]);
    RightsSurvive(ops, states, ks, t + 1, j, op.d, op.v);
  }

  lemma StepGivesRights(k: Kernel, op: Op, k': Kernel)
    requires PagingStep(k, op, k') && op.Alloc?
    ensures AccessGiven(k.m, k'.m, op.d, op.v, op.writeable, op.kernel)
  {
    var page, entry :| PageMapped(k, k', op.d, op.v, op.f, op.writeable, op.kernel, page, entry);
  }

  /** In every run and directory, a page of the kernel that was not mapped anew is writeable and closed to users. */
  lemma KernelStaysClosed(ops: seq<Op>, states: seq<Space>, ks: seq<Kernel>, t: nat, d: nat, v: nat)
    requires IsMemoryRun(ops, states, ks) && t < |states|
    requires d in states[t].dirs && v < KERNEL_PAGES && (d, v) !in states[t].owned
    ensures FullSize(ks[t].m) && d < PAGES
    ensures Writeable(ks[t].m, d, v) && !UserAccess(ks[t].m, d, v)
  {
    MemoryRuns(ops, states, ks, t);
    assert Covers(v / SLOTS, KERNEL_PAGES);
    KernelPageRights(ks[t].m, d, v);
  }

  /**
    A page that shares a table with the kernel's pages, as those from 0xFF0000
    up to 16 MiB do, is closed to user mode in every directory, however it was
    allocated.
   */
  lemma SharedTableCloses(ops: seq<Op>, states: seq<Space>, ks: seq<Kernel>, t: nat, d: nat, v: nat)
    requires IsMemoryRun(ops, states, ks) && t < |states| && d in states[t].dirs && v < 0x1000
    ensures FullSize(ks[t].m) && d < PAGES && !UserAccess(ks[t].m, d, v)
  {
    MemoryRuns(ops, states, ks, t);
    assert Covers(v / SLOTS, KERNEL_PAGES);
    KernelTableBits(Word(ks[t].m, d, v / SLOTS));
  }

  // ----- What the code sees over a run

  /** In every run in memory each operation starts and ends with the kernel's memory where the code takes it to be. */
  lemma RunSeesKernel(ops: seq<Op>, states: seq<Space>, ks: seq<Kernel>, t: nat)
    requires IsMemoryRun(ops, states, ks) && t < |ops|
    ensures SeesKernel(ks[t].m, ops[t].c) && SeesKernel(ks[t + 1].m, ops[t].c)
  {
    MemoryRuns(ops, states, ks, t);
    MemoryRuns(ops, states, ks, t + 1);
    assert PerformsAt(ops, states, ks, t);
    StepServes(ks[t], ops[t], ks[t + 1], states[t], false);
    StaysIntact(states[t], ops[t]);
    SeesKernelExactly(ks[t].m, ks[t].l, states[t], ops[t].c);
    SeesKernelExactly(ks[t + 1].m, ks[t + 1].l, states[t + 1], ops[t].c);
  }

  /** No word of a frame beyond the kernel's has changed. */
  ghost predicate UserSame(m: Memory, m': Memory) {
    && FullSize(m) && FullSize(m')
    && forall p: nat, i: nat :: KERNEL_PAGES <= p < PAGES && i < SLOTS ==> Word(m', p, i) == Word(m, p, i)
  }

  lemma StepKeepsUser(k: Kernel, op: Op, k': Kernel)
    requires PagingStep(k, op, k') && k'.place <= KERNEL_MEM_END
    ensures UserSame(k.m, k'.m)
  {
  }

  /** After `init_paging`, on memory that was zero from `placeAddr` on or not. */
  method PerformInit(mem: array<uint32>, placeAddr: nat) returns (p: Pager, ghost s: Space)
    requires mem.Length == PAGES * SLOTS
    requires AlignUp(placeAddr) + (1 + BITMAP_PAGES + 4) * PAGE_SIZE <= KERNEL_MEM_END
    modifies mem
    ensures fresh(p) && p.mem == mem && p.Valid() && KernelMapped(mem[..], p.layout, KERNEL_PAGES)
    ensures s == Space(p.layout.kernel, {p.layout.kernel}, FramesBelow(KERNEL_PAGES), map[])
    ensures Serves(KernelOf(p), s, FreshZero(old(mem[..]), placeAddr))
  {
    p := Pager.InitPaging(mem, placeAddr);
    s := Space(p.layout.kernel, {p.layout.kernel}, FramesBelow(KERNEL_PAGES), map[]);
    InitServes(KernelOf(p));
    if FreshZero(old(mem[..]), placeAddr) {
      FreshZeroKept(old(mem[..]), mem[..], placeAddr, p.place);
    }
  }

  ghost function KernelOf(p: Pager): Kernel
    reads p, p.mem
  {
    Kernel(p.mem[..], p.layout, p.place)
  }

  /** `alloc_page`, called by code that runs under directory `c`. */
  method PerformAlloc(p: Pager, ghost s: Space, ghost c: nat, d: nat, v: nat, writeable: bool, kernel: bool,
                      ghost clean: bool)
    returns (r: AllocResult, ghost s': Space)
    requires p.Valid() && Serves(KernelOf(p), s, clean)
    requires Allowed(s, Alloc(c, d, v, 0, writeable, kernel))
    requires forall f: nat :: IsFirstFree(p.mem[..], p.layout.bitmap, f) ==> p.Room(d * PAGE_SIZE, v * PAGE_SIZE, f)
    modifies p.mem, p`place, p`layout
    ensures p.Valid() && Serves(KernelOf(p), s', clean)
    ensures if r.Allocated? then
              var a := Alloc(c, d, v, r.addr / PAGE_SIZE, writeable, kernel);
              Enabled(s, a) && s' == Step(s, a) && PagingStep(old(KernelOf(p)), a, KernelOf(p))
            else
              && r == Halted && s' == s && KernelOf(p) == old(KernelOf(p))
              && AllInUse(p.mem[..], p.layout.bitmap) && (forall f: nat :: f < PAGES ==> f in s.used)
    ensures UserSame(old(p.mem[..]), p.mem[..])
  {
    s' := s;
    r := AllocStep(p, c, d, v, writeable, kernel);
    if r.Allocated? {
      s' := WithPage(s, d, v, r.addr / PAGE_SIZE);
      StepServes(old(KernelOf(p)), Alloc(c, d, v, r.addr / PAGE_SIZE, writeable, kernel), KernelOf(p), s, clean);
    }
  }

  method AllocStep(p: Pager, ghost c: nat, d: nat, v: nat, writeable: bool, kernel: bool) returns (r: AllocResult)
    requires p.Valid() && IsDir(p.layout, d) && v < PAGES
    requires forall f: nat :: IsFirstFree(p.mem[..], p.layout.bitmap, f) ==> p.Room(d * PAGE_SIZE, v * PAGE_SIZE, f)
    modifies p.mem, p`place, p`layout
    ensures p.Valid()
    ensures r.Allocated? || (r == Halted && AllInUse(old(p.mem[..]), p.layout.bitmap))
    ensures if r.Allocated? then
              PagingStep(old(KernelOf(p)), Alloc(c, d, v, r.addr / PAGE_SIZE, writeable, kernel), KernelOf(p))
            else KernelOf(p) == old(KernelOf(p))
  {
    var dir, vaddr := d * PAGE_SIZE, v * PAGE_SIZE;
    assert dir / PAGE_SIZE == d && vaddr / PAGE_SIZE == v;
    r := p.AllocPage(dir, vaddr, writeable, kernel);
    if r.Allocated? {
      ghost var f, page := r.addr / PAGE_SIZE, old(p.KernelTablePage(dir, vaddr));
      assert r.addr == f * PAGE_SIZE;
      ghost var entry := old(p.TableEntry(dir, writeable, kernel));
      assert AllocEffect(old(p.mem[..]), p.mem[..], p.layout, d, v, f * PAGE_SIZE + Flags(writeable, kernel),
                         f * PAGE_SIZE, page);
      assert PageMapped(old(KernelOf(p)), KernelOf(p), d, v, f, writeable, kernel, page, entry);
    }
  }

  /** `get_new_kernel_mapped_dir`, called by code that runs under directory `c`. */
  method PerformNewDir(p: Pager, ghost s: Space, ghost c: nat, ghost clean: bool) returns (dir: nat, ghost s': Space)
    requires p.Valid() && Serves(KernelOf(p), s, clean)
    requires c in s.dirs && KernelIntact(s, c)
    requires AlignUp(p.place) + 5 * PAGE_SIZE <= KERNEL_MEM_END
    modifies p.mem, p`place, p`layout
    ensures p.Valid() && Serves(KernelOf(p), s', clean)
    ensures dir % PAGE_SIZE == 0
    ensures var a := NewDir(c, dir / PAGE_SIZE);
            Enabled(s, a) && s' == Step(s, a) && PagingStep(old(KernelOf(p)), a, KernelOf(p))
    ensures UserSame(old(p.mem[..]), p.mem[..])
  {
    dir := p.NewKernelMappedDir();
    s' := WithDir(s, dir / PAGE_SIZE);
    StepServes(old(KernelOf(p)), NewDir(c, dir / PAGE_SIZE), KernelOf(p), s, clean);
  }

  // ----- Whole runs from `init_paging` on

  /** Directories are named in the order they were made, the kernel's first. */
  datatype Request = MakeDir | Map(dir: nat, v: nat, writeable: bool, kernel: bool)

  /** With `n` directories, this request makes sense and takes no page of the kernel's away from it. */
  predicate Posed(req: Request, n: nat) {
    req.Map? ==> req.dir < n && req.v < PAGES && (req.dir == 0 ==> KERNEL_PAGES <= req.v)
  }

  /** `op`, run under the kernel directory, is what `req` asks for. */
  predicate Does(dirs: seq<nat>, req: Request, op: Op)
    requires dirs != []
  {
    && op.c == dirs[0]
    && match req
       case MakeDir => op.NewDir? && op.d in dirs
       case Map(dir, v, writeable, kernel) =>
         && op.Alloc? && dir < |dirs| && op.d == dirs[dir] && op.v == v
         && op.writeable == writeable && op.kernel == kernel
  }

  /** The directories made so far, and memory with the run that led to it. */
  ghost predicate Standing(p: Pager, s: Space, dirs: seq<nat>)
    reads p, p.mem
  {
    && p.Valid() && Serves(KernelOf(p), s, false)
    && dirs != [] && dirs[0] == p.layout.kernel && KernelIntact(s, dirs[0])
    && (forall i :: 0 <= i < |dirs| ==> dirs[i] in s.dirs)
    && (forall i :: 1 <= i < |dirs| ==> dirs[i] != dirs[0])
  }

  /** One request, with kernel memory left for any tables it needs. */
  method ServeOne(p: Pager, ghost s: Space, dirs: seq<nat>, req: Request)
    returns (done: bool, dirs': seq<nat>, ghost op: Op, ghost s': Space)
    requires Standing(p, s, dirs) && Posed(req, |dirs|)
    requires AlignUp(p.place) + 5 * PAGE_SIZE <= KERNEL_MEM_END
    modifies p.mem, p`place, p`layout
    ensures Standing(p, s', dirs') && dirs <= dirs'
    ensures done ==> Does(dirs', req, op) && Performs(old(KernelOf(p)), s, op, KernelOf(p), s')
    ensures !done ==> KernelOf(p) == old(KernelOf(p)) && s' == s && dirs' == dirs
                      && AllInUse(p.mem[..], p.layout.bitmap)
  {
    dirs' := dirs;
    match req
    case MakeDir =>
      var dir;
      dir, s' := PerformNewDir(p, s, dirs[0], false);
      dirs' := dirs + [dir / PAGE_SIZE];
      op := NewDir(dirs[0], dir / PAGE_SIZE);
      done := true;
      StaysIntact(s, op);
    case Map(i, v, writeable, kernel) =>
      SpareRoom(p, dirs[i], v);
      var r;
      r, s' := PerformAlloc(p, s, dirs[0], dirs[i], v, writeable, kernel, false);
      done := r.Allocated?;
      op := Alloc(dirs[0], dirs[i], v, if r.Allocated? then r.addr / PAGE_SIZE else 0, writeable, kernel);
      if r.Allocated? {
        StaysIntact(s, op);
      }
  }

  /** Five pages are room enough for any one call. */
  lemma SpareRoom(p: Pager, d: nat, v: nat)
    requires p.Valid() && IsDir(p.layout, d) && v < PAGES
    requires AlignUp(p.place) + 5 * PAGE_SIZE <= KERNEL_MEM_END
    ensures forall f: nat :: f < PAGES ==> p.Room(d * PAGE_SIZE, v * PAGE_SIZE, f)
  {
    var x := p.AfterTable(d * PAGE_SIZE, v * PAGE_SIZE);
    assert x <= AlignUp(p.place) + PAGE_SIZE && AlignUp(x) < x + PAGE_SIZE;
  }

  /** The first `n` requests have been served, in this run. */
  ghost predicate Served(reqs: seq<Request>, n: nat, dirs: seq<nat>,
                         ops: seq<Op>, states: seq<Space>, ks: seq<Kernel>)
  {
    IsMemoryRun(ops, states, ks) && |ops| == n <= |reqs| && AllDone(reqs, dirs, ops)
  }

  ghost predicate AllDone(reqs: seq<Request>, dirs: seq<nat>, ops: seq<Op>) {
    |ops| <= |reqs| && dirs != [] && forall i :: 0 <= i < |ops| ==> Does(dirs, reqs[i], ops[i])
  }

  lemma DoneNext(reqs: seq<Request>, dirs: seq<nat>, ops: seq<Op>, dirs': seq<nat>, op: Op)
    requires AllDone(reqs, dirs, ops) && |ops| < |reqs| && dirs <= dirs' && Does(dirs', reqs[|ops|], op)
    ensures AllDone(reqs, dirs', ops + [op])
  {
    forall i | 0 <= i < |ops| + 1 ensures Does(dirs', reqs[i], (ops + [op])[i]) {
      if i < |ops| {
        assert Does(dirs, reqs[i], ops[i]);
      }
    }
  }

  /** The run goes on for one step, to `s` and `k`. */
  ghost predicate Ends(states: seq<Space>, ks: seq<Kernel>, n: nat, states': seq<Space>, ks': seq<Kernel>,
                       s: Space, k: Kernel)
  {
    |states'| == |ks'| == n + 1 && ks != [] && ks'[0] == ks[0] && ks'[n] == k && states'[n] == s
  }

  lemma ServedNext(reqs: seq<Request>, n: nat, dirs: seq<nat>, ops: seq<Op>, states: seq<Space>, ks: seq<Kernel>,
                   dirs': seq<nat>, op: Op, s: Space, k: Kernel)
    requires Served(reqs, n, dirs, ops, states, ks) && n < |reqs| && dirs <= dirs'
    requires Does(dirs', reqs[n], op) && Performs(ks[n], states[n], op, k, s)
    ensures Served(reqs, n + 1, dirs', ops + [op], states + [s], ks + [k])
    ensures Ends(states, ks, n + 1, states + [s], ks + [k], s, k)
  {
    MemoryRunNext(ops, states, ks, op, s, k);
    DoneNext(reqs, dirs, ops, dirs', op);
  }

  lemma MemoryRunNext(ops: seq<Op>, states: seq<Space>, ks: seq<Kernel>, op: Op, s: Space, k: Kernel)
    requires IsMemoryRun(ops, states, ks) && Performs(ks[|ops|], states[|ops|], op, k, s)
    ensures IsMemoryRun(ops + [op], states + [s], ks + [k])
  {
    var os, ss, kk := ops + [op], states + [s], ks + [k];
    forall i | 0 <= i < |os| ensures PerformsAt(os, ss, kk, i) {
      if i < |ops| {
        assert PerformsAt(ops, states, ks, i);
      }
    }
  }

  /**
    A whole run in memory under the kernel directory: any list of requests is
    served in order, as long as they make sense, a frame is free and the kernel's
    own memory lasts.
   */
  method PerformAll(mem: array<uint32>, placeAddr: nat, reqs: seq<Request>)
    returns (p: Pager, served: nat, dirs: seq<nat>, ghost ops: seq<Op>, ghost states: seq<Space>, ghost ks: seq<Kernel>)
    requires mem.Length == PAGES * SLOTS
    requires AlignUp(placeAddr) + (1 + BITMAP_PAGES + 4) * PAGE_SIZE <= KERNEL_MEM_END
    modifies mem
    ensures p.Valid() && p.mem == mem
    ensures Served(reqs, served, dirs, ops, states, ks) && ks[served] == KernelOf(p)
    ensures FreshZero(old(mem[..]), placeAddr) ==> FreshZero(ks[0].m, ks[0].place)
    ensures served < |reqs| ==>
              || !Posed(reqs[served], |dirs|)
              || AlignUp(p.place) + 5 * PAGE_SIZE > KERNEL_MEM_END
              || AllInUse(mem[..], p.layout.bitmap)
  {
    ghost var s;
    p, s := PerformInit(mem, placeAddr);
    served, dirs, ops, states, ks := 0, [p.kernelDirectory / PAGE_SIZE], [], [s], [KernelOf(p)];
    ghost var first := ks[0];
    while served < |reqs|
      invariant served <= |reqs| && fresh(p) && p.mem == mem
      invariant Standing(p, s, dirs)
      invariant Served(reqs, served, dirs, ops, states, ks)
      invariant Ends([s], [first], served, states, ks, s, KernelOf(p))
    {
      if !Posed(reqs[served], |dirs|) || AlignUp(p.place) + 5 * PAGE_SIZE > KERNEL_MEM_END { return; }
      var done;
      ghost var op, s', was := NewDir(0, 0), s, dirs;
      done, dirs, op, s' := ServeOne(p, s, dirs, reqs[served]);
      if !done { return; }
      ServedNext(reqs, served, was, ops, states, ks, dirs, op, s', KernelOf(p));
      ops, states, ks, s := ops + [op], states + [s'], ks + [KernelOf(p)], s';
      served := served + 1;
    }
  }
}
