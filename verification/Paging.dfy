/** The page allocator: frame bitmap, page directories and the bump allocator that feeds them. */
module Paging {
  import opened Words
  import opened Bits
  import opened PageTables
  import opened LittleEndian

  const KERNEL_MEM_END: nat := 0xFF_0000

  datatype AllocResult = Allocated(addr: nat) | NotFree | Halted

  function Flags(writeable: bool, kernel: bool): nat {
    (if writeable then 2 else 0) + (if kernel then 0 else 4) + 1
  }

  function AlignUp(x: nat): (r: nat)
    ensures r % PAGE_SIZE == 0 && x <= r < x + PAGE_SIZE
    ensures x % PAGE_SIZE == 0 ==> r == x
  {
    (x + PAGE_SIZE - 1) / PAGE_SIZE * PAGE_SIZE
  }

  lemma WrapNext(x: nat)
    ensures Wrap(Wrap(x) + 1) == Wrap(x + 1)
    ensures Wrap(x) % PAGE_SIZE == x % PAGE_SIZE
  {
    var q, r := x / TWO32, x % TWO32;
    assert Wrap(x) == r;
    assert r + 1 < TWO32 ==> (x + 1) % TWO32 == r + 1;
    assert r + 1 == TWO32 ==> (x + 1) % TWO32 == 0;
    InPage(q * 0x10_0000, r, x);
  }

  lemma InPage(k: nat, r: nat, x: nat)
    requires x == k * PAGE_SIZE + r
    ensures x % PAGE_SIZE == r % PAGE_SIZE
  {
    assert x == (k + r / PAGE_SIZE) * PAGE_SIZE + r % PAGE_SIZE;
  }

  /** Kernel memory that has not been handed out yet reads as zero. */
  ghost predicate FreshZero(m: Memory, place: nat) {
    && FullSize(m)
    && forall p: nat, i: nat :: p < KERNEL_PAGES && i < SLOTS && place <= p * PAGE_SIZE ==> Word(m, p, i) == 0
  }

  /** Memory from `place` on is as it was: what is not handed out yet, and every frame beyond the kernel's. */
  ghost predicate FreshSame(m: Memory, m': Memory, place: nat) {
    && FullSize(m) && FullSize(m')
    && forall p: nat, i: nat :: p < PAGES && i < SLOTS && place <= p * PAGE_SIZE ==> Word(m', p, i) == Word(m, p, i)
  }

  ghost predicate PageSame(m: Memory, m': Memory, p: nat) {
    && FullSize(m) && FullSize(m') && p < PAGES
    && forall i: nat :: i < SLOTS ==> Word(m', p, i) == Word(m, p, i)
  }

  lemma FreshZeroKept(m: Memory, m': Memory, place: nat, place': nat)
    requires FreshZero(m, place) && place <= place' && FreshSame(m, m', place')
    ensures FreshZero(m', place')
  {
  }

  /** `l'` adds tables to `l` and nothing else. */
  ghost predicate OnlyTablesAdded(l: Layout, l': Layout) {
    && l'.kernel == l.kernel && l'.bitmap == l.bitmap
    && (forall p :: p in l.roles ==> p in l'.roles && l'.roles[p] == l.roles[p])
    && (forall d: nat :: IsDir(l', d) <==> IsDir(l, d))
  }

  /** Frame `f` is the least one the bitmap shows as unused. */
  ghost predicate IsFirstFree(m: Memory, b: nat, f: nat) {
    && FullSize(m) && b + BITMAP_PAGES <= PAGES && f < PAGES
    && !InUse(m, b, f)
    && forall g: nat :: g < f ==> InUse(m, b, g)
  }

  /** If any frame is free, there is a first one. */
  lemma FirstFreeExists(m: Memory, b: nat, f: nat) returns (g: nat)
    requires FullSize(m) && b + BITMAP_PAGES <= PAGES && f < PAGES && !InUse(m, b, f)
    ensures IsFirstFree(m, b, g)
  {
    g := 0;
    while InUse(m, b, g)
      invariant g <= f && forall h: nat :: h < g ==> InUse(m, b, h)
      decreases f - g
    {
      g := g + 1;
    }
  }

  ghost predicate AllInUse(m: Memory, b: nat) {
    && FullSize(m) && b + BITMAP_PAGES <= PAGES
    && forall g: nat :: g < PAGES ==> InUse(m, b, g)
  }

  /** Slot `t` of directory `d` has the table of `entry` unless it had one; no other directory entry differs. */
  ghost predicate TableAdded(m: Memory, m': Memory, l: Layout, d: nat, t: nat, entry: nat) {
    && FullSize(m) && FullSize(m') && entry % 2 == 1
    && forall d': nat, t': nat :: IsDir(l, d') && d' < PAGES && t' < SLOTS ==>
         Word(m', d', t') == if d' == d && t' == t && !HasTable(m, d, t) then entry else Word(m, d', t')
  }

  /** A table that only the kernel may use: present and writeable, no user access. */
  predicate KernelTable(entry: uint32) { entry % 8 == 3 }

  /** No table was replaced; a new one is that of `entry` at slot `t` of `d`, or the kernel directory's own. */
  ghost predicate TablesGrown(m: Memory, m': Memory, l: Layout, d: nat, t: nat, entry: nat) {
    && FullSize(m) && FullSize(m')
    && forall d': nat, t': nat :: IsDir(l, d') && d' < PAGES && t' < SLOTS ==>
         TableGrown(Word(m, d', t'), Word(m', d', t'), d' == d && t' == t, d' == l.kernel, entry)
  }

  predicate TableGrown(w: uint32, w': uint32, own: bool, kernel: bool, entry: nat) {
    if w % 2 == 1 then w' == w
    else if w' % 2 == 1 then (if own then w' == entry else kernel && KernelTable(w'))
    else true
  }

  lemma KernelGrown(m: Memory, m1: Memory, m': Memory, l: Layout, d: nat, t: nat, entry: nat, tk: nat, table: nat)
    requires SameTables(m, m1, l) && TableAdded(m1, m', l, l.kernel, tk, table) && table % 8 == 3
    requires IsDir(l, d) && d < PAGES && t < SLOTS && HasTable(m, d, t)
    ensures TablesGrown(m, m', l, d, t, entry)
  {
  }

  lemma GrownAcross(m: Memory, m1: Memory, l1: Layout, m': Memory, l': Layout, d: nat, t: nat, entry: nat)
    requires TableAdded(m, m1, l1, d, t, entry) && OnlyTablesAdded(l1, l') && TablesGrown(m1, m', l', d, t, entry)
    ensures TablesGrown(m, m', l', d, t, entry)
  {
  }

  /** Outside the slot `t` of directory `d`, every translation is as it was. */
  ghost predicate SameElsewhere(m: Memory, m': Memory, l: Layout, d: nat, t: nat) {
    && FullSize(m) && FullSize(m')
    && forall d': nat, v: nat :: IsDir(l, d') && d' < PAGES && v < PAGES && !(d' == d && v / SLOTS == t) ==>
         Lookup(m', d', v) == Lookup(m, d', v)
  }

  /** Page `v` of directory `d` now has entry `x`; every other page of every directory is as it was. */
  ghost predicate EntrySet(m: Memory, m': Memory, l: Layout, d: nat, v: nat, x: uint32) {
    && FullSize(m) && FullSize(m')
    && forall d': nat, v': nat :: IsDir(l, d') && d' < PAGES && v' < PAGES ==>
         Lookup(m', d', v') == if d' == d && v' == v then x else Lookup(m, d', v')
  }

  /** The same, with directory `k` left out of account. */
  ghost predicate EntrySetBut(m: Memory, m': Memory, l: Layout, k: nat, d: nat, v: nat, x: uint32) {
    && FullSize(m) && FullSize(m')
    && forall d': nat, v': nat :: IsDir(l, d') && d' != k && d' < PAGES && v' < PAGES ==>
         Lookup(m', d', v') == if d' == d && v' == v then x else Lookup(m, d', v')
  }

  /** What directory `k` translated it still translates, except perhaps page `v`. */
  ghost predicate PresentKept(m: Memory, m': Memory, k: nat, v: nat) {
    && FullSize(m) && FullSize(m') && k < PAGES
    && forall v': nat :: v' < PAGES && v' != v && Present(Lookup(m, k, v')) ==> Lookup(m', k, v') == Lookup(m, k, v')
  }

  /** Directory `k` gained the identity entry for `addr` unless it had that page, and nothing else changed in it. */
  ghost predicate IdentityAdded(m: Memory, m': Memory, k: nat, addr: uint32) {
    && FullSize(m) && FullSize(m') && k < PAGES
    && forall v: nat :: v < PAGES ==> Lookup(m', k, v) == IdentityEntry(m, k, addr, v)
  }

  ghost function IdentityEntry(m: Memory, k: nat, addr: uint32, v: nat): nat
    requires FullSize(m) && k < PAGES && v < PAGES
  {
    if v == addr / PAGE_SIZE && !Present(Lookup(m, k, v)) then Or(addr, 3) else Lookup(m, k, v)
  }

  /** As the uncleared table for `addr`, this page shows no page that was not asked for. */
  ghost predicate CleanFor(m: Memory, page: nat, addr: uint32) {
    && FullSize(m) && page < PAGES
    && forall i: nat :: i < SLOTS ==> CleanSlot(Word(m, page, i), i == addr / PAGE_SIZE % SLOTS, addr)
  }

  predicate CleanSlot(w: uint32, own: bool, addr: uint32) {
    w == 0 || (own && (!Present(w) || w == Or(addr, 3)))
  }

  ghost predicate FrameTaken(m: Memory, m': Memory, l: Layout, f: nat) {
    && FullSize(m) && FullSize(m') && l.bitmap + BITMAP_PAGES <= PAGES
    && forall g: nat :: g < PAGES ==> InUse(m', l.bitmap, g) == (g == f || InUse(m, l.bitmap, g))
  }

  /**
    The whole effect of mapping page `v` of directory `d` to the frame at `addr`:
    one entry set, no other page of any other directory touched, and in the
    kernel directory nothing lost. The frame's identity page is what the kernel
    directory gains, and all it gains, exactly if it had a table there or the
    fresh `page` that becomes its table, which nobody clears, is clean.
   */
  ghost predicate AllocEffect(m: Memory, m': Memory, l: Layout, d: nat, v: nat, x: uint32, addr: uint32, page: nat) {
    && FullSize(m) && l.kernel < PAGES
    && (if d == l.kernel then EntrySet(m, m', l, d, v, x)
        else
          && EntrySetBut(m, m', l, l.kernel, d, v, x)
          && PresentKept(m, m', l.kernel, PAGES)
          && (IdentityAdded(m, m', l.kernel, addr) <==>
              HasTable(m, l.kernel, addr / PAGE_SIZE / SLOTS) || CleanFor(m, page, addr)))
  }

  /** Setting the entry, then adding the frame to the kernel directory. */
  lemma EffectOfBoth(m: Memory, m1: Memory, m': Memory, l: Layout, d: nat, v: nat, x: uint32, addr: uint32, page: nat)
    requires Shape(m1, l) && FullSize(m) && FullSize(m') && IsDir(l, d) && d != l.kernel && page < PAGES
    requires EntrySet(m, m1, l, d, v, x) && SameTables(m, m1, l)
    requires OthersSame(m1, m', l, l.kernel) && PresentKept(m1, m', l.kernel, PAGES)
    requires IdentityAdded(m1, m', l.kernel, addr) <==>
             HasTable(m1, l.kernel, addr / PAGE_SIZE / SLOTS) || CleanFor(m1, page, addr)
    requires HasTable(m, l.kernel, addr / PAGE_SIZE / SLOTS) || PageSame(m, m1, page)
    ensures AllocEffect(m, m', l, d, v, x, addr, page)
  {
    forall u: nat | u < PAGES ensures IdentityEntry(m, l.kernel, addr, u) == IdentityEntry(m1, l.kernel, addr, u) {
      assert Lookup(m1, l.kernel, u) == Lookup(m, l.kernel, u);
    }
    assert HasTable(m1, l.kernel, addr / PAGE_SIZE / SLOTS) == HasTable(m, l.kernel, addr / PAGE_SIZE / SLOTS);
    assert PageSame(m, m1, page) ==> (CleanFor(m, page, addr) <==> CleanFor(m1, page, addr));
  }

  /** Supplying a table first does not change what the allocation does. */
  lemma EffectAcross(m: Memory, m1: Memory, l1: Layout, m': Memory, l': Layout,
                     d: nat, v: nat, x: uint32, addr: uint32, page: nat, entry: nat)
    requires Shape(m1, l1) && Shape(m', l') && OnlyTablesAdded(l1, l') && IsDir(l', d) && v < PAGES
    requires SameTranslations(m, m1, l1) && TableAdded(m, m1, l1, d, v / SLOTS, entry)
    requires page < PAGES
    requires d == l'.kernel || HasTable(m, l'.kernel, addr / PAGE_SIZE / SLOTS) || PageSame(m, m1, page)
    requires AllocEffect(m1, m', l', d, v, x, addr, page)
    ensures AllocEffect(m, m', l', d, v, x, addr, page)
  {
    if d != l'.kernel {
      assert PageSame(m, m1, page) ==> (CleanFor(m, page, addr) <==> CleanFor(m1, page, addr));
      assert IdentityAdded(m, m', l'.kernel, addr) <==> IdentityAdded(m1, m', l'.kernel, addr) by {
        forall u: nat | u < PAGES
          ensures IdentityEntry(m, l'.kernel, addr, u) == IdentityEntry(m1, l'.kernel, addr, u)
        {
          assert Lookup(m1, l'.kernel, u) == Lookup(m, l'.kernel, u);
        }
      }
    }
  }

  /** An allocation under the kernel directory itself adds at most the table that serves `vaddr`. */
  ghost predicate KernelTableSupplied(m: Memory, m': Memory, l: Layout, vaddr: uint32, flags: nat,
                                      place: nat, place': nat)
  {
    && FullSize(m) && l.kernel < PAGES
    && TableAdded(m, m', l, l.kernel, vaddr / PAGE_SIZE / SLOTS, Or(AlignUp(place), flags))
    && place' == if HasTable(m, l.kernel, vaddr / PAGE_SIZE / SLOTS) then place else AlignUp(place) + PAGE_SIZE
  }

  /** An address with flags in its low bits, whether aligned or not, is an entry for the address's page. */
  lemma EntryWord(addr: uint32, flags: nat)
    requires flags < 8 && flags % 2 == 1
    ensures Or(addr, flags) < TWO32 && Present(Or(addr, flags)) && FrameOf(Or(addr, flags)) == addr / PAGE_SIZE
  {
    Powers();
    OrBound(addr, flags, 32);
    OrHalves(addr, flags);
    OrHigh(addr, flags, 12);
    DownIsDiv(Or(addr, flags), 12);
    DownIsDiv(addr, 12);
  }

  /** With an aligned address the low bits of an entry are its flags. */
  lemma LowBits(addr: nat, flags: nat)
    requires addr % PAGE_SIZE == 0 && flags < 8
    ensures Or(addr, flags) == addr + flags && Or(addr, flags) % 8 == flags
  {
    WithFlags(addr, flags);
    PageLow(addr / PAGE_SIZE, flags);
  }

  /** Pages start on multiples of eight. */
  lemma PageLow(p: nat, flags: nat)
    requires flags < 8
    ensures (p * PAGE_SIZE + flags) % 8 == flags
  {
    LowThree(512 * p, flags);
  }

  lemma LowThree(x: nat, flags: nat)
    requires flags < 8
    ensures (8 * x + flags) % 8 == flags
  {
  }

  // ----- Access rights

  lemma FlagBits(writeable: bool, kernel: bool)
    ensures Flags(writeable, kernel) < 8
    ensures Bit(Flags(writeable, kernel), 0)
    ensures Bit(Flags(writeable, kernel), 1) == writeable
    ensures Bit(Flags(writeable, kernel), 2) == !kernel
  {
    LowBits3(Flags(writeable, kernel));
  }

  lemma AlignedBits(addr: nat)
    requires addr % PAGE_SIZE == 0
    ensures !Bit(addr, 1) && !Bit(addr, 2)
  {
    LowBits3(addr);
    Eights(addr / PAGE_SIZE * 512);
  }

  lemma KernelTableBits(w: uint32)
    requires KernelTable(w)
    ensures Present(w) && Bit(w, 1) && !Bit(w, 2)
  {
    LowBits3(w);
    EightsAndThree(w / 8);
  }

  lemma EightsAndThree(q: nat)
    ensures (8 * q + 3) % 2 == 1 && (8 * q + 3) / 2 % 2 == 1 && (8 * q + 3) / 4 % 2 == 0
  {
    Halved(4 * q + 1, 1);
    Halved(2 * q, 1);
    Quartered(2 * q, 3);
    Halved(q, 0);
    assert 8 * q + 3 == 2 * (4 * q + 1) + 1 == 4 * (2 * q) + 3 && 4 * q + 1 == 2 * (2 * q) + 1;
  }

  lemma Halved(x: nat, r: nat)
    requires r < 2
    ensures (2 * x + r) / 2 == x && (2 * x + r) % 2 == r
  {
  }

  lemma Quartered(x: nat, r: nat)
    requires r < 4
    ensures (4 * x + r) / 4 == x
  {
  }

  lemma Eights(q: nat)
    ensures 8 * q / 2 % 2 == 0 && 8 * q / 4 % 2 == 0
  {
    Halved(4 * q, 0);
    Halved(2 * q, 0);
    Quartered(2 * q, 0);
    Halved(q, 0);
    assert 8 * q == 2 * (4 * q) == 4 * (2 * q) && 4 * q == 2 * (2 * q);
  }

  /**
    Right `k` of page `v` once it was mapped to `addr`: it was asked for, or the
    address brings it along, and likewise for the table, at `table` if it is new.
   */
  ghost predicate RightGiven(m: Memory, m': Memory, d: nat, v: nat, addr: nat, table: nat, k: nat, asked: bool) {
    && FullSize(m) && FullSize(m') && d < PAGES && v < PAGES
    && (Granted(m', d, v, k) <==>
        && (asked || Bit(addr, k))
        && (if HasTable(m, d, v / SLOTS) then Bit(Word(m, d, v / SLOTS), k) else asked || Bit(table, k)))
  }

  ghost predicate RightsGiven(m: Memory, m': Memory, d: nat, v: nat, addr: nat, table: nat,
                              writeable: bool, kernel: bool)
  {
    RightGiven(m, m', d, v, addr, table, 1, writeable) && RightGiven(m, m', d, v, addr, table, 2, !kernel)
  }

  lemma EntryGives(m: Memory, m': Memory, l: Layout, d: nat, v: nat, addr: uint32, table: uint32,
                   writeable: bool, kernel: bool)
    requires IsDir(l, d) && d < PAGES && v < PAGES
    requires TablesGrown(m, m', l, d, v / SLOTS, Or(table, Flags(writeable, kernel)))
    requires HasTable(m', d, v / SLOTS) && Lookup(m', d, v) == Or(addr, Flags(writeable, kernel))
    ensures RightsGiven(m, m', d, v, addr, table, writeable, kernel)
  {
    var flags := Flags(writeable, kernel);
    FlagBits(writeable, kernel);
    EntryWord(addr, flags);
    OrBit(addr, flags, 1);
    OrBit(addr, flags, 2);
    OrBit(table, flags, 1);
    OrBit(table, flags, 2);
    assert TableGrown(Word(m, d, v / SLOTS), Word(m', d, v / SLOTS), true, d == l.kernel, Or(table, flags));
  }

  /** An aligned frame: the page is writeable if both levels were made so, and open to users likewise. */
  ghost predicate AccessGiven(m: Memory, m': Memory, d: nat, v: nat, writeable: bool, kernel: bool) {
    && FullSize(m) && FullSize(m') && d < PAGES && v < PAGES
    && (Writeable(m', d, v) <==> writeable && (HasTable(m, d, v / SLOTS) ==> Bit(Word(m, d, v / SLOTS), 1)))
    && (UserAccess(m', d, v) <==> !kernel && (HasTable(m, d, v / SLOTS) ==> Bit(Word(m, d, v / SLOTS), 2)))
  }

  lemma AlignedGives(m: Memory, m': Memory, d: nat, v: nat, addr: nat, table: nat, writeable: bool, kernel: bool)
    requires RightsGiven(m, m', d, v, addr, table, writeable, kernel) && addr % PAGE_SIZE == 0
    ensures AccessGiven(m, m', d, v, writeable, kernel)
  {
    AlignedBits(addr);
  }

  ghost predicate SameRights(m: Memory, m': Memory, d: nat, v: nat)
    requires FullSize(m) && FullSize(m') && d < PAGES && v < PAGES
  {
    Writeable(m', d, v) == Writeable(m, d, v) && UserAccess(m', d, v) == UserAccess(m, d, v)
  }

  /** No other page gains or loses a right, except that the kernel directory may gain pages. */
  ghost predicate RightsKept(m: Memory, m': Memory, l: Layout, d: nat, v: nat) {
    && FullSize(m) && FullSize(m')
    && forall d': nat, v': nat :: IsDir(l, d') && d' < PAGES && v' < PAGES && !(d' == d && v' == v)
                                  && (d' != l.kernel || d == l.kernel || Present(Lookup(m, d', v'))) ==>
         SameRights(m, m', d', v')
  }

  lemma EffectKeepsRights(m: Memory, m': Memory, l: Layout, d: nat, v: nat, x: uint32, addr: uint32, page: nat,
                          entry: nat)
    requires FullSize(m') && AllocEffect(m, m', l, d, v, x, addr, page)
    requires TablesGrown(m, m', l, d, v / SLOTS, entry)
    ensures RightsKept(m, m', l, d, v)
  {
    forall d': nat, v': nat | IsDir(l, d') && d' < PAGES && v' < PAGES && !(d' == d && v' == v)
                              && (d' != l.kernel || d == l.kernel || Present(Lookup(m, d', v')))
      ensures SameRights(m, m', d', v')
    {
      assert Lookup(m', d', v') == Lookup(m, d', v');
      if Present(Lookup(m, d', v')) {
        var t := v' / SLOTS;
        assert TableGrown(Word(m, d', t), Word(m', d', t), d' == d && t == v / SLOTS, d' == l.kernel, entry);
      }
    }
  }

  /** The kernel's pages are writeable and closed to users wherever they are mapped as the kernel maps them. */
  lemma KernelPageRights(m: Memory, d: nat, v: nat)
    requires FullSize(m) && d < PAGES && v < PAGES
    requires KernelTable(Word(m, d, v / SLOTS)) && Lookup(m, d, v) == v * PAGE_SIZE + 3
    ensures Writeable(m, d, v) && !UserAccess(m, d, v)
  {
    KernelTableBits(Word(m, d, v / SLOTS));
    IdentityBits(v);
  }

  lemma IdentityBits(v: nat)
    requires v < PAGES
    ensures var entry := v * PAGE_SIZE + 3; entry < TWO32 && Present(entry) && Bit(entry, 1) && !Bit(entry, 2)
  {
    PageLow(v, 3);
    KernelTableBits(v * PAGE_SIZE + 3);
  }

  lemma FrameStart(f: nat)
    ensures f * PAGE_SIZE % PAGE_SIZE == 0 && f * PAGE_SIZE / PAGE_SIZE == f
  {
  }

  /** Pages 0 to k - 1 of directory `d` are writeable and closed to user mode. */
  ghost predicate ClosedToUsers(m: Memory, d: nat, k: nat) {
    && FullSize(m) && d < PAGES && k <= PAGES
    && forall v: nat :: v < k ==> Writeable(m, d, v) && !UserAccess(m, d, v)
  }

  lemma KernelClosed(m: Memory, d: nat, k: nat)
    requires FullSize(m) && d < PAGES && k <= PAGES
    requires forall v: nat :: v < k ==> Lookup(m, d, v) == v * PAGE_SIZE + 3
    requires forall t: nat :: Covers(t, k) && t < SLOTS ==> KernelTable(Word(m, d, t))
    ensures ClosedToUsers(m, d, k)
  {
    forall v: nat | v < k ensures Writeable(m, d, v) && !UserAccess(m, d, v) {
      assert Covers(v / SLOTS, k);
      KernelPageRights(m, d, v);
    }
  }

  /** So is the page by which the kernel reaches a frame it has given away, in a table of its own. */
  lemma IdentityRights(m: Memory, m': Memory, l: Layout, addr: uint32, table: nat)
    requires IsDir(l, l.kernel) && l.kernel < PAGES && addr % PAGE_SIZE == 0
    requires IdentityAdded(m, m', l.kernel, addr) && !Present(Lookup(m, l.kernel, addr / PAGE_SIZE))
    requires TableAdded(m, m', l, l.kernel, addr / PAGE_SIZE / SLOTS, table) && table % 8 == 3
    requires var t := addr / PAGE_SIZE / SLOTS;
             HasTable(m, l.kernel, t) ==> KernelTable(Word(m, l.kernel, t))
    ensures Writeable(m', l.kernel, addr / PAGE_SIZE) && !UserAccess(m', l.kernel, addr / PAGE_SIZE)
  {
    var k, f := l.kernel, addr / PAGE_SIZE;
    assert Lookup(m', k, f) == IdentityEntry(m, k, addr, f);
    WithFlags(addr, 3);
    KernelPageRights(m', k, f);
  }

  /** Word `i` from the start of page `b`. */
  lemma WordFrom(m: Memory, b: nat, i: nat)
    requires FullSize(m) && b + i / SLOTS < PAGES
    ensures b * PAGE_SIZE / 4 + i < |m|
    ensures m[b * PAGE_SIZE / 4 + i] == Word(m, b + i / SLOTS, i % SLOTS)
  {
    assert b * PAGE_SIZE / 4 == b * SLOTS;
  }

  /** The page that holds the first byte not handed out belongs to no structure, nor does any above it. */
  lemma FreshPage(l: Layout, place: nat, addr: nat)
    requires place <= addr && addr + PAGE_SIZE <= KERNEL_MEM_END
    requires forall p: nat :: p in l.roles ==> (p + 1) * PAGE_SIZE <= place
    ensures var table := addr / PAGE_SIZE;
            && table < KERNEL_PAGES && (table + 1) * PAGE_SIZE <= addr + PAGE_SIZE
            && table !in l.roles
            && forall p: nat :: p in l.roles ==> p < table
  {
  }

  /** Where a table is put when the bump allocator stands at `place`. */
  function TableAddr(place: nat, align: bool): (addr: nat)
    ensures place <= addr && (place % PAGE_SIZE == 0 ==> addr == place)
    ensures (align || place % PAGE_SIZE == 0) ==> (addr + PAGE_SIZE) % PAGE_SIZE == 0
  {
    if align then AlignUp(place) else place
  }

  /** An unaligned table lies in a page part of which was handed out before, exactly off a page boundary. */
  lemma TableShares(place: nat)
    ensures (exists a: nat :: a < place && SamePage(a, TableAddr(place, false))) <==> place % PAGE_SIZE != 0
  {
    var addr := TableAddr(place, false);
    if place % PAGE_SIZE != 0 {
      assert SamePage(place - 1, addr);
    } else {
      forall a: nat | a < place ensures !SamePage(a, addr) {
      }
    }
  }

  predicate SamePage(a: nat, b: nat) { a / PAGE_SIZE == b / PAGE_SIZE }

  ghost predicate TableInstalled(m: Memory, m': Memory, d: nat, t: nat, table: nat, entry: uint32, clear: bool) {
    && FullSize(m) && FullSize(m')
    && forall p: nat, i: nat :: p < PAGES && i < SLOTS ==>
         Word(m', p, i) == if p == d && i == t then entry else if p == table && clear then 0 else Word(m, p, i)
  }

  lemma TableLinked(m: Memory, m': Memory, l: Layout, d: nat, t: nat, table: nat,
                    entry: uint32, clear: bool)
    requires Shape(m, l) && IsDir(l, d) && t < SLOTS && !HasTable(m, d, t)
    requires table < KERNEL_PAGES && table !in l.roles && d < table
    requires entry % 2 == 1 && entry / PAGE_SIZE == table
    requires TableInstalled(m, m', d, t, table, entry, clear)
    ensures var l' := l.(roles := l.roles[table := Table(d, t)]);
            && Shape(m', l')
            && OnlyTablesAdded(l, l')
            && TableAdded(m, m', l', d, t, entry)
            && SameBitmap(m, m', l')
            && SameElsewhere(m, m', l', d, t)
            && (clear ==> SameTranslations(m, m', l'))
            && (!clear ==> TableShows(m, m', d, t, table))
            && FreshSame(m, m', (table + 1) * PAGE_SIZE)
  {
    LinkTable(m, m', l, d, t, table);
  }

  /** Directory `d` now translates the pages of slot `t` by whatever page `table` held before. */
  ghost predicate TableShows(m: Memory, m': Memory, d: nat, t: nat, table: nat) {
    && FullSize(m) && FullSize(m') && d < PAGES && table < PAGES
    && forall v: nat :: v < PAGES && v / SLOTS == t ==> Lookup(m', d, v) == Word(m, table, v % SLOTS)
  }

  /** The inner loop of `first_free_frame`; 32 means every bit is set. */
  method FirstClearBit(w: uint32) returns (j: nat)
    ensures j <= 32
    ensures forall k: nat :: k < j ==> Bit(w, k)
    ensures j < 32 ==> !Bit(w, j)
  {
    if w == 0xFFFF_FFFF {
      forall k: nat | k < 32 ensures Bit(w, k) {
        Powers();
        OnesBit(32, k);
      }
      return 32;
    }
    j := 0;
    while j < 32
      invariant j <= 32
      invariant forall k: nat :: k < j ==> Bit(w, k)
    {
      AndPow2(w, j);
      if And(w, Pow2(j)) == 0 { return; }
      j := j + 1;
    }
  }

  /** Frame `g` is bit `g % 32` of word `g / 32` of the bitmap. */
  lemma BitOfFrame(m: Memory, b: nat, i: nat, g: nat)
    requires FullSize(m) && b + BITMAP_PAGES <= PAGES && i < BITMAP_PAGES * SLOTS
    requires i * 32 <= g < i * 32 + 32
    ensures g < PAGES && InUse(m, b, g) == Bit(Word(m, b + i / SLOTS, i % SLOTS), g - i * 32)
  {
    assert g / 32 == i && g % 32 == g - i * 32;
  }

  ghost predicate UsedBelow(m: Memory, b: nat, n: nat) {
    && FullSize(m) && b + BITMAP_PAGES <= PAGES && n <= PAGES
    && forall g: nat :: g < n ==> InUse(m, b, g)
  }

  lemma WordScanned(m: Memory, b: nat, i: nat, w: uint32, j: nat)
    requires FullSize(m) && b + BITMAP_PAGES <= PAGES && i < BITMAP_PAGES * SLOTS && j <= 32
    requires w == Word(m, b + i / SLOTS, i % SLOTS)
    requires forall k: nat :: k < j ==> Bit(w, k)
    requires j < 32 ==> !Bit(w, j)
    requires UsedBelow(m, b, i * 32)
    ensures UsedBelow(m, b, i * 32 + j)
    ensures j < 32 ==> IsFirstFree(m, b, i * 32 + j)
  {
    forall g: nat | i * 32 <= g < i * 32 + j ensures InUse(m, b, g) {
      BitOfFrame(m, b, i, g);
    }
    if j < 32 {
      BitOfFrame(m, b, i, i * 32 + j);
    }
  }

  // ----- The kernel's own mapping

  /** Table `t` is needed to map pages 0 to k - 1. */
  predicate Covers(t: nat, k: nat) { t * SLOTS < k }

  lemma CoversNext(k: nat)
    ensures Covers(k / SLOTS, k) <==> k % SLOTS != 0
    ensures forall t: nat :: Covers(t, k + 1) <==> Covers(t, k) || t == k / SLOTS
  {
  }

  /** The kernel directory maps exactly pages 0 to k - 1, each to itself; exactly those frames are in use. */
  ghost predicate KernelMapped(m: Memory, l: Layout, k: nat) {
    && FullSize(m) && l.kernel < PAGES && l.bitmap + BITMAP_PAGES <= PAGES
    && (forall d: nat :: IsDir(l, d) <==> d == l.kernel)
    && (forall v: nat :: v < PAGES ==> Lookup(m, l.kernel, v) == if v < k then v * PAGE_SIZE + 3 else 0)
    && (forall g: nat :: g < PAGES ==> InUse(m, l.bitmap, g) == (g < k))
    && (forall t: nat :: t < SLOTS ==> HasTable(m, l.kernel, t) == Covers(t, k))
    && (forall t: nat :: Covers(t, k) && t < SLOTS ==> KernelTable(Word(m, l.kernel, t)))
  }

  function BitmapRoles(b: nat, n: nat): (roles: map<nat, Role>)
    ensures forall p: nat :: p in roles <==> b <= p < b + n
    ensures forall p: nat :: p in roles ==> roles[p] == Bitmap
  {
    if n == 0 then map[] else BitmapRoles(b, n - 1)[b + n - 1 := Bitmap]
  }

  function EmptyLayout(k: nat): Layout {
    Layout(BitmapRoles(k + 1, BITMAP_PAGES)[k := Directory], k, k + 1)
  }

  lemma EmptyStructures(m: Memory, k: nat)
    requires FullSize(m) && k + BITMAP_PAGES < KERNEL_PAGES
    requires forall p: nat, i: nat :: k <= p <= k + BITMAP_PAGES && i < SLOTS ==> Word(m, p, i) == 0
    ensures Shape(m, EmptyLayout(k)) && KernelMapped(m, EmptyLayout(k), 0)
  {
    var l := EmptyLayout(k);
    forall g: nat | g < PAGES ensures !InUse(m, l.bitmap, g) {
      ZeroBit(g % 32);
    }
    forall i: nat | i < BITMAP_PAGES ensures BitmapPage(l, i) {
      assert l.bitmap + i in l.roles;
    }
  }

  /** A new table is due whenever the tables so far are full. */
  lemma TablesFor(k: nat, tables: nat)
    requires (tables - 1) * SLOTS < k <= tables * SLOTS
    ensures k % SLOTS == 0 <==> k == tables * SLOTS
  {
  }

  lemma FirstFreeIs(m: Memory, l: Layout, k: nat)
    requires KernelMapped(m, l, k) && k < PAGES
    ensures !AllInUse(m, l.bitmap)
    ensures forall f: nat :: IsFirstFree(m, l.bitmap, f) ==> f == k
  {
    assert !InUse(m, l.bitmap, k);
  }

  lemma KernelGrows(m: Memory, m': Memory, l: Layout, k: nat, entry: uint32)
    requires KernelMapped(m, l, k) && k < KERNEL_PAGES && FullSize(m') && IsDir(l, l.kernel)
    requires EntrySet(m, m', l, l.kernel, k, k * PAGE_SIZE + 3)
    requires FrameTaken(m, m', l, k)
    requires TableAdded(m, m', l, l.kernel, k / SLOTS, entry) && KernelTable(entry)
    ensures KernelMapped(m', l, k + 1)
  {
    CoversNext(k);
    forall t: nat | t < SLOTS
      ensures HasTable(m', l.kernel, t) == Covers(t, k + 1)
      ensures Covers(t, k + 1) ==> KernelTable(Word(m', l.kernel, t))
    {
      assert HasTable(m, l.kernel, t) == Covers(t, k);
      assert Covers(t, k + 1) == (Covers(t, k) || t == k / SLOTS);
    }
  }

  // ----- A process's copy of the kernel mapping

  ghost predicate DirAdded(l: Layout, l': Layout, d: nat) {
    && l'.kernel == l.kernel && l'.bitmap == l.bitmap
    && (forall p :: p in l.roles ==> p in l'.roles && l'.roles[p] == l.roles[p])
    && (forall d': nat :: IsDir(l', d') <==> IsDir(l, d') || d' == d)
  }

  /** Every directory but `d` translates as before, through the same tables. */
  ghost predicate OthersSame(m: Memory, m': Memory, l: Layout, d: nat) {
    && FullSize(m) && FullSize(m')
    && (forall d': nat, t: nat :: IsDir(l, d') && d' != d && d' < PAGES && t < SLOTS ==>
          Word(m', d', t) == Word(m, d', t))
    && forall d': nat, v: nat :: IsDir(l, d') && d' != d && d' < PAGES && v < PAGES ==>
         Lookup(m', d', v) == Lookup(m, d', v)
  }

  /** Directory `d` maps pages 0 to k - 1 to themselves and has just the tables for that. */
  ghost predicate DirMapped(m: Memory, d: nat, k: nat) {
    && FullSize(m) && d < PAGES
    && (forall v: nat :: v < k && v < PAGES ==> Lookup(m, d, v) == v * PAGE_SIZE + 3)
    && (forall t: nat :: t < SLOTS ==> HasTable(m, d, t) == Covers(t, k))
    && (forall t: nat :: Covers(t, k) && t < SLOTS ==> KernelTable(Word(m, d, t)))
  }

  ghost predicate NothingBeyond(m: Memory, d: nat, k: nat) {
    && FullSize(m) && d < PAGES
    && forall v: nat :: k <= v < PAGES ==> Lookup(m, d, v) == 0
  }

  /**
    From page `k` on, directory `d` translates by what its tables, which follow
    it in memory and are not cleared, held when memory was `m0`.
   */
  ghost predicate StaleBeyond(m0: Memory, m: Memory, d: nat, k: nat) {
    && FullSize(m0) && FullSize(m) && d + SLOTS < PAGES
    && forall v: nat :: k <= v < PAGES ==> Lookup(m, d, v) == StaleEntry(m0, d, k, v)
  }

  ghost function StaleEntry(m0: Memory, d: nat, k: nat, v: nat): nat
    requires FullSize(m0) && d + SLOTS < PAGES && v < PAGES
  {
    if Covers(v / SLOTS, k) then Word(m0, d + 1 + v / SLOTS, v % SLOTS) else 0
  }

  /** The last sixteen words of `page` are zero: in the fourth table, the slots of pages 0xFF0 to 0xFFF. */
  ghost predicate CleanEnd(m: Memory, page: nat) {
    && FullSize(m) && page < PAGES
    && forall i: nat :: KERNEL_PAGES % SLOTS <= i < SLOTS ==> Word(m, page, i) == 0
  }

  /** A copied mapping ends with the kernel's pages if and only if those words of its fourth table were zero. */
  lemma NothingBeyondExactly(m0: Memory, m: Memory, d: nat)
    requires StaleBeyond(m0, m, d, KERNEL_PAGES)
    ensures NothingBeyond(m, d, KERNEL_PAGES) <==> CleanEnd(m0, d + 4)
  {
    var page := d + 4;
    if NothingBeyond(m, d, KERNEL_PAGES) {
      forall i: nat | KERNEL_PAGES % SLOTS <= i < SLOTS ensures Word(m0, page, i) == 0 {
        var v := 3 * SLOTS + i;
        assert v / SLOTS == 3 && v % SLOTS == i;
        assert Lookup(m, d, v) == StaleEntry(m0, d, KERNEL_PAGES, v);
      }
    } else if CleanEnd(m0, page) {
      forall v: nat | KERNEL_PAGES <= v < PAGES ensures Lookup(m, d, v) == 0 {
        assert Lookup(m, d, v) == StaleEntry(m0, d, KERNEL_PAGES, v);
        if v / SLOTS == 3 {
          assert Word(m0, page, v % SLOTS) == 0;
        }
      }
    }
  }

  /** How far the copy into directory `d` has come since memory was `m0`. */
  ghost predicate Copied(m0: Memory, m: Memory, place: nat, l: Layout, d: nat, k: nat) {
    && SameBitmap(m0, m, l)
    && OthersSame(m0, m, l, d)
    && DirMapped(m, d, k)
    && FreshSame(m0, m, place)
    && StaleBeyond(m0, m, d, k)
  }

  /** Mapping page `k`, after its table was added if it was missing. */
  lemma CopyGrows(m: Memory, m1: Memory, m': Memory, l: Layout, d: nat, k: nat, entry: uint32)
    requires DirMapped(m, d, k) && IsDir(l, d) && k < KERNEL_PAGES
    requires if k % SLOTS != 0 then m1 == m
             else TableAdded(m, m1, l, d, k / SLOTS, entry) && SameElsewhere(m, m1, l, d, k / SLOTS)
    requires KernelTable(entry)
    requires EntrySet(m1, m', l, d, k, k * PAGE_SIZE + 3)
    requires SameTables(m1, m', l)
    ensures DirMapped(m', d, k + 1) && OthersSame(m, m', l, d)
  {
    CoversNext(k);
    forall v: nat | v < k + 1 ensures Lookup(m', d, v) == v * PAGE_SIZE + 3 {
      assert k % SLOTS == 0 && v < k ==> v / SLOTS != k / SLOTS;
    }
    forall t: nat | t < SLOTS
      ensures HasTable(m', d, t) == Covers(t, k + 1) && (Covers(t, k + 1) ==> KernelTable(Word(m', d, t)))
    {
      assert Word(m', d, t) == Word(m1, d, t);
      assert HasTable(m, d, t) == Covers(t, k);
      assert Covers(t, k + 1) == (Covers(t, k) || t == k / SLOTS);
    }
  }

  lemma CopiedAcross(m0: Memory, m: Memory, place: nat, l: Layout,
                     m': Memory, place': nat, l': Layout, d: nat, k: nat)
    requires Copied(m0, m, place, l, d, k) && place <= place'
    requires DirAdded(l, l', d) && l.bitmap == l'.bitmap
    requires SameBitmap(m, m', l') && OthersSame(m, m', l', d) && DirMapped(m', d, k + 1)
    requires FreshSame(m, m', place') && StaleBeyond(m0, m', d, k + 1)
    ensures Copied(m0, m', place', l', d, k + 1)
  {
  }

  /** What lies beyond page `k` after it was mapped, through a table added to page `table` if `k` starts a new one. */
  lemma StaleNext(m0: Memory, m: Memory, m1: Memory, m': Memory, l: Layout, d: nat, k: nat)
    requires StaleBeyond(m0, m, d, k) && IsDir(l, d) && k < KERNEL_PAGES
    requires if k % SLOTS != 0 then m1 == m
             else && SameElsewhere(m, m1, l, d, k / SLOTS) && TableShows(m, m1, d, k / SLOTS, d + 1 + k / SLOTS)
                  && PageSame(m0, m, d + 1 + k / SLOTS)
    requires EntrySet(m1, m', l, d, k, k * PAGE_SIZE + 3)
    ensures StaleBeyond(m0, m', d, k + 1)
  {
    CoversNext(k);
    forall v: nat | k + 1 <= v < PAGES ensures Lookup(m', d, v) == StaleEntry(m0, d, k + 1, v) {
      assert Lookup(m', d, v) == Lookup(m1, d, v);
      assert Covers(v / SLOTS, k + 1) == (Covers(v / SLOTS, k) || v / SLOTS == k / SLOTS);
      assert Lookup(m, d, v) == StaleEntry(m0, d, k, v);
    }
  }

  /** The kernel directory's gain is exactly the identity page if its table was there or is made of a clean page. */
  lemma FrameAdded(m: Memory, m1: Memory, m': Memory, l: Layout, addr: uint32, page: nat, entry: nat)
    requires Shape(m1, l) && FullSize(m) && page < PAGES
    requires if HasTable(m, l.kernel, addr / PAGE_SIZE / SLOTS) then m1 == m
             else SameElsewhere(m, m1, l, l.kernel, addr / PAGE_SIZE / SLOTS)
                  && TableShows(m, m1, l.kernel, addr / PAGE_SIZE / SLOTS, page)
    requires TableAdded(m, m1, l, l.kernel, addr / PAGE_SIZE / SLOTS, entry) && SameTables(m1, m', l)
    requires Or(addr, 3) < TWO32
    requires if Present(Lookup(m1, l.kernel, addr / PAGE_SIZE)) then m' == m1
             else EntrySet(m1, m', l, l.kernel, addr / PAGE_SIZE, Or(addr, 3))
    ensures OthersSame(m, m', l, l.kernel) && PresentKept(m, m', l.kernel, PAGES)
    ensures TableAdded(m, m', l, l.kernel, addr / PAGE_SIZE / SLOTS, entry)
    ensures IdentityAdded(m, m', l.kernel, addr) <==>
            HasTable(m, l.kernel, addr / PAGE_SIZE / SLOTS) || CleanFor(m, page, addr)
  {
    var k, f := l.kernel, addr / PAGE_SIZE;
    var t := f / SLOTS;
    if HasTable(m, k, t) {
      assert IdentityAdded(m, m', k, addr);
    } else if CleanFor(m, page, addr) {
      forall v: nat | v < PAGES ensures Lookup(m', k, v) == IdentityEntry(m, k, addr, v) {
        if v / SLOTS == t {
          assert CleanSlot(Word(m, page, v % SLOTS), v % SLOTS == f % SLOTS, addr);
          assert v % SLOTS == f % SLOTS ==> v == f;
        }
      }
    } else {
      var i: nat :| i < SLOTS && !CleanSlot(Word(m, page, i), i == f % SLOTS, addr);
      var v := t * SLOTS + i;
      assert v / SLOTS == t && v % SLOTS == i;
      assert Lookup(m1, k, v) == Word(m, page, i);
      assert Lookup(m', k, v) != IdentityEntry(m, k, addr, v);
    }
  }

  lemma EmptyDirectory(m: Memory, m': Memory, l: Layout, d: nat)
    requires Shape(m, l) && d < KERNEL_PAGES && d !in l.roles && FullSize(m')
    requires forall p: nat, i: nat :: p < PAGES && i < SLOTS ==> Word(m', p, i) == if p == d then 0 else Word(m, p, i)
    ensures var l' := l.(roles := l.roles[d := Directory]);
            && Shape(m', l') && SameBitmap(m, m', l') && OthersSame(m, m', l', d)
            && DirMapped(m', d, 0) && StaleBeyond(m, m', d, 0)
  {
    var l' := l.(roles := l.roles[d := Directory]);
    BitmapApart(m, m', l, d);
    forall i | 0 <= i < BITMAP_PAGES ensures BitmapPage(l', i) {
      assert BitmapPage(l, i);
    }
    forall d': nat, t: nat | IsDir(l', d') && t < SLOTS && HasTable(m', d', t)
      ensures Owned(l', TableOf(m', d', t), d', t)
    {
      assert HasTable(m, d', t) && Owned(l, TableOf(m, d', t), d', t);
    }
    forall d': nat, v: nat | IsDir(l, d') && v < PAGES ensures Lookup(m', d', v) == Lookup(m, d', v) {
      if HasTable(m, d', v / SLOTS) {
        assert Owned(l, TableOf(m, d', v / SLOTS), d', v / SLOTS);
      }
    }
  }

  class Pager {
    const mem: array<uint32>
    /** place_addr: where the bump allocator stands. */
    var place: nat
    var kernelDirectory: nat
    var frames: nat
    ghost var layout: Layout

    ghost predicate Valid()
      reads this, mem
    {
      && mem.Length == PAGES * SLOTS
      && Shape(mem[..], layout)
      && kernelDirectory == layout.kernel * PAGE_SIZE
      && frames == layout.bitmap * PAGE_SIZE
      && layout.bitmap + BITMAP_PAGES <= KERNEL_PAGES
      && place <= KERNEL_MEM_END
      && forall p: nat :: p in layout.roles ==> (p + 1) * PAGE_SIZE <= place
    }

    // ----- Words of memory

    method Poke(p: nat, i: nat, x: uint32)
      requires mem.Length == PAGES * SLOTS && p < PAGES && i < SLOTS
      modifies mem
      ensures mem[..] == Set(old(mem[..]), p, i, x)
    {
      mem[p * SLOTS + i] := x;
    }

    /** memset of one page to zero */
    method ZeroPage(p: nat)
      requires mem.Length == PAGES * SLOTS && p < PAGES
      modifies mem
      ensures forall p': nat, i: nat :: p' < PAGES && i < SLOTS ==>
                Word(mem[..], p', i) == if p' == p then 0 else Word(old(mem[..]), p', i)
    {
      for k := 0 to SLOTS
        invariant forall p': nat, i: nat :: p' < PAGES && i < SLOTS ==>
                    Word(mem[..], p', i) == if p' == p && i < k then 0 else Word(old(mem[..]), p', i)
      {
        Poke(p, k, 0);
      }
    }

    // ----- The bump allocator

    /** kmalloc_all; the address it stores through its third argument, if that is not null, is `phys`. */
    method KmallocAll(size: uint32, align: bool, wantPhys: bool) returns (addr: uint32, phys: Option<uint32>)
      requires place < TWO32
      modifies `place
      ensures addr == if align then Wrap(AlignUp(old(place))) else old(place)
      ensures place == Wrap(addr + size)
      ensures phys == if wantPhys then Some(addr) else None
    {
      if align {
        ghost var raw := place;
        while place % PAGE_SIZE != 0
          invariant old(place) <= raw <= AlignUp(old(place)) && place == Wrap(raw)
          decreases AlignUp(old(place)) - raw
        {
          WrapNext(raw);
          place := Wrap(place + 1);
          raw := raw + 1;
        }
      }
      phys := if wantPhys then Some(place) else None;
      addr := place;
      place := Wrap(place + size);
    }

    /** kmalloc_a */
    method KmallocA(size: uint32) returns (addr: uint32)
      requires AlignUp(place) + size < TWO32
      modifies `place
      ensures addr == AlignUp(old(place)) && place == addr + size
    {
      var phys;
      addr, phys := KmallocAll(size, true, false);
    }

    /** kmalloc */
    method Kmalloc(size: uint32) returns (addr: uint32)
      requires place + size < TWO32
      modifies `place
      ensures addr == old(place) && place == addr + size
    {
      var phys;
      addr, phys := KmallocAll(size, false, false);
    }

    // ----- The frame bitmap

    method FirstFreeFrame() returns (r: Option<nat>)
      requires Valid()
      ensures match r
              case None => AllInUse(mem[..], layout.bitmap)
              case Some(a) => a % PAGE_SIZE == 0 && IsFirstFree(mem[..], layout.bitmap, a / PAGE_SIZE)
    {
      ghost var b := layout.bitmap;
      var i := 0;
      while i < BITMAP_PAGES * SLOTS
        invariant 0 <= i <= BITMAP_PAGES * SLOTS
        invariant UsedBelow(mem[..], b, i * 32)
      {
        WordFrom(mem[..], b, i);
        var w := mem[frames / 4 + i];
        var j := FirstClearBit(w);
        WordScanned(mem[..], b, i, w, j);
        if j < 32 {
          FrameStart(i * 32 + j);
          return Some((i * 32 + j) * PAGE_SIZE);
        }
        i := i + 1;
      }
      return None;
    }

    /** write_bitset */
    method WriteBitset(physAddr: uint32, on: bool)
      requires Valid()
      modifies mem
      ensures Valid()
      ensures forall g: nat :: g < PAGES ==>
                InUse(mem[..], layout.bitmap, g) ==
                if g == physAddr / PAGE_SIZE then on else InUse(old(mem[..]), layout.bitmap, g)
      ensures SameTranslations(old(mem[..]), mem[..], layout)
      ensures SameTables(old(mem[..]), mem[..], layout)
      ensures FreshSame(old(mem[..]), mem[..], place)
    {
      var f := physAddr / PAGE_SIZE;
      MarkFrame(mem[..], layout, f, on);
      var i := f / 32;
      var w := mem[frames / 4 + i];
      assert w == Word(mem[..], layout.bitmap + i / SLOTS, i % SLOTS);
      assert BitmapPage(layout, i / SLOTS);
      BitWrittenBound(w, f % 32);
      var w' := if on then Or(w, Pow2(f % 32)) else And(w, 0xFFFF_FFFF - Pow2(f % 32));
      Poke(frames / PAGE_SIZE + i / SLOTS, i % SLOTS, w');
    }

    /** get_bitset */
    method GetBitset(physAddr: nat) returns (bit: nat)
      requires Valid() && physAddr < TWO32
      ensures bit == if InUse(mem[..], layout.bitmap, physAddr / PAGE_SIZE) then 1 else 0
    {
      var f := physAddr / PAGE_SIZE;
      var w := mem[frames / 4 + f / 32];
      assert w == Word(mem[..], layout.bitmap + f / 32 / SLOTS, f / 32 % SLOTS);
      BitExtract(w, f % 32);
      bit := And(w, Pow2(f % 32)) / Pow2(f % 32);
    }

    // ----- Page tables

    /** A missing table is allocated, entered in the directory and, where the code does so, cleared. */
    method AddTable(dir: nat, t: nat, flags: nat, align: bool, clear: bool)
      requires Valid() && IsDir(layout, dir / PAGE_SIZE) && dir % PAGE_SIZE == 0 && t < SLOTS
      requires !HasTable(mem[..], dir / PAGE_SIZE, t)
      requires flags < 8 && flags % 2 == 1
      requires TableAddr(place, align) + PAGE_SIZE <= KERNEL_MEM_END
      modifies mem, `place, `layout
      ensures Valid()
      ensures place == TableAddr(old(place), align) + PAGE_SIZE
      ensures align || old(place) % PAGE_SIZE == 0 ==> place % PAGE_SIZE == 0
      ensures OnlyTablesAdded(old(layout), layout)
      ensures TableAdded(old(mem[..]), mem[..], layout, dir / PAGE_SIZE, t, Or(TableAddr(old(place), align), flags))
      ensures SameBitmap(old(mem[..]), mem[..], layout)
      ensures SameElsewhere(old(mem[..]), mem[..], layout, dir / PAGE_SIZE, t)
      ensures clear ==> SameTranslations(old(mem[..]), mem[..], layout)
      ensures !clear ==>
                TableShows(old(mem[..]), mem[..], dir / PAGE_SIZE, t, TableAddr(old(place), align) / PAGE_SIZE)
      // Off a page boundary, part of this page was handed out before.
      ensures TableOf(mem[..], dir / PAGE_SIZE, t) == TableAddr(old(place), align) / PAGE_SIZE
      ensures clear ==> forall i: nat :: i < SLOTS ==> Word(mem[..], TableAddr(old(place), align) / PAGE_SIZE, i) == 0
      ensures FreshSame(old(mem[..]), mem[..], place)
    {
      var addr;
      if align { addr := KmallocA(PAGE_SIZE); } else { addr := Kmalloc(PAGE_SIZE); }
      ghost var d, table := dir / PAGE_SIZE, addr / PAGE_SIZE;
      FreshPage(layout, old(place), addr);
      EntryWord(addr, flags);
      var entry := Or(addr, flags);
      AddressPart(entry);
      InstallTable(dir, t, entry, And(entry, 0xFFFF_F000), clear);
      TableLinked(old(mem[..]), mem[..], layout, d, t, table, entry, clear);
      layout := layout.(roles := layout.roles[table := Table(d, t)]);
    }

    method InstallTable(dir: nat, t: nat, entry: uint32, table: nat, clear: bool)
      requires mem.Length == PAGES * SLOTS && dir < TWO32 && t < SLOTS && table < TWO32
      requires dir / PAGE_SIZE != table / PAGE_SIZE
      modifies mem
      ensures TableInstalled(old(mem[..]), mem[..], dir / PAGE_SIZE, t, table / PAGE_SIZE, entry, clear)
    {
      Poke(dir / PAGE_SIZE, t, entry);
      if clear {
        ZeroPage(table / PAGE_SIZE);
      }
    }

    /** Entry `x` goes into the table that already serves `vaddr`. */
    method SetEntry(dir: nat, vaddr: uint32, x: uint32)
      requires Valid() && IsDir(layout, dir / PAGE_SIZE) && dir % PAGE_SIZE == 0
      requires HasTable(mem[..], dir / PAGE_SIZE, vaddr / PAGE_SIZE / SLOTS)
      modifies mem
      ensures Valid()
      ensures EntrySet(old(mem[..]), mem[..], layout, dir / PAGE_SIZE, vaddr / PAGE_SIZE, x)
      ensures SameTables(old(mem[..]), mem[..], layout)
      ensures SameBitmap(old(mem[..]), mem[..], layout)
      ensures FreshSame(old(mem[..]), mem[..], place)
    {
      var v := vaddr / PAGE_SIZE;
      var dirEntry := mem[dir / 4 + v / SLOTS];
      ghost var d := dir / PAGE_SIZE;
      assert dirEntry == Word(mem[..], d, v / SLOTS);
      AddressPart(dirEntry);
      assert Owned(layout, TableOf(mem[..], d, v / SLOTS), d, v / SLOTS);
      WriteEntry(mem[..], layout, d, v, x);
      Poke(And(dirEntry, 0xFFFF_F000) / PAGE_SIZE, v % SLOTS, x);
    }

    method GetPage(dir: nat, vaddr: uint32) returns (entry: uint32)
      requires Valid() && IsDir(layout, dir / PAGE_SIZE) && dir % PAGE_SIZE == 0
      // Without a table it is a word of the page the cleared entry names.
      ensures var v := vaddr / PAGE_SIZE;
              entry == Word(mem[..], TableOf(mem[..], dir / PAGE_SIZE, v / SLOTS), v % SLOTS)
      ensures HasTable(mem[..], dir / PAGE_SIZE, vaddr / PAGE_SIZE / SLOTS) ==>
                entry == Lookup(mem[..], dir / PAGE_SIZE, vaddr / PAGE_SIZE)
    {
      var v := vaddr / PAGE_SIZE;
      var dirEntry := mem[dir / 4 + v / SLOTS];
      assert dirEntry == Word(mem[..], dir / PAGE_SIZE, v / SLOTS);
      AddressPart(dirEntry);
      entry := mem[And(dirEntry, 0xFFFF_F000) / 4 + v % SLOTS];
    }

    method AddFrameToKernelDir(frameAddr: uint32)
      requires Valid()
      requires !HasTable(mem[..], layout.kernel, frameAddr / PAGE_SIZE / SLOTS) ==>
                 AlignUp(place) + PAGE_SIZE <= KERNEL_MEM_END
      modifies mem, `place, `layout
      ensures Valid() && OnlyTablesAdded(old(layout), layout)
      ensures place == if HasTable(old(mem[..]), layout.kernel, frameAddr / PAGE_SIZE / SLOTS)
                       then old(place) else AlignUp(old(place)) + PAGE_SIZE
      ensures place >= old(place) && (place == old(place) || place % PAGE_SIZE == 0)
      ensures SameBitmap(old(mem[..]), mem[..], layout)
      ensures OthersSame(old(mem[..]), mem[..], layout, layout.kernel)
      ensures PresentKept(old(mem[..]), mem[..], layout.kernel, PAGES)
      ensures IdentityAdded(old(mem[..]), mem[..], layout.kernel, frameAddr) <==>
              HasTable(old(mem[..]), layout.kernel, frameAddr / PAGE_SIZE / SLOTS)
              || CleanFor(old(mem[..]), AlignUp(old(place)) / PAGE_SIZE, frameAddr)
      ensures TableAdded(old(mem[..]), mem[..], layout, layout.kernel, frameAddr / PAGE_SIZE / SLOTS,
                         Or(AlignUp(old(place)), 3))
      ensures FreshSame(old(mem[..]), mem[..], place)
    {
      SupplyTable(kernelDirectory, frameAddr / PAGE_SIZE / SLOTS);
      ghost var m := mem[..];
      AddIdentityPage(frameAddr);
      FrameAdded(old(mem[..]), m, mem[..], layout, frameAddr, AlignUp(old(place)) / PAGE_SIZE,
                 Or(AlignUp(old(place)), 3));
    }

    /** Directory `dir` has a table for slot `t` afterwards; a new one is not cleared. */
    method SupplyTable(dir: nat, t: nat)
      requires Valid() && IsDir(layout, dir / PAGE_SIZE) && dir % PAGE_SIZE == 0 && t < SLOTS
      requires !HasTable(mem[..], dir / PAGE_SIZE, t) ==> AlignUp(place) + PAGE_SIZE <= KERNEL_MEM_END
      modifies mem, `place, `layout
      ensures Valid() && OnlyTablesAdded(old(layout), layout) && SameBitmap(old(mem[..]), mem[..], layout)
      ensures HasTable(mem[..], dir / PAGE_SIZE, t)
      ensures TableAdded(old(mem[..]), mem[..], layout, dir / PAGE_SIZE, t, Or(AlignUp(old(place)), 3))
      ensures FreshSame(old(mem[..]), mem[..], place)
      ensures if HasTable(old(mem[..]), dir / PAGE_SIZE, t) then mem[..] == old(mem[..]) && place == old(place)
              else
                && place == AlignUp(old(place)) + PAGE_SIZE
                && SameElsewhere(old(mem[..]), mem[..], layout, dir / PAGE_SIZE, t)
                && TableShows(old(mem[..]), mem[..], dir / PAGE_SIZE, t, AlignUp(old(place)) / PAGE_SIZE)
    {
      var dirEntry := mem[dir / 4 + t];
      assert dirEntry == Word(mem[..], dir / PAGE_SIZE, t);
      PresentBit(dirEntry);
      OrHalves(AlignUp(place), 3);
      if And(dirEntry, 1) == 0 {
        AddTable(dir, t, 3, true, false);
      }
    }

    /** A page the kernel directory shows as present already is left alone. */
    method AddIdentityPage(frameAddr: uint32)
      requires Valid() && HasTable(mem[..], layout.kernel, frameAddr / PAGE_SIZE / SLOTS)
      modifies mem
      ensures Valid() && SameBitmap(old(mem[..]), mem[..], layout) && FreshSame(old(mem[..]), mem[..], place)
      ensures Or(frameAddr, 3) < TWO32 && SameTables(old(mem[..]), mem[..], layout)
      ensures if Present(Lookup(old(mem[..]), layout.kernel, frameAddr / PAGE_SIZE)) then mem[..] == old(mem[..])
              else EntrySet(old(mem[..]), mem[..], layout, layout.kernel, frameAddr / PAGE_SIZE, Or(frameAddr, 3))
    {
      var entry := GetPage(kernelDirectory, frameAddr);
      PresentBit(entry);
      EntryWord(frameAddr, 3);
      if And(entry, 1) == 0 {
        SetEntry(kernelDirectory, frameAddr, Or(frameAddr, 3));
      }
    }

    /** A 32-bit read at any byte address, as the processor does it across two words; memory ends where it begins. */
    method ReadAt(a: uint32) returns (x: uint32)
      requires mem.Length == PAGES * SLOTS
      ensures x == BytesFrom(mem[a / 4], mem[(a / 4 + 1) % mem.Length], a % 4)
    {
      var lo, hi := mem[a / 4], mem[(a / 4 + 1) % mem.Length];
      x := BytesFrom(lo, hi, a % 4);
    }

    /**
      free_page. The address it reads from still carries the flags of the
      directory entry; of the word found only the low twelve bits are kept. So
      whatever page is named, it is frame 0 that is marked free.
     */
    method FreePage(dir: nat, vaddr: uint32)
      requires Valid() && IsDir(layout, dir / PAGE_SIZE) && dir % PAGE_SIZE == 0
      modifies mem
      ensures Valid()
      ensures forall g: nat :: g < PAGES ==>
                InUse(mem[..], layout.bitmap, g) == (g != 0 && InUse(old(mem[..]), layout.bitmap, g))
      ensures IsFirstFree(mem[..], layout.bitmap, 0)
      ensures SameTranslations(old(mem[..]), mem[..], layout)
    {
      var v := vaddr / PAGE_SIZE;
      var table := mem[dir / 4 + v / SLOTS];
      var word := ReadAt(Wrap(table + 4 * (v % SLOTS)));
      LowPart(word);
      WriteBitset(And(word, 0xFFF), false);
    }

    // ----- Setting up

    method ZeroPages(p: nat, n: nat)
      requires mem.Length == PAGES * SLOTS && p + n <= PAGES
      modifies mem
      ensures forall p': nat, i: nat :: p' < PAGES && i < SLOTS ==>
                Word(mem[..], p', i) == if p <= p' < p + n then 0 else Word(old(mem[..]), p', i)
    {
      for k := 0 to n
        invariant forall p': nat, i: nat :: p' < PAGES && i < SLOTS ==>
                    Word(mem[..], p', i) == if p <= p' < p + k then 0 else Word(old(mem[..]), p', i)
      {
        ZeroPage(p + k);
      }
    }

    /** The first half of `init_paging`: an empty kernel directory and an empty bitmap. */
    constructor (mem: array<uint32>, placeAddr: nat)
      requires mem.Length == PAGES * SLOTS
      requires AlignUp(placeAddr) + (1 + BITMAP_PAGES) * PAGE_SIZE <= KERNEL_MEM_END
      modifies mem
      ensures Valid() && this.mem == mem
      ensures place == AlignUp(placeAddr) + (1 + BITMAP_PAGES) * PAGE_SIZE
      ensures KernelMapped(mem[..], layout, 0)
      ensures FreshSame(old(mem[..]), mem[..], place)
    {
      this.mem, this.place, this.kernelDirectory, this.frames := mem, placeAddr, 0, 0;
      this.layout := Layout(map[], 0, 0);
      new;
      kernelDirectory := KmallocA(PAGE_SIZE);
      frames := KmallocA(BITMAP_PAGES * PAGE_SIZE);
      ghost var k := kernelDirectory / PAGE_SIZE;
      ZeroPages(kernelDirectory / PAGE_SIZE, 1);
      ZeroPages(frames / PAGE_SIZE, BITMAP_PAGES);
      layout := EmptyLayout(k);
      EmptyStructures(mem[..], k);
    }

    /** init_paging; installing the directory and turning paging on are left to the hardware. */
    static method InitPaging(mem: array<uint32>, placeAddr: nat) returns (p: Pager)
      requires mem.Length == PAGES * SLOTS
      requires AlignUp(placeAddr) + (1 + BITMAP_PAGES + 4) * PAGE_SIZE <= KERNEL_MEM_END
      modifies mem
      ensures p.Valid() && p.mem == mem && fresh(p)
      ensures KernelMapped(mem[..], p.layout, KERNEL_PAGES)
      ensures p.place == AlignUp(placeAddr) + (1 + BITMAP_PAGES + 4) * PAGE_SIZE && p.place % PAGE_SIZE == 0
      ensures ClosedToUsers(mem[..], p.layout.kernel, KERNEL_PAGES)
      ensures FreshSame(old(mem[..]), mem[..], p.place)
    {
      p := new Pager(mem, placeAddr);
      p.MapKernel();
      KernelClosed(mem[..], p.layout.kernel, KERNEL_PAGES);
    }

    /** The rest of `init_paging`: the kernel's own pages, each taken by an ordinary `alloc_page`. */
    method MapKernel()
      requires Valid() && KernelMapped(mem[..], layout, 0)
      requires place % PAGE_SIZE == 0 && place + 4 * PAGE_SIZE <= KERNEL_MEM_END
      modifies mem, `place, `layout
      ensures Valid() && KernelMapped(mem[..], layout, KERNEL_PAGES)
      ensures place == old(place) + 4 * PAGE_SIZE && place % PAGE_SIZE == 0
      ensures FreshSame(old(mem[..]), mem[..], place)
    {
      var i := 0;
      ghost var k, tables := 0, 0;
      while i < KERNEL_MEM_END
        invariant i == k * PAGE_SIZE && k <= KERNEL_PAGES
        invariant Valid() && KernelMapped(mem[..], layout, k)
        invariant place == old(place) + tables * PAGE_SIZE && (tables - 1) * SLOTS < k <= tables * SLOTS
        invariant FreshSame(old(mem[..]), mem[..], place)
      {
        MapKernelPage(i, k);
        if k % SLOTS == 0 { tables := tables + 1; }
        i := i + PAGE_SIZE;
        k := k + 1;
      }
    }

    method MapKernelPage(i: nat, ghost k: nat)
      requires Valid() && KernelMapped(mem[..], layout, k)
      requires k < KERNEL_PAGES && i == k * PAGE_SIZE && place % PAGE_SIZE == 0
      requires k % SLOTS == 0 ==> place + PAGE_SIZE <= KERNEL_MEM_END
      modifies mem, `place, `layout
      ensures Valid() && KernelMapped(mem[..], layout, k + 1)
      ensures place == old(place) + if k % SLOTS == 0 then PAGE_SIZE else 0
      ensures FreshSame(old(mem[..]), mem[..], place)
    {
      FirstFreeIs(mem[..], layout, k);
      CoversNext(k);
      assert HasTable(mem[..], layout.kernel, k / SLOTS) == (k % SLOTS != 0);
      var r := AllocPage(kernelDirectory, i, true, true);
      assert r == Allocated(i);
      WithFlags(i, 3);
      LowBits(AlignUp(old(place)), 3);
      KernelGrows(old(mem[..]), mem[..], layout, k, Or(AlignUp(old(place)), 3));
    }

    // ----- New directories

    method NewKernelMappedDir() returns (dir: nat)
      requires Valid() && AlignUp(place) + 5 * PAGE_SIZE <= KERNEL_MEM_END
      modifies mem, `place, `layout
      ensures Valid() && dir % PAGE_SIZE == 0
      ensures !IsDir(old(layout), dir / PAGE_SIZE) && DirAdded(old(layout), layout, dir / PAGE_SIZE)
      ensures SameBitmap(old(mem[..]), mem[..], layout)
      ensures OthersSame(old(mem[..]), mem[..], layout, dir / PAGE_SIZE)
      ensures DirMapped(mem[..], dir / PAGE_SIZE, KERNEL_PAGES)
      ensures ClosedToUsers(mem[..], dir / PAGE_SIZE, KERNEL_PAGES)
      ensures NothingBeyond(mem[..], dir / PAGE_SIZE, KERNEL_PAGES) <==> CleanEnd(old(mem[..]), dir / PAGE_SIZE + 4)
      ensures dir == AlignUp(old(place)) && place == AlignUp(old(place)) + 5 * PAGE_SIZE
      ensures FreshSame(old(mem[..]), mem[..], place)
    {
      dir := NewDirectory();
      CopyKernelMapping(dir, old(mem[..]), old(layout));
      NothingBeyondExactly(old(mem[..]), mem[..], dir / PAGE_SIZE);
      KernelClosed(mem[..], dir / PAGE_SIZE, KERNEL_PAGES);
    }

    /** The loop of `get_new_kernel_mapped_dir`. */
    method CopyKernelMapping(dir: nat, ghost m0: Memory, ghost l0: Layout)
      requires Valid() && dir % PAGE_SIZE == 0 && place == dir + PAGE_SIZE
      requires place + 4 * PAGE_SIZE <= KERNEL_MEM_END
      requires DirAdded(l0, layout, dir / PAGE_SIZE)
      requires Copied(m0, mem[..], place, layout, dir / PAGE_SIZE, 0)
      modifies mem, `place, `layout
      ensures Valid() && DirAdded(l0, layout, dir / PAGE_SIZE)
      ensures place == old(place) + 4 * PAGE_SIZE
      ensures Copied(m0, mem[..], place, layout, dir / PAGE_SIZE, KERNEL_PAGES)
    {
      var i := 0;
      ghost var d, k, tables := dir / PAGE_SIZE, 0, 0;
      while i < KERNEL_MEM_END
        invariant i == k * PAGE_SIZE && k <= KERNEL_PAGES
        invariant Valid() && DirAdded(l0, layout, d)
        invariant place == old(place) + tables * PAGE_SIZE && (tables - 1) * SLOTS < k <= tables * SLOTS
        invariant Copied(m0, mem[..], place, layout, d, k)
      {
        ghost var m, l, p := mem[..], layout, place;
        MapIdentityPage(dir, i, m0, k);
        CopiedAcross(m0, m, p, l, mem[..], place, layout, d, k);
        TablesFor(k, tables);
        if k % SLOTS == 0 { tables := tables + 1; }
        i := i + PAGE_SIZE;
        k := k + 1;
      }
    }

    method NewDirectory() returns (dir: nat)
      requires Valid() && AlignUp(place) + PAGE_SIZE <= KERNEL_MEM_END
      modifies mem, `place, `layout
      ensures Valid() && dir % PAGE_SIZE == 0
      ensures !IsDir(old(layout), dir / PAGE_SIZE) && DirAdded(old(layout), layout, dir / PAGE_SIZE)
      ensures place == AlignUp(old(place)) + PAGE_SIZE
      ensures SameBitmap(old(mem[..]), mem[..], layout)
      ensures OthersSame(old(mem[..]), mem[..], layout, dir / PAGE_SIZE)
      ensures DirMapped(mem[..], dir / PAGE_SIZE, 0) && StaleBeyond(old(mem[..]), mem[..], dir / PAGE_SIZE, 0)
      ensures dir == AlignUp(old(place))
      ensures FreshSame(old(mem[..]), mem[..], place)
    {
      dir := KmallocA(PAGE_SIZE);
      FreshPage(layout, old(place), dir);
      ZeroPage(dir / PAGE_SIZE);
      EmptyDirectory(old(mem[..]), mem[..], layout, dir / PAGE_SIZE);
      layout := layout.(roles := layout.roles[dir / PAGE_SIZE := Directory]);
    }

    /** One turn of the loop that copies the kernel's mapping. */
    method MapIdentityPage(dir: nat, i: nat, ghost m0: Memory, ghost k: nat)
      requires Valid() && IsDir(layout, dir / PAGE_SIZE) && dir % PAGE_SIZE == 0
      requires k < KERNEL_PAGES && i == k * PAGE_SIZE && place % PAGE_SIZE == 0
      requires DirMapped(mem[..], dir / PAGE_SIZE, k) && StaleBeyond(m0, mem[..], dir / PAGE_SIZE, k)
      requires FreshSame(m0, mem[..], place)
      requires k % SLOTS == 0 ==>
                 place + PAGE_SIZE <= KERNEL_MEM_END && place / PAGE_SIZE == dir / PAGE_SIZE + 1 + k / SLOTS
      modifies mem, `place, `layout
      ensures Valid() && OnlyTablesAdded(old(layout), layout)
      ensures place == old(place) + if k % SLOTS == 0 then PAGE_SIZE else 0
      ensures SameBitmap(old(mem[..]), mem[..], layout)
      ensures OthersSame(old(mem[..]), mem[..], layout, dir / PAGE_SIZE)
      ensures DirMapped(mem[..], dir / PAGE_SIZE, k + 1) && StaleBeyond(m0, mem[..], dir / PAGE_SIZE, k + 1)
      ensures FreshSame(old(mem[..]), mem[..], place)
    {
      CoversNext(k);
      assert HasTable(mem[..], dir / PAGE_SIZE, k / SLOTS) <==> k % SLOTS != 0;
      LowBits(place, 3);
      FrameStart(k);
      SupplyTable(dir, i / PAGE_SIZE / SLOTS);
      ghost var m := mem[..];
      WithFlags(i, 3);
      SetEntry(dir, i, Or(i, 3));
      CopyGrows(old(mem[..]), m, mem[..], layout, dir / PAGE_SIZE, k, Or(old(place), 3));
      StaleNext(m0, old(mem[..]), m, mem[..], layout, dir / PAGE_SIZE, k);
    }

    // ----- Allocating pages

    /** Kernel memory is left for the tables that mapping frame `f` at `vaddr` under `dir` needs. */
    ghost predicate Room(dir: nat, vaddr: uint32, f: nat)
      requires Valid() && IsDir(layout, dir / PAGE_SIZE) && f < PAGES
      reads this, mem
    {
      && AfterTable(dir, vaddr) <= KERNEL_MEM_END
      && (dir == kernelDirectory || HasTable(mem[..], layout.kernel, f / SLOTS)
          || AlignUp(AfterTable(dir, vaddr)) + PAGE_SIZE <= KERNEL_MEM_END)
    }

    /** Where the bump allocator stands once `dir` has a table for `vaddr`. */
    ghost function AfterTable(dir: nat, vaddr: uint32): nat
      requires Valid() && IsDir(layout, dir / PAGE_SIZE)
      reads this, mem
    {
      if HasTable(mem[..], dir / PAGE_SIZE, vaddr / PAGE_SIZE / SLOTS) then place
      else TableAddr(place, dir == kernelDirectory) + PAGE_SIZE
    }

    /** If the kernel directory needs a table for the frame, there is room for it. */
    ghost predicate KernelReady(dir: nat, frame: uint32)
      requires Valid()
      reads this, mem
    {
      dir != kernelDirectory && !HasTable(mem[..], layout.kernel, frame / PAGE_SIZE / SLOTS) ==>
        AlignUp(place) + PAGE_SIZE <= KERNEL_MEM_END
    }

    /** The directory entry of a table made for `dir` now. */
    ghost function TableEntry(dir: nat, writeable: bool, kernel: bool): nat
      reads this
    {
      Or(TableAddr(place, dir == kernelDirectory), Flags(writeable, kernel))
    }

    /** The fresh page that becomes the kernel's table for the frame, should it need one. */
    ghost function KernelTablePage(dir: nat, vaddr: uint32): nat
      requires Valid() && IsDir(layout, dir / PAGE_SIZE)
      reads this, mem
    {
      AlignUp(AfterTable(dir, vaddr)) / PAGE_SIZE
    }

    /** No table is needed for frame `f`, or that page has not been handed out. */
    ghost predicate TableFresh(dir: nat, vaddr: uint32, f: nat)
      requires Valid() && IsDir(layout, dir / PAGE_SIZE) && f < PAGES
      reads this, mem
    {
      || dir == kernelDirectory || HasTable(mem[..], layout.kernel, f / SLOTS)
      || (place <= KernelTablePage(dir, vaddr) * PAGE_SIZE && KernelTablePage(dir, vaddr) < KERNEL_PAGES)
    }

    lemma RoomIsFresh(dir: nat, vaddr: uint32)
      requires Valid() && IsDir(layout, dir / PAGE_SIZE)
      ensures forall f: nat :: f < PAGES && Room(dir, vaddr, f) ==> TableFresh(dir, vaddr, f)
    {
      var x := AfterTable(dir, vaddr);
      assert AlignUp(x) == AlignUp(x) / PAGE_SIZE * PAGE_SIZE;
    }

    /** The frame at `addr` is the one `alloc_page_pr` takes when asked for `physAddr`. */
    ghost predicate Chosen(dir: nat, vaddr: uint32, physAddr: uint32, addr: nat)
      requires Valid() && IsDir(layout, dir / PAGE_SIZE)
      reads this, mem
    {
      if HasTable(mem[..], dir / PAGE_SIZE, vaddr / PAGE_SIZE / SLOTS) then addr == physAddr
      else addr % PAGE_SIZE == 0 && IsFirstFree(mem[..], layout.bitmap, addr / PAGE_SIZE)
    }

    lemma SomeChoice(dir: nat, vaddr: uint32, physAddr: uint32)
      requires Valid() && IsDir(layout, dir / PAGE_SIZE)
      requires !InUse(mem[..], layout.bitmap, physAddr / PAGE_SIZE)
      ensures exists addr: uint32 :: Chosen(dir, vaddr, physAddr, addr)
    {
      var g := FirstFreeExists(mem[..], layout.bitmap, physAddr / PAGE_SIZE);
      var addr: uint32 := g * PAGE_SIZE;
      assert addr / PAGE_SIZE == g;
      assert Chosen(dir, vaddr, physAddr, addr) || Chosen(dir, vaddr, physAddr, physAddr);
    }

    method AllocPagePr(dir: nat, vaddr: uint32, physAddr: uint32, writeable: bool, kernel: bool)
      returns (r: AllocResult)
      requires Valid() && IsDir(layout, dir / PAGE_SIZE) && dir % PAGE_SIZE == 0
      requires !InUse(mem[..], layout.bitmap, physAddr / PAGE_SIZE) ==>
                 forall addr: uint32 :: Chosen(dir, vaddr, physAddr, addr) ==> Room(dir, vaddr, addr / PAGE_SIZE)
      modifies mem, `place, `layout
      ensures Valid() && OnlyTablesAdded(old(layout), layout)
      ensures r == NotFree <==> InUse(old(mem[..]), layout.bitmap, physAddr / PAGE_SIZE)
      ensures r == NotFree ==> mem[..] == old(mem[..]) && place == old(place) && layout == old(layout)
      ensures r != Halted
      ensures r.Allocated? ==>
                && r.addr < TWO32 && old(Chosen(dir, vaddr, physAddr, r.addr))
                && FrameTaken(old(mem[..]), mem[..], layout, r.addr / PAGE_SIZE)
                && Or(r.addr, Flags(writeable, kernel)) < TWO32
                && AllocEffect(old(mem[..]), mem[..], layout, dir / PAGE_SIZE, vaddr / PAGE_SIZE,
                               Or(r.addr, Flags(writeable, kernel)), r.addr, old(KernelTablePage(dir, vaddr)))
                && (dir == kernelDirectory ==>
                      KernelTableSupplied(old(mem[..]), mem[..], layout, vaddr, Flags(writeable, kernel),
                                          old(place), place))
                && TablesGrown(old(mem[..]), mem[..], layout, dir / PAGE_SIZE, vaddr / PAGE_SIZE / SLOTS,
                               old(TableEntry(dir, writeable, kernel)))
                && RightsGiven(old(mem[..]), mem[..], dir / PAGE_SIZE, vaddr / PAGE_SIZE, r.addr,
                               TableAddr(old(place), dir == kernelDirectory), writeable, kernel)
                && RightsKept(old(mem[..]), mem[..], layout, dir / PAGE_SIZE, vaddr / PAGE_SIZE)
      ensures place >= old(place) && FreshSame(old(mem[..]), mem[..], place)
      ensures old(place) % PAGE_SIZE == 0 ==> place % PAGE_SIZE == 0
    {
      var taken := GetBitset(physAddr);
      if taken != 0 { return NotFree; }
      var frame := TakeFrame(dir, vaddr, physAddr, writeable, kernel);
      ghost var m', d, v := mem[..], dir / PAGE_SIZE, vaddr / PAGE_SIZE;
      ghost var table := TableAddr(old(place), dir == kernelDirectory);
      EntryGives(old(mem[..]), m', layout, d, v, frame, table, writeable, kernel);
      EffectKeepsRights(old(mem[..]), m', layout, d, v, Or(frame, Flags(writeable, kernel)), frame,
                        old(KernelTablePage(dir, vaddr)), Or(table, Flags(writeable, kernel)));
      r := Allocated(frame);
    }

    /** What follows the test for a free frame. */
    method TakeFrame(dir: nat, vaddr: uint32, physAddr: uint32, writeable: bool, kernel: bool)
      returns (frame: uint32)
      requires Valid() && IsDir(layout, dir / PAGE_SIZE) && dir % PAGE_SIZE == 0
      requires !InUse(mem[..], layout.bitmap, physAddr / PAGE_SIZE)
      requires forall addr: uint32 :: Chosen(dir, vaddr, physAddr, addr) ==> Room(dir, vaddr, addr / PAGE_SIZE)
      modifies mem, `place, `layout
      ensures Valid() && OnlyTablesAdded(old(layout), layout)
      ensures old(Chosen(dir, vaddr, physAddr, frame))
      ensures FrameTaken(old(mem[..]), mem[..], layout, frame / PAGE_SIZE)
      ensures Or(frame, Flags(writeable, kernel)) < TWO32
      ensures AllocEffect(old(mem[..]), mem[..], layout, dir / PAGE_SIZE, vaddr / PAGE_SIZE,
                          Or(frame, Flags(writeable, kernel)), frame, old(KernelTablePage(dir, vaddr)))
      ensures TablesGrown(old(mem[..]), mem[..], layout, dir / PAGE_SIZE, vaddr / PAGE_SIZE / SLOTS,
                          old(TableEntry(dir, writeable, kernel)))
      ensures HasTable(mem[..], dir / PAGE_SIZE, vaddr / PAGE_SIZE / SLOTS)
      ensures dir == kernelDirectory ==>
                KernelTableSupplied(old(mem[..]), mem[..], layout, vaddr, Flags(writeable, kernel),
                                          old(place), place)
      ensures place >= old(place) && FreshSame(old(mem[..]), mem[..], place)
      ensures old(place) % PAGE_SIZE == 0 ==> place % PAGE_SIZE == 0
    {
      SomeChoice(dir, vaddr, physAddr);
      frame := ChooseFrame(dir, vaddr, physAddr, writeable, kernel);
      ghost var m, l, page := mem[..], layout, AlignUp(place) / PAGE_SIZE;
      assert KernelReady(dir, frame) by { assert old(Room(dir, vaddr, frame / PAGE_SIZE)); }
      ghost var entry := old(TableEntry(dir, writeable, kernel));
      MapFrame(dir, vaddr, frame, writeable, kernel, entry);
      EffectAcross(old(mem[..]), m, l, mem[..], layout, dir / PAGE_SIZE, vaddr / PAGE_SIZE,
                   Or(frame, Flags(writeable, kernel)), frame, page, entry);
      GrownAcross(old(mem[..]), m, l, mem[..], layout, dir / PAGE_SIZE, vaddr / PAGE_SIZE / SLOTS, entry);
    }

    /** A missing table is supplied; the frame asked for is then forgotten in favour of the first free one. */
    method ChooseFrame(dir: nat, vaddr: uint32, physAddr: uint32, writeable: bool, kernel: bool)
      returns (frame: uint32)
      requires Valid() && IsDir(layout, dir / PAGE_SIZE) && dir % PAGE_SIZE == 0
      requires !InUse(mem[..], layout.bitmap, physAddr / PAGE_SIZE)
      requires AfterTable(dir, vaddr) <= KERNEL_MEM_END
      modifies mem, `place, `layout
      ensures Valid() && OnlyTablesAdded(old(layout), layout)
      ensures HasTable(mem[..], dir / PAGE_SIZE, vaddr / PAGE_SIZE / SLOTS)
      ensures TableAdded(old(mem[..]), mem[..], layout, dir / PAGE_SIZE, vaddr / PAGE_SIZE / SLOTS,
                         old(TableEntry(dir, writeable, kernel)))
      ensures SameBitmap(old(mem[..]), mem[..], layout)
      ensures SameTranslations(old(mem[..]), mem[..], layout)
      ensures !InUse(mem[..], layout.bitmap, frame / PAGE_SIZE) && old(Chosen(dir, vaddr, physAddr, frame))
      ensures place == old(AfterTable(dir, vaddr))
      ensures FreshSame(old(mem[..]), mem[..], place)
      ensures AlignUp(place) + PAGE_SIZE <= KERNEL_MEM_END ==>
                PageSame(old(mem[..]), mem[..], AlignUp(place) / PAGE_SIZE)
      ensures old(place) % PAGE_SIZE == 0 ==> place % PAGE_SIZE == 0
      ensures old(Room(dir, vaddr, frame / PAGE_SIZE)) ==> KernelReady(dir, frame)
    {
      frame := physAddr;
      var t := vaddr / PAGE_SIZE / SLOTS;
      var dirEntry := mem[dir / 4 + t];
      assert dirEntry == Word(mem[..], dir / PAGE_SIZE, t);
      PresentBit(dirEntry);
      if And(dirEntry, 1) == 0 {
        AddTable(dir, t, Flags(writeable, kernel), dir == kernelDirectory, true);
        var free := FirstFreeFrame();
        frame := free.value;
      }
    }

    /** The entry is written, the frame marked and, for a process, mapped in the kernel directory too. */
    method MapFrame(dir: nat, vaddr: uint32, frame: uint32, writeable: bool, kernel: bool, ghost entry: nat)
      requires Valid() && IsDir(layout, dir / PAGE_SIZE) && dir % PAGE_SIZE == 0
      requires HasTable(mem[..], dir / PAGE_SIZE, vaddr / PAGE_SIZE / SLOTS)
      requires KernelReady(dir, frame)
      modifies mem, `place, `layout
      ensures Valid() && OnlyTablesAdded(old(layout), layout)
      ensures FrameTaken(old(mem[..]), mem[..], layout, frame / PAGE_SIZE)
      ensures Or(frame, Flags(writeable, kernel)) < TWO32
      ensures AllocEffect(old(mem[..]), mem[..], layout, dir / PAGE_SIZE, vaddr / PAGE_SIZE,
                          Or(frame, Flags(writeable, kernel)), frame, AlignUp(old(place)) / PAGE_SIZE)
      ensures FreshSame(old(mem[..]), mem[..], place)
      ensures place >= old(place) && (old(place) % PAGE_SIZE == 0 ==> place % PAGE_SIZE == 0)
      ensures dir == kernelDirectory ==> place == old(place) && SameTables(old(mem[..]), mem[..], layout)
      ensures TablesGrown(old(mem[..]), mem[..], layout, dir / PAGE_SIZE, vaddr / PAGE_SIZE / SLOTS, entry)
    {
      EntryWord(frame, Flags(writeable, kernel));
      SetEntry(dir, vaddr, Or(frame, Flags(writeable, kernel)));
      WriteBitset(frame, true);
      if dir != kernelDirectory {
        ghost var m := mem[..];
        AddFrameToKernelDir(frame);
        ghost var page := AlignUp(old(place)) / PAGE_SIZE;
        assert HasTable(m, layout.kernel, frame / PAGE_SIZE / SLOTS) || PageSame(old(mem[..]), m, page);
        EffectOfBoth(old(mem[..]), m, mem[..], layout, dir / PAGE_SIZE, vaddr / PAGE_SIZE,
                     Or(frame, Flags(writeable, kernel)), frame, page);
        LowBits(AlignUp(old(place)), 3);
        KernelGrown(old(mem[..]), m, mem[..], layout, dir / PAGE_SIZE, vaddr / PAGE_SIZE / SLOTS, entry,
                    frame / PAGE_SIZE / SLOTS, Or(AlignUp(old(place)), 3));
      }
    }

    method AllocPage(dir: nat, vaddr: uint32, writeable: bool, kernel: bool) returns (r: AllocResult)
      requires Valid() && IsDir(layout, dir / PAGE_SIZE) && dir % PAGE_SIZE == 0
      requires forall f: nat :: IsFirstFree(mem[..], layout.bitmap, f) ==> Room(dir, vaddr, f)
      modifies mem, `place, `layout
      ensures Valid() && OnlyTablesAdded(old(layout), layout)
      ensures r.Halted? || r.Allocated?
      ensures r == Halted ==>
                && AllInUse(old(mem[..]), layout.bitmap)
                && mem[..] == old(mem[..]) && place == old(place) && layout == old(layout)
      ensures r.Allocated? ==>
                && r.addr < TWO32 && r.addr % PAGE_SIZE == 0
                && IsFirstFree(old(mem[..]), layout.bitmap, r.addr / PAGE_SIZE)
                && old(TableFresh(dir, vaddr, r.addr / PAGE_SIZE))
                && FrameTaken(old(mem[..]), mem[..], layout, r.addr / PAGE_SIZE)
                && r.addr + Flags(writeable, kernel) < TWO32
                && AllocEffect(old(mem[..]), mem[..], layout, dir / PAGE_SIZE, vaddr / PAGE_SIZE,
                               r.addr + Flags(writeable, kernel), r.addr, old(KernelTablePage(dir, vaddr)))
                && (dir == kernelDirectory ==>
                      KernelTableSupplied(old(mem[..]), mem[..], layout, vaddr, Flags(writeable, kernel),
                                          old(place), place))
                && TablesGrown(old(mem[..]), mem[..], layout, dir / PAGE_SIZE, vaddr / PAGE_SIZE / SLOTS,
                               old(TableEntry(dir, writeable, kernel)))
                && AccessGiven(old(mem[..]), mem[..], dir / PAGE_SIZE, vaddr / PAGE_SIZE, writeable, kernel)
                && RightsKept(old(mem[..]), mem[..], layout, dir / PAGE_SIZE, vaddr / PAGE_SIZE)
      ensures place >= old(place) && FreshSame(old(mem[..]), mem[..], place)
      ensures old(place) % PAGE_SIZE == 0 ==> place % PAGE_SIZE == 0
    {
      var free := FirstFreeFrame();
      if free.None? { return Halted; }
      RoomIsFresh(dir, vaddr);
      r := AllocPagePr(dir, vaddr, free.value, writeable, kernel);
      WithFlags(r.addr, Flags(writeable, kernel));
      AlignedGives(old(mem[..]), mem[..], dir / PAGE_SIZE, vaddr / PAGE_SIZE, r.addr,
                   TableAddr(old(place), dir == kernelDirectory), writeable, kernel);
    }
  }
}
