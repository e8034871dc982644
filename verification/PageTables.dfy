/**
  Two-level page tables and the frame bitmap as they lie in physical memory,
  read as 32-bit words grouped into pages of 1024. Directories and tables are
  named by page number.
 */
module PageTables {
  import opened Words
  import opened Bits

  const SLOTS: nat := 1024
  const PAGES: nat := 0x10_0000
  /** KERNEL_MEM_END / PAGE_SIZE */
  const KERNEL_PAGES: nat := 0xFF0
  const BITMAP_PAGES: nat := 32

  type Memory = seq<uint32>

  ghost predicate FullSize(m: Memory) { |m| == PAGES * SLOTS }

  function Word(m: Memory, p: nat, i: nat): uint32
    requires FullSize(m) && p < PAGES && i < SLOTS
  {
    m[p * SLOTS + i]
  }

  function Set(m: Memory, p: nat, i: nat, x: uint32): (m': Memory)
    requires FullSize(m) && p < PAGES && i < SLOTS
    ensures FullSize(m')
    ensures forall p', i' :: 0 <= p' < PAGES && 0 <= i' < SLOTS ==>
              Word(m', p', i') == if p' == p && i' == i then x else Word(m, p', i')
  {
    m[p * SLOTS + i := x]
  }

  // ----- Reading the tables

  predicate HasTable(m: Memory, d: nat, t: nat)
    requires FullSize(m) && d < PAGES && t < SLOTS
  {
    Word(m, d, t) % 2 == 1
  }

  function TableOf(m: Memory, d: nat, t: nat): (p: nat)
    requires FullSize(m) && d < PAGES && t < SLOTS
    ensures p < PAGES
  {
    Word(m, d, t) / PAGE_SIZE
  }

  /** The entry that translates page `v` under directory `d`; zero, hence not present, without a table. */
  function Lookup(m: Memory, d: nat, v: nat): uint32
    requires FullSize(m) && d < PAGES && v < PAGES
  {
    if HasTable(m, d, v / SLOTS) then Word(m, TableOf(m, d, v / SLOTS), v % SLOTS) else 0
  }

  predicate Present(entry: uint32) { entry % 2 == 1 }

  function FrameOf(entry: uint32): nat { entry / PAGE_SIZE }

  /**
    The processor allows an access only if the entries of both levels do: bit
    `k` of the directory entry and of the table entry that translate page `v`.
   */
  predicate Granted(m: Memory, d: nat, v: nat, k: nat)
    requires FullSize(m) && d < PAGES && v < PAGES
  {
    Present(Lookup(m, d, v)) && Bit(Word(m, d, v / SLOTS), k) && Bit(Lookup(m, d, v), k)
  }

  predicate Writeable(m: Memory, d: nat, v: nat)
    requires FullSize(m) && d < PAGES && v < PAGES
  {
    Granted(m, d, v, 1)
  }

  /** Page `v` may be accessed in user mode. */
  predicate UserAccess(m: Memory, d: nat, v: nat)
    requires FullSize(m) && d < PAGES && v < PAGES
  {
    Granted(m, d, v, 2)
  }

  /** Bit `f` of the frame bitmap that starts at page `b`. */
  predicate InUse(m: Memory, b: nat, f: nat)
    requires FullSize(m) && b + BITMAP_PAGES <= PAGES && f < PAGES
  {
    Bit(Word(m, b + f / 32 / SLOTS, f / 32 % SLOTS), f % 32)
  }

  // ----- Who owns which page

  datatype Role = Directory | Bitmap | Table(dir: nat, index: nat)

  datatype Layout = Layout(roles: map<nat, Role>, kernel: nat, bitmap: nat)

  ghost predicate IsDir(l: Layout, d: nat) {
    d in l.roles && l.roles[d] == Directory
  }

  /** Every structure sits in kernel memory, and every table belongs to one slot of one directory. */
  ghost predicate Shape(m: Memory, l: Layout) {
    && FullSize(m)
    && (forall p :: p in l.roles ==> p < KERNEL_PAGES)
    && IsDir(l, l.kernel)
    && (forall i :: 0 <= i < BITMAP_PAGES ==> BitmapPage(l, i))
    && (forall d: nat, t: nat :: IsDir(l, d) && t < SLOTS && HasTable(m, d, t) ==> Owned(l, TableOf(m, d, t), d, t))
  }

  ghost predicate BitmapPage(l: Layout, i: nat) {
    l.bitmap + i in l.roles && l.roles[l.bitmap + i] == Bitmap
  }

  ghost predicate Owned(l: Layout, p: nat, d: nat, t: nat) {
    p in l.roles && l.roles[p] == Table(d, t)
  }

  lemma ShapeBitmap(m: Memory, l: Layout)
    requires Shape(m, l)
    ensures l.bitmap + BITMAP_PAGES <= KERNEL_PAGES
  {
    assert BitmapPage(l, BITMAP_PAGES - 1);
  }

  // ----- What a write does to the translations

  /** Writing one entry of an existing table changes one translation and nothing else. */
  lemma WriteEntry(m: Memory, l: Layout, d: nat, v: nat, x: uint32)
    requires Shape(m, l) && IsDir(l, d) && v < PAGES && HasTable(m, d, v / SLOTS)
    ensures var m' := Set(m, TableOf(m, d, v / SLOTS), v % SLOTS, x);
            && Shape(m', l)
            && (forall d': nat, v': nat :: IsDir(l, d') && v' < PAGES ==>
                  Lookup(m', d', v') == if d' == d && v' == v then x else Lookup(m, d', v'))
            && SameTables(m, m', l)
            && SameBitmap(m, m', l)
  {
    var table := TableOf(m, d, v / SLOTS);
    var m' := Set(m, table, v % SLOTS, x);
    assert Owned(l, table, d, v / SLOTS);
    assert SameTables(m, m', l);
    ShapeKept(m, m', l);
    forall d': nat, v': nat | IsDir(l, d') && v' < PAGES
      ensures Lookup(m', d', v') == if d' == d && v' == v then x else Lookup(m, d', v')
    {
      if HasTable(m, d', v' / SLOTS) {
        assert Owned(l, TableOf(m, d', v' / SLOTS), d', v' / SLOTS);
        assert v == v / SLOTS * SLOTS + v % SLOTS && v' == v' / SLOTS * SLOTS + v' % SLOTS;
      }
    }
    assert SameBitmap(m, m', l) by { BitmapApart(m, m', l, table); }
  }

  lemma ShapeKept(m: Memory, m': Memory, l: Layout)
    requires Shape(m, l) && SameTables(m, m', l)
    ensures Shape(m', l)
  {
    forall d: nat, t: nat | IsDir(l, d) && t < SLOTS && HasTable(m', d, t)
      ensures Owned(l, TableOf(m', d, t), d, t)
    {
      assert Word(m', d, t) == Word(m, d, t) && HasTable(m, d, t);
    }
  }

  /** The directories of `l` have the same tables in both memories. */
  ghost predicate SameTables(m: Memory, m': Memory, l: Layout) {
    && FullSize(m) && FullSize(m')
    && forall d: nat, t: nat :: IsDir(l, d) && d < PAGES && t < SLOTS ==> Word(m', d, t) == Word(m, d, t)
  }

  ghost predicate SameBitmap(m: Memory, m': Memory, l: Layout) {
    && FullSize(m) && FullSize(m') && l.bitmap + BITMAP_PAGES <= PAGES
    && forall f :: 0 <= f < PAGES ==> InUse(m', l.bitmap, f) == InUse(m, l.bitmap, f)
  }

  /** Writes confined to one page that is not part of the bitmap leave the bitmap alone. */
  lemma BitmapApart(m: Memory, m': Memory, l: Layout, p: nat)
    requires Shape(m, l) && FullSize(m')
    requires p in l.roles ==> l.roles[p] != Bitmap
    requires forall p', i :: 0 <= p' < PAGES && 0 <= i < SLOTS && p' != p ==> Word(m', p', i) == Word(m, p', i)
    ensures SameBitmap(m, m', l)
  {
    ShapeBitmap(m, l);
    forall f | 0 <= f < PAGES ensures InUse(m', l.bitmap, f) == InUse(m, l.bitmap, f) {
      assert BitmapPage(l, f / 32 / SLOTS);
    }
  }

  /**
    Giving directory `d` a table in a page nobody owns. Translations under
    that slot become whatever the page holds; all others stay.
   */
  lemma LinkTable(m: Memory, m': Memory, l: Layout, d: nat, t: nat, table: nat)
    requires Shape(m, l) && IsDir(l, d) && t < SLOTS && !HasTable(m, d, t)
    requires table < KERNEL_PAGES && table !in l.roles
    requires FullSize(m') && HasTable(m', d, t) && TableOf(m', d, t) == table
    requires forall p, i :: 0 <= p < PAGES && 0 <= i < SLOTS && p != table && !(p == d && i == t) ==>
               Word(m', p, i) == Word(m, p, i)
    ensures var l' := l.(roles := l.roles[table := Table(d, t)]);
            && Shape(m', l')
            && SameBitmap(m, m', l)
            && (forall d': nat, v': nat :: IsDir(l, d') && v' < PAGES ==>
                  Lookup(m', d', v') == if d' == d && v' / SLOTS == t then Word(m', table, v' % SLOTS)
                                        else Lookup(m, d', v'))
  {
    var l' := l.(roles := l.roles[table := Table(d, t)]);
    forall i | 0 <= i < BITMAP_PAGES ensures BitmapPage(l', i) {
      assert BitmapPage(l, i);
    }
    forall d': nat, t': nat | IsDir(l', d') && t' < SLOTS && HasTable(m', d', t')
      ensures Owned(l', TableOf(m', d', t'), d', t')
    {
      if !(d' == d && t' == t) {
        assert HasTable(m, d', t');
        assert Owned(l, TableOf(m, d', t'), d', t');
      }
    }
    forall d': nat, v': nat | IsDir(l, d') && v' < PAGES && !(d' == d && v' / SLOTS == t)
      ensures Lookup(m', d', v') == Lookup(m, d', v')
    {
      if HasTable(m, d', v' / SLOTS) {
        assert Owned(l, TableOf(m, d', v' / SLOTS), d', v' / SLOTS);
      }
    }
    LinkKeepsBitmap(m, m', l, d, t, table);
  }

  lemma LinkKeepsBitmap(m: Memory, m': Memory, l: Layout, d: nat, t: nat, table: nat)
    requires Shape(m, l) && IsDir(l, d) && t < SLOTS && table !in l.roles && FullSize(m')
    requires forall p, i :: 0 <= p < PAGES && 0 <= i < SLOTS && p != table && !(p == d && i == t) ==>
               Word(m', p, i) == Word(m, p, i)
    ensures SameBitmap(m, m', l)
  {
    ShapeBitmap(m, l);
    forall f | 0 <= f < PAGES ensures InUse(m', l.bitmap, f) == InUse(m, l.bitmap, f) {
      assert BitmapPage(l, f / 32 / SLOTS);
    }
  }

  /** Any write to the bitmap leaves directories, tables and translations as they are. */
  lemma BitmapWrite(m: Memory, l: Layout, f: nat, w: uint32)
    requires Shape(m, l) && f < PAGES && l.bitmap + BITMAP_PAGES <= PAGES
    ensures var m' := Set(m, l.bitmap + f / 32 / SLOTS, f / 32 % SLOTS, w);
            Shape(m', l) && SameTranslations(m, m', l) && SameTables(m, m', l)
  {
    var m' := Set(m, l.bitmap + f / 32 / SLOTS, f / 32 % SLOTS, w);
    assert BitmapPage(l, f / 32 / SLOTS);
    assert SameTables(m, m', l);
    ShapeKept(m, m', l);
    forall d: nat, v: nat | IsDir(l, d) && v < PAGES ensures Lookup(m', d, v) == Lookup(m, d, v) {
      if HasTable(m, d, v / SLOTS) {
        assert Owned(l, TableOf(m, d, v / SLOTS), d, v / SLOTS);
      }
    }
  }

  /** The bitmap word of frame `f` after `write_bitset`. */
  function BitWritten(w: uint32, f: nat, on: bool): uint32 {
    BitWrittenBound(w, f % 32);
    if on then Or(w, Pow2(f % 32)) else And(w, 0xFFFF_FFFF - Pow2(f % 32))
  }

  lemma BitWrittenBound(w: uint32, j: nat)
    requires j < 32
    ensures Pow2(j) <= 0xFFFF_FFFF && Or(w, Pow2(j)) < TWO32 && And(w, 0xFFFF_FFFF - Pow2(j)) < TWO32
  {
    Powers();
    Pow2Bound(j, 32);
    OrBound(w, Pow2(j), 32);
    AndBound(w, 0xFFFF_FFFF - Pow2(j));
  }

  lemma BitWrittenAt(w: uint32, f: nat, on: bool, k: nat)
    requires k < 32
    ensures Bit(BitWritten(w, f, on), k) == if k == f % 32 then on else Bit(w, k)
  {
    var j := f % 32;
    BitWrittenBound(w, j);
    Pow2Bit(j, k);
    if on {
      OrBit(w, Pow2(j), k);
    } else {
      assert Pow2(32) == TWO32 by { Powers(); }
      ComplementBit(32, Pow2(j), k);
      AndBit(w, 0xFFFF_FFFF - Pow2(j), k);
    }
  }

  /** Writing the bit of frame `f` puts it among the used frames or takes it out, and changes no translation. */
  lemma MarkFrame(m: Memory, l: Layout, f: nat, on: bool)
    requires Shape(m, l) && f < PAGES && l.bitmap + BITMAP_PAGES <= PAGES
    ensures var p, i := l.bitmap + f / 32 / SLOTS, f / 32 % SLOTS;
            var m' := Set(m, p, i, BitWritten(Word(m, p, i), f, on));
            && Shape(m', l)
            && (forall g :: 0 <= g < PAGES ==> InUse(m', l.bitmap, g) == if g == f then on else InUse(m, l.bitmap, g))
            && SameTranslations(m, m', l)
            && SameTables(m, m', l)
  {
    var p, i := l.bitmap + f / 32 / SLOTS, f / 32 % SLOTS;
    var m' := Set(m, p, i, BitWritten(Word(m, p, i), f, on));
    BitmapWrite(m, l, f, BitWritten(Word(m, p, i), f, on));
    forall g | 0 <= g < PAGES ensures InUse(m', l.bitmap, g) == if g == f then on else InUse(m, l.bitmap, g) {
      SameFrame(f, g);
      BitWrittenAt(Word(m, p, i), f, on, g % 32);
      var p', i' := l.bitmap + g / 32 / SLOTS, g / 32 % SLOTS;
      assert Word(m', p', i') == if p' == p && i' == i then BitWritten(Word(m, p, i), f, on) else Word(m, p', i');
    }
  }

  ghost predicate SameTranslations(m: Memory, m': Memory, l: Layout) {
    && FullSize(m) && FullSize(m')
    && forall d: nat, v: nat :: IsDir(l, d) && d < PAGES && v < PAGES ==> Lookup(m', d, v) == Lookup(m, d, v)
  }

  lemma SameFrame(f: nat, g: nat)
    ensures f / 32 / SLOTS == g / 32 / SLOTS && f / 32 % SLOTS == g / 32 % SLOTS && f % 32 == g % 32 <==> f == g
  {
  }

  lemma {:induction false} Pow2Bound(j: nat, n: nat)
    requires j < n
    ensures Pow2(j) < Pow2(n)
    decreases n
  {
    if j < n - 1 {
      Pow2Bound(j, n - 1);
    }
  }
}
