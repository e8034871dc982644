/**
  The boot loader's ELF segment loader: the file image lies in a buffer at
  0xA000 and its segments are copied to their physical addresses. Addresses are
  32-bit and wrap.
 */
module ElfLoader {
  import opened Words
  import opened LittleEndian

  const BUFFER: nat := 0xA000
  /** KERNEL_SECS_TO_LOAD sectors of 512 bytes. */
  const BUFFER_SIZE: nat := 0x1_0000
  const MAGIC: byte := 0x7F
  const PT_NULL: uint32 := 0
  const PHDR_SIZE: nat := 32

  type Memory = seq<byte>

  ghost predicate Whole(m: Memory) { |m| == TWO32 }

  /** The `n` bytes from address `a` on. */
  function Bytes(m: Memory, a: int, n: nat): (s: seq<byte>)
    requires Whole(m)
    ensures |s| == n && forall i :: 0 <= i < n ==> s[i] == m[Wrap(a + i)]
  {
    seq(n, i => m[Wrap(a + i)])
  }

  /** The little-endian 16-bit number at offset `i`. */
  function Half(s: seq<byte>, i: nat): uint16
    requires i + 2 <= |s|
  {
    s[i] as int + 0x100 * (s[i + 1] as int)
  }

  /** The little-endian 32-bit number at offset `i`. */
  function Word(s: seq<byte>, i: nat): uint32
    requires i + 4 <= |s|
  {
    s[i] as int + 0x100 * (s[i + 1] as int) + 0x1_0000 * (s[i + 2] as int) + 0x100_0000 * (s[i + 3] as int)
  }

  /** The fields of an `Elf32_Phdr` that the loader uses. */
  datatype Segment = Segment(kind: uint32, offset: uint32, paddr: uint32, filesz: uint32, memsz: uint32)

  function Decode(s: seq<byte>): Segment
    requires |s| == PHDR_SIZE
  {
    Segment(Word(s, 0), Word(s, 4), Word(s, 12), Word(s, 16), Word(s, 20))
  }

  function SegmentAt(m: Memory, a: int): Segment
    requires Whole(m)
  {
    Decode(Bytes(m, a, PHDR_SIZE))
  }

  /** Entry `i` of the header table at `table`. */
  function HeaderNo(m: Memory, table: int, i: nat): Segment
    requires Whole(m)
  {
    SegmentAt(m, table + i * PHDR_SIZE)
  }

  function ProgramHeaders(m: Memory): uint32
    requires Whole(m)
  {
    Wrap(BUFFER + Word(Bytes(m, BUFFER + 28, 4), 0))
  }

  function HeaderCount(m: Memory): uint16
    requires Whole(m)
  {
    Half(Bytes(m, BUFFER + 44, 2), 0)
  }

  // ----- What the loops do, byte by byte

  function Copied(m: Memory, dest: int, src: int, n: nat): (r: Memory)
    requires Whole(m)
    ensures Whole(r)
  {
    if n == 0 then m
    else
      var c := Copied(m, dest, src, n - 1);
      c[Wrap(dest + n - 1) := c[Wrap(src + n - 1)]]
  }

  function Zeroed(m: Memory, dest: int, n: nat): (r: Memory)
    requires Whole(m)
    ensures Whole(r)
  {
    if n == 0 then m else Zeroed(m, dest, n - 1)[Wrap(dest + n - 1) := 0]
  }

  function LoadSegment(m: Memory, s: Segment): (r: Memory)
    requires Whole(m)
    ensures Whole(r)
  {
    if s.kind == PT_NULL then m
    else
      var c := Copied(m, s.paddr, BUFFER + s.offset, s.filesz);
      if s.memsz > s.filesz then Zeroed(c, s.paddr + s.filesz, s.memsz - s.filesz) else c
  }

  /** The segment described by entry `i`, as it reads now. */
  function NextLoaded(m: Memory, table: int, i: nat): (r: Memory)
    requires Whole(m)
    ensures Whole(r)
  {
    LoadSegment(m, HeaderNo(m, table, i))
  }

  /** The first `k` entries of the table at `table`, each read when its turn comes. */
  function LoadFirst(m: Memory, table: int, k: nat): (r: Memory)
    requires Whole(m)
    ensures Whole(r)
  {
    if k == 0 then m
    else
      NextLoaded(LoadFirst(m, table, k - 1), table, k - 1)
  }

  method Memcpy(mem: array<byte>, dest: int, src: int, n: nat)
    requires mem.Length == TWO32
    modifies mem
    ensures mem[..] == Copied(old(mem[..]), dest, src, n)
  {
    for i := 0 to n
      invariant mem[..] == Copied(old(mem[..]), dest, src, i)
    {
      mem[Wrap(dest + i)] := mem[Wrap(src + i)];
    }
  }

  method ZeroFill(mem: array<byte>, dest: int, n: nat)
    requires mem.Length == TWO32
    modifies mem
    ensures mem[..] == Zeroed(old(mem[..]), dest, n)
  {
    for i := 0 to n
      invariant mem[..] == Zeroed(old(mem[..]), dest, i)
    {
      mem[Wrap(dest + i)] := 0;
    }
  }

  /** parse_ELF once the sectors have been read; refuses an image without the first magic byte. */
  method ParseElf(mem: array<byte>) returns (loaded: bool)
    requires mem.Length == TWO32
    modifies mem
    ensures loaded <==> old(mem[BUFFER]) == MAGIC
    ensures mem[..] == if loaded then LoadImage(old(mem[..])) else old(mem[..])
  {
    if mem[BUFFER] != MAGIC {
      return false;
    }
    LoadTable(mem, ProgramHeaders(mem[..]), HeaderCount(mem[..]));
    return true;
  }

  method LoadTable(mem: array<byte>, table: int, count: nat)
    requires mem.Length == TWO32
    modifies mem
    ensures mem[..] == LoadFirst(old(mem[..]), table, count)
  {
    for i := 0 to count
      invariant mem[..] == LoadFirst(old(mem[..]), table, i)
    {
      LoadFirstNext(old(mem[..]), table, i);
      LoadNext(mem, table, i);
    }
  }

  lemma LoadFirstNext(m: Memory, table: int, k: nat)
    requires Whole(m)
    ensures LoadFirst(m, table, k + 1) == NextLoaded(LoadFirst(m, table, k), table, k)
  {
  }

  method LoadNext(mem: array<byte>, table: int, i: nat)
    requires mem.Length == TWO32
    modifies mem
    ensures mem[..] == NextLoaded(old(mem[..]), table, i)
  {
    var s := HeaderNo(mem[..], table, i);
    Load(mem, s);
  }

  method Load(mem: array<byte>, s: Segment)
    requires mem.Length == TWO32
    modifies mem
    ensures mem[..] == LoadSegment(old(mem[..]), s)
  {
    if s.kind != PT_NULL {
      Memcpy(mem, s.paddr, BUFFER + s.offset, s.filesz);
      if s.memsz > s.filesz {
        ZeroFill(mem, s.paddr + s.filesz, s.memsz - s.filesz);
      }
    }
  }

  // ----- What the result looks like

  predicate InBuffer(a: int) { BUFFER <= a < BUFFER + BUFFER_SIZE }

  /** The addresses a segment writes. */
  predicate InTarget(s: Segment, a: int) {
    s.kind != PT_NULL && (s.paddr <= a < s.paddr + s.filesz || s.paddr <= a < s.paddr + s.memsz)
  }

  /** The header table as it reads in `m`. */
  function Headers(m: Memory): (segs: seq<Segment>)
    requires Whole(m)
    ensures |segs| == HeaderCount(m)
    ensures forall i :: 0 <= i < |segs| ==> segs[i] == HeaderNo(m, ProgramHeaders(m), i)
  {
    seq(HeaderCount(m), i requires i >= 0 => HeaderNo(m, ProgramHeaders(m), i))
  }

  ghost predicate Placed(s: Segment) {
    s.kind != PT_NULL ==>
      && s.offset + s.filesz <= BUFFER_SIZE
      && s.paddr + s.filesz <= TWO32 && s.paddr + s.memsz <= TWO32
      && forall a: int :: InTarget(s, a) ==> !InBuffer(a)
  }

  ghost predicate Apart(s: Segment, t: Segment) {
    forall a: int :: InTarget(s, a) ==> !InTarget(t, a)
  }

  /** Each segment's bytes lie in the buffer and its target outside it; no two targets meet. */
  ghost predicate WellPlaced(segs: seq<Segment>) {
    && (forall i :: 0 <= i < |segs| ==> Placed(segs[i]))
    && (forall i, j :: 0 <= i < j < |segs| ==> Apart(segs[i], segs[j]))
  }

  ghost predicate TableInBuffer(m: Memory) {
    && Whole(m)
    && BUFFER <= ProgramHeaders(m)
    && ProgramHeaders(m) + HeaderCount(m) * PHDR_SIZE <= BUFFER + BUFFER_SIZE
  }

  /** The segment is in place: its file bytes, then zeros up to its memory size. */
  ghost predicate InPlace(m: Memory, m': Memory, s: Segment)
    requires Whole(m) && Whole(m')
  {
    s.kind != PT_NULL && Placed(s) ==>
      && (forall a :: s.paddr <= a < s.paddr + s.filesz ==> m'[a] == m[BUFFER + s.offset + (a - s.paddr)])
      && (forall a :: s.paddr + s.filesz <= a < s.paddr + s.memsz ==> m'[a] == 0)
  }

  /** `r` is `m` with the `n` bytes at `src` also at `dest`. */
  ghost predicate IsCopy(m: Memory, r: Memory, dest: nat, src: nat, n: nat) {
    && Whole(m) && Whole(r) && dest + n <= TWO32 && src + n <= TWO32
    && (forall a :: dest <= a < dest + n ==> r[a] == m[src + (a - dest)])
    && (forall a :: 0 <= a < TWO32 && !(dest <= a < dest + n) ==> r[a] == m[a])
  }

  ghost predicate IsZeroed(m: Memory, r: Memory, dest: nat, n: nat) {
    && Whole(m) && Whole(r)
    && forall a :: 0 <= a < TWO32 ==> r[a] == if dest <= a < dest + n then 0 else m[a]
  }

  lemma {:induction false} CopiedBytes(m: Memory, dest: nat, src: nat, n: nat)
    requires Whole(m) && dest + n <= TWO32 && src + n <= TWO32
    requires dest + n <= src || src + n <= dest || n == 0
    ensures IsCopy(m, Copied(m, dest, src, n), dest, src, n)
    decreases n
  {
    if n > 0 {
      CopiedBytes(m, dest, src, n - 1);
      var c := Copied(m, dest, src, n - 1);
      assert c[src + n - 1] == m[src + n - 1];
    }
  }

  lemma {:induction false} ZeroedBytes(m: Memory, dest: nat, n: nat)
    requires Whole(m) && dest + n <= TWO32
    ensures IsZeroed(m, Zeroed(m, dest, n), dest, n)
    decreases n
  {
    if n > 0 {
      ZeroedBytes(m, dest, n - 1);
    }
  }

  /** One segment: it lands in place and no other byte moves. */
  lemma SegmentLoads(m: Memory, s: Segment)
    requires Whole(m) && Placed(s)
    ensures InPlace(m, LoadSegment(m, s), s)
    ensures Elsewhere(m, LoadSegment(m, s), s)
  {
    if s.kind != PT_NULL {
      var c := Copied(m, s.paddr, BUFFER + s.offset, s.filesz);
      assert IsCopy(m, c, s.paddr, BUFFER + s.offset, s.filesz) by {
        TargetApart(s);
        CopiedBytes(m, s.paddr, BUFFER + s.offset, s.filesz);
      }
      if s.memsz > s.filesz {
        ZeroedBytes(c, s.paddr + s.filesz, s.memsz - s.filesz);
        CopiedThenZeroed(m, c, LoadSegment(m, s), s);
      }
    }
  }

  lemma CopiedThenZeroed(m: Memory, c: Memory, r: Memory, s: Segment)
    requires Placed(s) && s.kind != PT_NULL && s.memsz > s.filesz
    requires IsCopy(m, c, s.paddr, BUFFER + s.offset, s.filesz)
    requires IsZeroed(c, r, s.paddr + s.filesz, s.memsz - s.filesz)
    ensures InPlace(m, r, s) && Elsewhere(m, r, s)
  {
  }

  /** Outside the segment's target nothing differs. */
  ghost predicate Elsewhere(m: Memory, r: Memory, s: Segment) {
    && Whole(m) && Whole(r)
    && forall a :: 0 <= a < TWO32 && !InTarget(s, a) ==> r[a] == m[a]
  }

  /** A target that misses the buffer lies wholly on one side of the bytes it is filled from. */
  lemma TargetApart(s: Segment)
    requires Placed(s) && s.kind != PT_NULL
    ensures s.filesz > 0 ==>
              s.paddr + s.filesz <= BUFFER + s.offset || BUFFER + s.offset + s.filesz <= s.paddr
  {
    if s.filesz > 0 {
      assert InTarget(s, s.paddr);
      assert s.paddr <= BUFFER < s.paddr + s.filesz ==> InTarget(s, BUFFER);
      assert InBuffer(BUFFER);
    }
  }

  function LoadList(m: Memory, segs: seq<Segment>): (r: Memory)
    requires Whole(m)
    ensures Whole(r)
    decreases |segs|
  {
    if segs == [] then m else LoadSegment(LoadList(m, segs[..|segs| - 1]), segs[|segs| - 1])
  }

  ghost predicate Targeted(segs: seq<Segment>, a: int) {
    exists i :: 0 <= i < |segs| && InTarget(segs[i], a)
  }

  ghost predicate BufferIntact(m: Memory, m': Memory) {
    Whole(m) && Whole(m') && forall a :: InBuffer(a) ==> m'[a] == m[a]
  }

  /** The buffer is intact, every segment of `segs` is in place, all other memory is as it was. */
  ghost predicate Loaded(m: Memory, m': Memory, segs: seq<Segment>) {
    && BufferIntact(m, m')
    && (forall i :: 0 <= i < |segs| ==> InPlace(m, m', segs[i]))
    && (forall a :: 0 <= a < TWO32 && !Targeted(segs, a) ==> m'[a] == m[a])
  }

  lemma {:induction false} ListLoads(m: Memory, segs: seq<Segment>)
    requires Whole(m) && WellPlaced(segs)
    ensures Loaded(m, LoadList(m, segs), segs)
    decreases |segs|
  {
    if segs != [] {
      var init, s := segs[..|segs| - 1], segs[|segs| - 1];
      ListLoads(m, init);
      SegmentLoads(LoadList(m, init), s);
      OneMore(m, LoadList(m, init), LoadList(m, segs), init, s);
      assert init + [s] == segs;
    }
  }

  lemma OneMore(m: Memory, c: Memory, r: Memory, init: seq<Segment>, s: Segment)
    requires Loaded(m, c, init) && Placed(s) && Whole(r)
    requires forall i :: 0 <= i < |init| ==> Apart(init[i], s)
    requires InPlace(c, r, s) && Elsewhere(c, r, s)
    ensures Loaded(m, r, init + [s])
  {
    var segs := init + [s];
    forall i | 0 <= i < |segs| ensures InPlace(m, r, segs[i]) {
      if i < |init| {
        assert segs[i] == init[i];
        EarlierKept(m, c, r, init[i], s);
      } else {
        LatestPlaced(m, c, r, s);
      }
    }
    forall a | 0 <= a < TWO32 && !Targeted(segs, a) ensures r[a] == m[a] {
      TargetedAppend(init, s, a);
    }
  }

  lemma TargetedAppend(init: seq<Segment>, s: Segment, a: int)
    ensures Targeted(init + [s], a) <==> Targeted(init, a) || InTarget(s, a)
  {
    var segs := init + [s];
    assert segs[|init|] == s;
    if Targeted(init, a) {
      var i :| 0 <= i < |init| && InTarget(init[i], a);
      assert segs[i] == init[i];
    }
  }

  lemma EarlierKept(m: Memory, c: Memory, r: Memory, t: Segment, s: Segment)
    requires Whole(m) && Whole(c) && Whole(r) && InPlace(m, c, t)
    requires Apart(t, s)
    requires Elsewhere(c, r, s)
    ensures InPlace(m, r, t)
  {
    if t.kind != PT_NULL && Placed(t) {
      forall a | t.paddr <= a < t.paddr + t.filesz ensures r[a] == m[BUFFER + t.offset + (a - t.paddr)] {
        assert InTarget(t, a);
      }
      forall a | t.paddr + t.filesz <= a < t.paddr + t.memsz ensures r[a] == 0 {
        assert InTarget(t, a);
      }
    }
  }

  lemma LatestPlaced(m: Memory, c: Memory, r: Memory, s: Segment)
    requires Whole(m) && Whole(c) && Whole(r) && InPlace(c, r, s)
    requires forall a :: InBuffer(a) ==> c[a] == m[a]
    ensures InPlace(m, r, s)
  {
    if s.kind != PT_NULL && Placed(s) {
      forall a | s.paddr <= a < s.paddr + s.filesz ensures r[a] == m[BUFFER + s.offset + (a - s.paddr)] {
        assert InBuffer(BUFFER + s.offset + (a - s.paddr));
      }
    }
  }

  /** `segs` is what the table at `table`, which lies in the buffer, reads as in `m`. */
  ghost predicate IsTable(m: Memory, table: nat, segs: seq<Segment>) {
    && Whole(m)
    && BUFFER <= table && table + |segs| * 32 <= BUFFER + BUFFER_SIZE
    && forall i :: 0 <= i < |segs| ==> segs[i] == HeaderNo(m, table, i)
  }

  /** Headers are read from the buffer, so while it is intact they read as they did at first. */
  lemma HeaderIntact(m: Memory, m': Memory, table: nat, segs: seq<Segment>, k: nat)
    requires IsTable(m, table, segs) && BufferIntact(m, m') && k < |segs|
    ensures HeaderNo(m', table, k) == segs[k]
  {
    SegmentSame(m, m', table + k * 32);
  }

  lemma SegmentSame(m: Memory, m': Memory, a: nat)
    requires BufferIntact(m, m') && BUFFER <= a && a + 32 <= BUFFER + BUFFER_SIZE
    ensures SegmentAt(m', a) == SegmentAt(m, a)
  {
    var s, s' := Bytes(m, a, PHDR_SIZE), Bytes(m', a, PHDR_SIZE);
    forall i | 0 <= i < PHDR_SIZE ensures s'[i] == s[i] {
      assert InBuffer(a + i);
    }
    assert s == s';
  }

  lemma PrefixIntact(m: Memory, segs: seq<Segment>, k: nat)
    requires Whole(m) && WellPlaced(segs) && k <= |segs|
    ensures BufferIntact(m, LoadList(m, segs[..k]))
  {
    ListLoads(m, segs[..k]);
  }

  lemma NextInList(m: Memory, c: Memory, segs: seq<Segment>, k: nat)
    requires Whole(m) && k < |segs| && c == LoadList(m, segs[..k])
    ensures LoadSegment(c, segs[k]) == LoadList(m, segs[..k + 1])
  {
    assert segs[..k + 1][..k] == segs[..k] && segs[..k + 1][k] == segs[k];
  }

  lemma NextInTable(m: Memory, c: Memory, table: int, segs: seq<Segment>, k: nat)
    requires Whole(m) && k < |segs|
    requires c == LoadFirst(m, table, k) == LoadList(m, segs[..k])
    requires HeaderNo(c, table, k) == segs[k]
    ensures LoadFirst(m, table, k + 1) == LoadList(m, segs[..k + 1])
  {
    LoadFirstNext(m, table, k);
    NextInList(m, c, segs, k);
  }

  lemma TableStep(m: Memory, c: Memory, table: nat, segs: seq<Segment>, k: nat)
    requires IsTable(m, table, segs) && WellPlaced(segs) && k < |segs|
    requires c == LoadFirst(m, table, k) == LoadList(m, segs[..k])
    ensures LoadFirst(m, table, k + 1) == LoadList(m, segs[..k + 1])
  {
    PrefixIntact(m, segs, k);
    HeaderIntact(m, c, table, segs, k);
    NextInTable(m, c, table, segs, k);
  }

  /** Reading each header when its turn comes loads the table as it stood at the start. */
  lemma {:induction false} TableLoads(m: Memory, table: nat, segs: seq<Segment>, k: nat)
    requires IsTable(m, table, segs) && WellPlaced(segs) && k <= |segs|
    ensures LoadFirst(m, table, k) == LoadList(m, segs[..k])
    decreases k
  {
    if k > 0 {
      var j := k - 1;
      TableLoads(m, table, segs, j);
      var c := LoadFirst(m, table, j);
      assert c == LoadList(m, segs[..j]);
      TableStep(m, c, table, segs, j);
    }
  }

  // ----- Images as they lie in a file

  /** Elf32_Ehdr */
  datatype FileHeader = FileHeader(
    ident: seq<byte>, kind: uint16, machine: uint16, version: uint32, entry: uint32, phoff: uint32, shoff: uint32,
    flags: uint32, ehsize: uint16, phentsize: uint16, phnum: uint16, shentsize: uint16, shnum: uint16,
    shstrndx: uint16)

  /** Elf32_Phdr */
  datatype ProgramHeader = ProgramHeader(
    kind: uint32, offset: uint32, vaddr: uint32, paddr: uint32, filesz: uint32, memsz: uint32, flags: uint32,
    align: uint32)

  /** The fields in the order they are declared. */
  function FileHeaderBytes(h: FileHeader): seq<byte> {
    h.ident + Field(h.kind, 2) + Field(h.machine, 2) + Field(h.version, 4) + Field(h.entry, 4)
    + Field(h.phoff, 4) + Field(h.shoff, 4) + Field(h.flags, 4) + Field(h.ehsize, 2) + Field(h.phentsize, 2)
    + Field(h.phnum, 2) + Field(h.shentsize, 2) + Field(h.shnum, 2) + Field(h.shstrndx, 2)
  }

  function ProgramHeaderBytes(p: ProgramHeader): seq<byte> {
    Field(p.kind, 4) + Field(p.offset, 4) + Field(p.vaddr, 4) + Field(p.paddr, 4)
    + Field(p.filesz, 4) + Field(p.memsz, 4) + Field(p.flags, 4) + Field(p.align, 4)
  }

  function SegmentOf(p: ProgramHeader): Segment {
    Segment(p.kind, p.offset, p.paddr, p.filesz, p.memsz)
  }

  function SegmentsOf(ps: seq<ProgramHeader>): (segs: seq<Segment>)
    ensures |segs| == |ps| && forall i :: 0 <= i < |ps| ==> segs[i] == SegmentOf(ps[i])
  {
    seq(|ps|, i requires 0 <= i < |ps| => SegmentOf(ps[i]))
  }

  ghost predicate Holds(m: Memory, a: nat, bytes: seq<byte>) {
    Whole(m) && a + |bytes| <= TWO32 && m[a..a + |bytes|] == bytes
  }

  /** The buffer holds an image with file header `h` and program headers `ps`, each where the file header says. */
  ghost predicate IsImage(m: Memory, h: FileHeader, ps: seq<ProgramHeader>) {
    && |h.ident| == 16 && h.ident[0] == 0x7F && h.phnum == |ps|
    && Holds(m, BUFFER, FileHeaderBytes(h))
    && h.phoff + |ps| * 32 <= BUFFER_SIZE
    && forall i :: 0 <= i < |ps| ==> HoldsHeader(m, h, ps, i)
  }

  /** Entry `i` of the table follows the ones before it. */
  ghost predicate HoldsHeader(m: Memory, h: FileHeader, ps: seq<ProgramHeader>, i: nat)
    requires i < |ps|
  {
    Holds(m, BUFFER + h.phoff + i * 32, ProgramHeaderBytes(ps[i]))
  }

  lemma WordReads(s: seq<byte>, i: nat, x: uint32)
    requires i + 4 <= |s| && s[i..i + 4] == Field(x, 4)
    ensures Word(s, i) == x
  {
    Field4(s[i..i + 4], x);
  }

  lemma HalfReads(s: seq<byte>, i: nat, x: uint16)
    requires i + 2 <= |s| && s[i..i + 2] == Field(x, 2)
    ensures Half(s, i) == x
  {
    Field2(s[i..i + 2], x);
  }

  /** The bytes of a program header read as its fields. */
  lemma DecodeReads(p: ProgramHeader)
    ensures |ProgramHeaderBytes(p)| == PHDR_SIZE && Decode(ProgramHeaderBytes(p)) == SegmentOf(p)
  {
    var s := ProgramHeaderBytes(p);
    assert s[0..4] == Field(p.kind, 4) && s[4..8] == Field(p.offset, 4) && s[12..16] == Field(p.paddr, 4);
    assert s[16..20] == Field(p.filesz, 4) && s[20..24] == Field(p.memsz, 4);
    WordReads(s, 0, p.kind);
    WordReads(s, 4, p.offset);
    WordReads(s, 12, p.paddr);
    WordReads(s, 16, p.filesz);
    WordReads(s, 20, p.memsz);
  }

  lemma BytesHeld(m: Memory, a: nat, bytes: seq<byte>)
    requires Holds(m, a, bytes)
    ensures Bytes(m, a, |bytes|) == bytes
  {
    forall i | 0 <= i < |bytes| ensures Bytes(m, a, |bytes|)[i] == bytes[i] {
      assert m[a..a + |bytes|][i] == m[a + i];
    }
  }

  lemma PartHeld(m: Memory, a: nat, bytes: seq<byte>, i: nat, n: nat)
    requires Holds(m, a, bytes) && i + n <= |bytes|
    ensures Bytes(m, a + i, n) == bytes[i..i + n]
  {
    var s := Bytes(m, a + i, n);
    forall k | 0 <= k < |s| ensures s[k] == bytes[i..i + n][k] {
      assert m[a..a + |bytes|][i + k] == m[a + i + k];
    }
  }

  /** The loader finds the table and its length where the file header has them. */
  lemma FileHeaderReads(m: Memory, h: FileHeader)
    requires |h.ident| == 16 && Holds(m, BUFFER, FileHeaderBytes(h)) && BUFFER + h.phoff < TWO32
    ensures m[BUFFER] == h.ident[0]
    ensures ProgramHeaders(m) == BUFFER + h.phoff && HeaderCount(m) == h.phnum
  {
    var s := FileHeaderBytes(h);
    assert |s| == 52 && m[BUFFER..BUFFER + |s|][0] == s[0] == h.ident[0];
    assert s[28..32] == Field(h.phoff, 4) && s[44..46] == Field(h.phnum, 2);
    PartHeld(m, BUFFER, s, 28, 4);
    WordReads(Bytes(m, BUFFER + 28, 4), 0, h.phoff);
    PartHeld(m, BUFFER, s, 44, 2);
    HalfReads(Bytes(m, BUFFER + 44, 2), 0, h.phnum);
  }

  /** What the loader reads of an image is what the image says. */
  lemma HeadersRead(m: Memory, h: FileHeader, ps: seq<ProgramHeader>)
    requires IsImage(m, h, ps)
    ensures m[BUFFER] == MAGIC && TableInBuffer(m) && Headers(m) == SegmentsOf(ps)
  {
    FileHeaderReads(m, h);
    var segs := Headers(m);
    forall i | 0 <= i < |segs| ensures segs[i] == SegmentsOf(ps)[i] {
      HeaderReads(m, h, ps, i);
    }
  }

  lemma HeaderReads(m: Memory, h: FileHeader, ps: seq<ProgramHeader>, i: nat)
    requires IsImage(m, h, ps) && i < |ps|
    ensures HeaderNo(m, BUFFER + h.phoff, i) == SegmentOf(ps[i])
  {
    assert HoldsHeader(m, h, ps, i);
    DecodeReads(ps[i]);
    BytesHeld(m, BUFFER + h.phoff + i * 32, ProgramHeaderBytes(ps[i]));
  }

  /** What `ParseElf` makes of memory that starts with the magic byte. */
  function LoadImage(m: Memory): (r: Memory)
    requires Whole(m)
    ensures Whole(r)
  {
    LoadFirst(m, ProgramHeaders(m), HeaderCount(m))
  }

  /** The file's bytes for `p` stand at its physical address in `r`, and zeros from there to its memory size. */
  ghost predicate FileInPlace(m: Memory, r: Memory, p: ProgramHeader) {
    && Whole(m) && Whole(r) && p.paddr + p.filesz <= TWO32 && p.paddr + p.memsz <= TWO32
    && 0xA000 + p.offset + p.filesz <= TWO32
    && (forall a :: p.paddr <= a < p.paddr + p.filesz ==> r[a] == m[0xA000 + p.offset + (a - p.paddr)])
    && (forall a :: p.paddr + p.filesz <= a < p.paddr + p.memsz ==> r[a] == 0)
  }

  lemma PlacedFile(m: Memory, r: Memory, p: ProgramHeader)
    requires Whole(m) && Whole(r) && Placed(SegmentOf(p)) && InPlace(m, r, SegmentOf(p)) && p.kind != 0
    ensures FileInPlace(m, r, p)
  {
  }

  /**
    For an image whose segments are well placed, loading leaves the file's bytes
    of each at its physical address, followed by zeros up to its memory size, and
    all other memory unchanged.
   */
  lemma ImageLoads(m: Memory, h: FileHeader, ps: seq<ProgramHeader>)
    requires IsImage(m, h, ps) && WellPlaced(SegmentsOf(ps))
    ensures m[BUFFER] == MAGIC && Loaded(m, LoadImage(m), SegmentsOf(ps))
    ensures forall i :: 0 <= i < |ps| && ps[i].kind != 0 ==> FileInPlace(m, LoadImage(m), ps[i])
  {
    ImageListed(m, h, ps);
    forall i | 0 <= i < |ps| && ps[i].kind != 0 ensures FileInPlace(m, LoadImage(m), ps[i]) {
      assert SegmentsOf(ps)[i] == SegmentOf(ps[i]);
      PlacedFile(m, LoadImage(m), ps[i]);
    }
  }

  lemma ImageListed(m: Memory, h: FileHeader, ps: seq<ProgramHeader>)
    requires IsImage(m, h, ps) && WellPlaced(SegmentsOf(ps))
    ensures m[BUFFER] == MAGIC && Loaded(m, LoadImage(m), SegmentsOf(ps))
  {
    var segs := SegmentsOf(ps);
    HeadersRead(m, h, ps);
    TableLoads(m, ProgramHeaders(m), segs, |segs|);
    assert segs[..|segs|] == segs;
    ListLoads(m, segs);
  }
}
