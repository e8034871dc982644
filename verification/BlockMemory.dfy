/**
  Block headers in raw memory. A header is six packed bytes: a 16-bit free
  flag and a 32-bit payload size, both little-endian.
 */
module BlockMemory {
  import opened Words
  import opened Blocks
  import opened Policy
  import opened LittleEndian

  function FlagAt(m: seq<byte>, a: nat): uint16
    requires a + HEADER <= |m|
  {
    m[a] as int + 0x100 * (m[a + 1] as int)
  }

  function SizeAt(m: seq<byte>, a: nat): uint32
    requires a + HEADER <= |m|
  {
    m[a + 2] as int + 0x100 * (m[a + 3] as int)
    + 0x1_0000 * (m[a + 4] as int) + 0x100_0000 * (m[a + 5] as int)
  }

  function HeaderAt(m: seq<byte>, a: nat): Block
    requires a + HEADER <= |m|
  {
    Block(FlagAt(m, a) != 0, SizeAt(m, a))
  }

  method StoreSize(mem: array<byte>, a: nat, v: uint32)
    requires a + HEADER <= mem.Length
    modifies mem
    ensures SizeAt(mem[..], a) == v
    ensures forall i :: 0 <= i < mem.Length && !(a + 2 <= i < a + HEADER) ==> mem[i] == old(mem[i])
  {
    var v1 := v / 0x100;
    var v2 := v1 / 0x100;
    mem[a + 2] := v % 0x100;
    mem[a + 3] := v1 % 0x100;
    mem[a + 4] := v2 % 0x100;
    mem[a + 5] := v2 / 0x100;
  }

  method StoreFlag(mem: array<byte>, a: nat, flag: bool)
    requires a + HEADER <= mem.Length
    modifies mem
    ensures FlagAt(mem[..], a) == if flag then 1 else 0
    ensures forall i :: 0 <= i < mem.Length && !(a <= i < a + 2) ==> mem[i] == old(mem[i])
  {
    mem[a] := if flag then 1 else 0;
    mem[a + 1] := 0;
  }

  // ----- The bytes of a header

  /** A `block_struct`, packed: the flag, then the size, each least significant byte first. */
  function HeaderBytes(flag: uint16, size: uint32): seq<byte> {
    Field(flag, 2) + Field(size, 4)
  }

  /** The bytes between a header's address and its payload are those of the record and no others. */
  lemma HeaderExactly(m: seq<byte>, a: nat, flag: uint16, size: uint32)
    requires a + HEADER <= |m|
    ensures |HeaderBytes(flag, size)| == HEADER
    ensures m[a..a + HEADER] == HeaderBytes(flag, size) <==> FlagAt(m, a) == flag && SizeAt(m, a) == size
  {
    var h := m[a..a + HEADER];
    assert |h| == |HeaderBytes(flag, size)| && h == h[..2] + h[2..];
    Field2(h[..2], flag);
    Field4(h[2..], size);
    assert HeaderBytes(flag, size)[..2] == Field(flag, 2) && HeaderBytes(flag, size)[2..] == Field(size, 4);
  }

  /** Two headers have the same bytes if and only if they have the same fields. */
  lemma HeaderTells(m: seq<byte>, m': seq<byte>, a: nat)
    requires a + HEADER <= |m| == |m'|
    ensures m[a..a + HEADER] == m'[a..a + HEADER] <==>
            FlagAt(m, a) == FlagAt(m', a) && SizeAt(m, a) == SizeAt(m', a)
  {
    HeaderExactly(m, a, FlagAt(m, a), SizeAt(m, a));
    HeaderExactly(m', a, FlagAt(m, a), SizeAt(m, a));
  }

  /** Byte `a` belongs to a field of the header at `ea`, or to the payload behind it. */
  predicate InBlock(ea: nat, b: Block, a: nat) {
    ea <= a < ea + |HeaderBytes(0, 0)| + b.size
  }

  /** Every byte of a heap is a byte of some header's fields or of some payload. */
  lemma {:induction false} EveryByteInBlock(base: nat, bs: seq<Block>, a: nat) returns (k: nat)
    requires base <= a < base + Total(bs)
    ensures k < |bs| && InBlock(Addr(base, bs, k), bs[k], a)
    decreases |bs|
  {
    if a < base + Extent(bs[0]) {
      k := 0;
    } else {
      var j := EveryByteInBlock(base + Extent(bs[0]), bs[1..], a);
      k := j + 1;
      AddrTail(base, bs, k);
    }
  }

  /** Right before a live pointer stand the bytes of a header that says so, and nothing between. */
  lemma PointerBehindHeader(m: seq<byte>, base: nat, bs: seq<Block>, ptr: nat, k: nat)
    requires base + Total(bs) <= |m| && Tiled(m, base, bs) && LiveAt(base, bs, ptr, k)
    ensures ptr + bs[k].size <= |m| && bs[k].size < TWO32
    ensures var h := HeaderBytes(0, bs[k].size); |h| <= ptr && m[ptr - |h|..ptr] == h
  {
    TiledAt(m, base, bs, k);
    HeaderExactly(m, ptr - HEADER, 0, SizeAt(m, ptr - HEADER));
  }

  // ----- Raw memory against a block sequence

  /** Walking headers from `base` meets exactly the blocks of `bs`, one after the other. */
  ghost predicate Tiled(m: seq<byte>, base: nat, bs: seq<Block>)
    requires base + Total(bs) <= |m|
    decreases |bs|
  {
    bs == [] || (HeaderAt(m, base) == bs[0] && Tiled(m, base + Extent(bs[0]), bs[1..]))
  }

  ghost predicate Agree(m: seq<byte>, m': seq<byte>, lo: nat, hi: nat) {
    |m| == |m'| && forall i :: lo <= i < hi && i < |m| ==> m[i] == m'[i]
  }

  ghost predicate AgreeOutside(m: seq<byte>, m': seq<byte>, lo: nat, hi: nat) {
    |m| == |m'| && forall i :: 0 <= i < |m| && !(lo <= i < hi) ==> m[i] == m'[i]
  }

  ghost predicate PayloadsKept(m: seq<byte>, m': seq<byte>, live: seq<Live>) {
    && |m| == |m'|
    && forall k, i :: 0 <= k < |live| && live[k].addr <= i < live[k].addr + live[k].size && i < |m|
                      ==> m[i] == m'[i]
  }

  /** Nothing outside the heap `[lo, hi)` and no byte of a live payload has changed. */
  ghost predicate Untouched(m: seq<byte>, m': seq<byte>, live: seq<Live>, lo: nat, hi: nat) {
    PayloadsKept(m, m', live) && AgreeOutside(m, m', lo, hi)
  }

  lemma UntouchedAcross(m: seq<byte>, m': seq<byte>, m'': seq<byte>,
                        live: seq<Live>, lo: nat, hi: nat, hi': nat)
    requires Untouched(m, m', live, lo, hi) && Untouched(m', m'', live, lo, hi')
    requires hi <= hi'
    ensures Untouched(m, m'', live, lo, hi')
  {
  }

  lemma {:induction false} TiledFrame(m: seq<byte>, m': seq<byte>, base: nat, bs: seq<Block>)
    requires base + Total(bs) <= |m|
    requires Agree(m, m', base, base + Total(bs))
    requires Tiled(m, base, bs)
    ensures Tiled(m', base, bs)
    decreases |bs|
  {
    if bs != [] {
      TiledFrame(m, m', base + Extent(bs[0]), bs[1..]);
    }
  }

  lemma {:induction false} TiledConcat(m: seq<byte>, base: nat, xs: seq<Block>, ys: seq<Block>)
    requires base + Total(xs) + Total(ys) <= |m|
    ensures base + Total(xs + ys) <= |m|
    ensures Tiled(m, base, xs + ys) <==> Tiled(m, base, xs) && Tiled(m, base + Total(xs), ys)
    decreases |xs|
  {
    TotalConcat(xs, ys);
    if xs == [] {
      assert xs + ys == ys;
    } else {
      assert (xs + ys)[1..] == xs[1..] + ys;
      TiledConcat(m, base + Extent(xs[0]), xs[1..], ys);
    }
  }

  /** The header of block `k` is where the sizes before it say it is. */
  lemma TiledAt(m: seq<byte>, base: nat, bs: seq<Block>, k: nat)
    requires base + Total(bs) <= |m|
    requires Tiled(m, base, bs)
    requires k < |bs|
    ensures Addr(base, bs, k) + Extent(bs[k]) <= base + Total(bs)
    ensures HeaderAt(m, Addr(base, bs, k)) == bs[k]
    ensures Addr(base, bs, k + 1) == Addr(base, bs, k) + Extent(bs[k])
  {
    TotalSplit(bs, k);
    assert bs == bs[..k] + bs[k..];
    TotalConcat(bs[..k], bs[k..]);
    TiledConcat(m, base, bs[..k], bs[k..]);
  }

  /** Rewriting block `k` in place by blocks of the same total extent. */
  lemma Retile(m: seq<byte>, m': seq<byte>, base: nat, bs: seq<Block>, k: nat, mid: seq<Block>)
    requires base + Total(bs) <= |m|
    requires Tiled(m, base, bs)
    requires k < |bs| && Total(mid) == Extent(bs[k])
    requires AgreeOutside(m, m', Addr(base, bs, k), Addr(base, bs, k) + Extent(bs[k]))
    requires Addr(base, bs, k) + Total(mid) <= |m'|
    requires Tiled(m', Addr(base, bs, k), mid)
    ensures Total(bs[..k] + mid + bs[k + 1..]) == Total(bs)
    ensures Tiled(m', base, bs[..k] + mid + bs[k + 1..])
  {
    TotalSplit(bs, k);
    assert bs == bs[..k] + [bs[k]] + bs[k + 1..];
    One(0, bs[k]);
    RetileParts(m, m', base, bs[..k], [bs[k]], bs[k + 1..], mid);
  }

  lemma RetileParts(m: seq<byte>, m': seq<byte>, base: nat,
                    pre: seq<Block>, xs: seq<Block>, post: seq<Block>, ys: seq<Block>)
    requires base + Total(pre) + Total(xs) + Total(post) <= |m| == |m'|
    requires base + Total(pre + xs + post) <= |m|
    requires Tiled(m, base, pre + xs + post)
    requires Total(xs) == Total(ys)
    requires AgreeOutside(m, m', base + Total(pre), base + Total(pre) + Total(xs))
    requires Tiled(m', base + Total(pre), ys)
    ensures Total(pre + ys + post) == Total(pre + xs + post)
    ensures Tiled(m', base, pre + ys + post)
  {
    TiledThree(m, base, pre, xs, post);
    var end := base + Total(pre) + Total(xs);
    assert Tiled(m', base, pre) by { TiledFrame(m, m', base, pre); }
    assert Tiled(m', end, post) by { TiledFrame(m, m', end, post); }
    assert end == base + Total(pre) + Total(ys);
    TiledThree(m', base, pre, ys, post);
  }

  lemma TiledThree(m: seq<byte>, base: nat, xs: seq<Block>, ys: seq<Block>, zs: seq<Block>)
    requires base + Total(xs) + Total(ys) + Total(zs) <= |m|
    ensures Total(xs + ys + zs) == Total(xs) + Total(ys) + Total(zs)
    ensures Tiled(m, base, xs + ys + zs) <==>
            && Tiled(m, base, xs)
            && Tiled(m, base + Total(xs), ys)
            && Tiled(m, base + Total(xs) + Total(ys), zs)
  {
    TotalConcat(xs, ys);
    TotalConcat(xs + ys, zs);
    TiledConcat(m, base, xs, ys);
    TiledConcat(m, base, xs + ys, zs);
  }

  // ----- Writes against live payloads

  /** No payload meets the header of any block, nor any byte of a free block. */
  lemma PayloadsApart(base: nat, bs: seq<Block>, k: nat)
    requires k < |bs|
    ensures var ea := Addr(base, bs, k);
            var end := ea + if bs[k].free then Extent(bs[k]) else HEADER;
            forall i :: 0 <= i < |LiveOf(base, bs)| ==>
              var l := LiveOf(base, bs)[i];
              l.addr + l.size <= ea || end <= l.addr
  {
    LiveSplit(base, bs, k);
    LiveBounds(base, bs[..k]);
    One(Addr(base, bs, k), bs[k]);
    LiveBounds(Addr(base, bs, k) + Extent(bs[k]), bs[k + 1..]);
  }

  lemma WritesInBlock(m: seq<byte>, m': seq<byte>, base: nat, bs: seq<Block>, k: nat, hi: nat)
    requires k < |bs|
    requires hi <= Addr(base, bs, k) + if bs[k].free then Extent(bs[k]) else HEADER
    requires AgreeOutside(m, m', Addr(base, bs, k), hi)
    ensures Untouched(m, m', LiveOf(base, bs), base, base + Total(bs))
  {
    PayloadsApart(base, bs, k);
    TotalSplit(bs, k);
  }
}
