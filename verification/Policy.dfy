/**
  The allocation policy on block sequences: which block a request takes, how
  that block is cut, and how the heap grows when no block will do. `align`
  asks for a payload that starts on a page boundary.
 */
module Policy {
  import opened Words
  import opened Blocks

  /** The first page boundary strictly above `x`. */
  function NextPage(x: nat): (p: nat)
    ensures p % PAGE_SIZE == 0 && x < p <= x + PAGE_SIZE
  {
    (x / PAGE_SIZE + 1) * PAGE_SIZE
  }

  /** Where the payload of a request served from a block headed at `ea` starts. */
  function Payload(ea: nat, align: bool): nat {
    if align then NextPage(ea + 2 * HEADER) else ea + HEADER
  }

  /** A block at `ea` serves `n` bytes when it is free and reaches past the end of such a payload. */
  predicate Suits(ea: nat, b: Block, n: nat, align: bool) {
    b.free && Payload(ea, align) + n <= ea + Extent(b)
  }

  function Addr(base: nat, bs: seq<Block>, k: nat): nat
    requires k <= |bs|
  {
    base + Total(bs[..k])
  }

  lemma AddrTail(base: nat, bs: seq<Block>, k: nat)
    requires 1 <= k <= |bs|
    ensures Addr(base, bs, k) == Addr(base + Extent(bs[0]), bs[1..], k - 1)
  {
    assert bs[..k][1..] == bs[1..][..k - 1];
  }

  /** A walk that has passed `k` blocks is at the end of the heap exactly when no block is left. */
  lemma WalkEnds(base: nat, bs: seq<Block>, k: nat)
    requires k <= |bs|
    ensures Addr(base, bs, k) <= base + Total(bs)
    ensures Addr(base, bs, k) == base + Total(bs) <==> k == |bs|
  {
    if k == |bs| {
      assert bs[..k] == bs;
    } else {
      TotalSplit(bs, k);
    }
  }

  ghost predicate NoneBefore(base: nat, bs: seq<Block>, n: nat, align: bool, k: nat) {
    k <= |bs| && forall j :: 0 <= j < k ==> !Suits(Addr(base, bs, j), bs[j], n, align)
  }

  /** Whether `k` is the first block of `bs` that serves the request, `|bs|` meaning there is none. */
  ghost predicate IsFirstFit(base: nat, bs: seq<Block>, n: nat, align: bool, k: nat) {
    && NoneBefore(base, bs, n, align, k)
    && (k < |bs| ==> Suits(Addr(base, bs, k), bs[k], n, align))
  }

  function FirstFit(base: nat, bs: seq<Block>, n: nat, align: bool): (k: nat)
    ensures IsFirstFit(base, bs, n, align, k)
    decreases |bs|
  {
    if bs == [] then 0
    else if Suits(base, bs[0], n, align) then 0
    else
      var k := FirstFit(base + Extent(bs[0]), bs[1..], n, align);
      assert IsFirstFit(base, bs, n, align, k + 1) by {
        forall j | 1 <= j <= k + 1 ensures Addr(base, bs, j) == Addr(base + Extent(bs[0]), bs[1..], j - 1) {
          AddrTail(base, bs, j);
        }
      }
      k + 1
  }

  lemma FirstFitUnique(base: nat, bs: seq<Block>, n: nat, align: bool, k: nat)
    requires IsFirstFit(base, bs, n, align, k)
    ensures FirstFit(base, bs, n, align) == k
  {
  }

  // ----- Cutting the chosen block

  /** An allocation of `room` bytes after giving back what a request for `n` leaves over. */
  function Trimmed(room: nat, n: nat): (bs: seq<Block>)
    ensures Total(bs) == HEADER + room
  {
    if room > n + HEADER then
      Two(0, Block(false, n), Block(true, room - n - HEADER));
      [Block(false, n), Block(true, room - n - HEADER)]
    else
      One(0, Block(false, room));
      [Block(false, room)]
  }

  function Carve(ea: nat, b: Block, n: nat, align: bool): seq<Block>
    requires Suits(ea, b, n, align)
  {
    if align then
      var p := NextPage(ea + 2 * HEADER);
      var rest := ea + Extent(b) - p;
      [Block(true, p - ea - 2 * HEADER)] + Trimmed(rest, n)
    else if n + HEADER <= b.size then [Block(false, n), Block(true, b.size - HEADER - n)]
    else [Block(false, b.size)]
  }

  /** The payload actually handed out. */
  function Granted(ea: nat, b: Block, n: nat, align: bool): (size: nat)
    requires Suits(ea, b, n, align)
    ensures n <= size <= n + HEADER
    ensures Payload(ea, align) + size <= ea + Extent(b)
  {
    var room := ea + Extent(b) - Payload(ea, align);
    if align then (if room > n + HEADER then n else room)
    else (if room >= n + HEADER then n else room)
  }

  /** Cutting a block conserves its bytes and creates exactly one allocation, where and as large as promised. */
  lemma CarveCorrect(ea: nat, b: Block, n: nat, align: bool)
    requires Suits(ea, b, n, align)
    ensures Total(Carve(ea, b, n, align)) == Extent(b)
    ensures LiveOf(ea, Carve(ea, b, n, align)) ==
            [Live(Payload(ea, align), Granted(ea, b, n, align))]
    ensures NoAdjacentFree(Carve(ea, b, n, align))
    ensures align ==> 2 <= |Carve(ea, b, n, align)| <= 3
  {
    var c := Carve(ea, b, n, align);
    One(ea, c[0]);
    if |c| == 3 {
      assert c == [c[0]] + [c[1], c[2]];
      TotalConcat([c[0]], [c[1], c[2]]);
      LiveConcat(ea, [c[0]], [c[1], c[2]]);
      Two(ea + Extent(c[0]), c[1], c[2]);
      One(ea + Extent(c[0]), c[1]);
      One(ea + Extent(c[0]) + Extent(c[1]), c[2]);
    } else if |c| == 2 {
      Two(ea, c[0], c[1]);
      One(ea + Extent(c[0]), c[1]);
    }
  }

  /**
    Bytes handed out beyond the request: all that remain if they cannot form a
    block of their own, which on the aligned path takes at least one payload byte.
   */
  lemma WasteExactly(ea: nat, b: Block, n: nat, align: bool)
    requires Suits(ea, b, n, align)
    ensures var room, size := ea + Extent(b) - Payload(ea, align), Granted(ea, b, n, align);
            && (size == n || size == room)
            && (size == room <==> room - n < HEADER || (align && room - n == HEADER))
  {
  }

  function Place(base: nat, bs: seq<Block>, k: nat, n: nat, align: bool): seq<Block>
    requires k < |bs| && Suits(Addr(base, bs, k), bs[k], n, align)
  {
    bs[..k] + Carve(Addr(base, bs, k), bs[k], n, align) + bs[k + 1..]
  }

  function LiveBefore(base: nat, bs: seq<Block>, k: nat): seq<Live>
    requires k < |bs|
  {
    LiveOf(base, bs[..k])
  }

  function LiveAfter(base: nat, bs: seq<Block>, k: nat): seq<Live>
    requires k < |bs|
  {
    LiveOf(Addr(base, bs, k) + Extent(bs[k]), bs[k + 1..])
  }

  lemma SpliceNoAdjacent(bs: seq<Block>, k: nat, c: seq<Block>)
    requires k < |bs| && bs[k].free && c != []
    requires NoAdjacentFree(bs) && NoAdjacentFree(c)
    ensures NoAdjacentFree(bs[..k] + c + bs[k + 1..])
  {
  }

  /** Serving a request inserts one allocation into the live list and disturbs nothing else. */
  lemma PlaceCorrect(base: nat, bs: seq<Block>, k: nat, n: nat, align: bool)
    requires k < |bs| && Suits(Addr(base, bs, k), bs[k], n, align)
    requires NoAdjacentFree(bs)
    ensures Total(Place(base, bs, k, n, align)) == Total(bs)
    ensures NoAdjacentFree(Place(base, bs, k, n, align))
    ensures LiveOf(base, bs) == LiveBefore(base, bs, k) + LiveAfter(base, bs, k)
    ensures var ea := Addr(base, bs, k);
            LiveOf(base, Place(base, bs, k, n, align)) ==
            LiveBefore(base, bs, k)
            + [Live(Payload(ea, align), Granted(ea, bs[k], n, align))]
            + LiveAfter(base, bs, k)
  {
    var ea := Addr(base, bs, k);
    var c := Carve(ea, bs[k], n, align);
    CarveCorrect(ea, bs[k], n, align);
    assert NoAdjacentFree(bs[..k] + c + bs[k + 1..]) by { SpliceNoAdjacent(bs, k, c); }
    TotalSplit(bs, k);
    TotalConcat(bs[..k] + c, bs[k + 1..]);
    TotalConcat(bs[..k], c);
    LiveSplit(base, bs, k);
    LiveConcat(base, bs[..k] + c, bs[k + 1..]);
    LiveConcat(base, bs[..k], c);
  }

  // ----- Growing

  /** The heap with `d` more bytes of free space at its end. */
  function Extend(bs: seq<Block>, d: nat): seq<Block>
    requires d == 0 || d >= HEADER
  {
    if d == 0 then bs
    else if bs != [] && bs[|bs| - 1].free then
      bs[..|bs| - 1] + [Block(true, bs[|bs| - 1].size + d)]
    else bs + [Block(true, d - HEADER)]
  }

  lemma ExtendCorrect(base: nat, bs: seq<Block>, d: nat)
    requires d == 0 || d >= HEADER
    requires NoAdjacentFree(bs)
    ensures Total(Extend(bs, d)) == Total(bs) + d
    ensures LiveOf(base, Extend(bs, d)) == LiveOf(base, bs)
    ensures NoAdjacentFree(Extend(bs, d))
  {
    if d != 0 {
      ExtendNoAdjacent(bs, d);
      if bs != [] && bs[|bs| - 1].free {
        ExtendFreeTail(base, bs, d);
      } else {
        ExtendByBlock(base, bs, d);
      }
    }
  }

  lemma ExtendNoAdjacent(bs: seq<Block>, d: nat)
    requires d >= HEADER && NoAdjacentFree(bs)
    ensures NoAdjacentFree(Extend(bs, d))
  {
    var g := Extend(bs, d);
    forall i | 0 <= i < |g| - 1 ensures !g[i].free || !g[i + 1].free {
      assert g[i] == bs[i];
      if i + 1 < |bs| {
        assert g[i + 1].free == bs[i + 1].free;
      }
    }
  }

  lemma ExtendByBlock(base: nat, bs: seq<Block>, d: nat)
    requires d >= HEADER && (bs == [] || !bs[|bs| - 1].free)
    ensures Total(Extend(bs, d)) == Total(bs) + d
    ensures LiveOf(base, Extend(bs, d)) == LiveOf(base, bs)
  {
    var page := Block(true, d - HEADER);
    One(base + Total(bs), page);
    TotalConcat(bs, [page]);
    LiveConcat(base, bs, [page]);
  }

  lemma ExtendFreeTail(base: nat, bs: seq<Block>, d: nat)
    requires d >= HEADER && bs != [] && bs[|bs| - 1].free
    ensures Total(Extend(bs, d)) == Total(bs) + d
    ensures LiveOf(base, Extend(bs, d)) == LiveOf(base, bs)
  {
    var m := |bs| - 1;
    var last := Block(true, bs[m].size + d);
    assert bs == bs[..m] + [bs[m]];
    One(base + Total(bs[..m]), bs[m]);
    One(base + Total(bs[..m]), last);
    TotalConcat(bs[..m], [bs[m]]);
    TotalConcat(bs[..m], [last]);
    LiveConcat(base, bs[..m], [bs[m]]);
    LiveConcat(base, bs[..m], [last]);
  }

  lemma ExtendTwice(bs: seq<Block>, d: nat, e: nat)
    requires d == 0 || d >= HEADER
    requires e == 0 || e >= HEADER
    requires NoAdjacentFree(bs)
    ensures Extend(Extend(bs, d), e) == Extend(bs, d + e)
  {
    if d != 0 && e != 0 {
      var g := Extend(bs, d);
      if bs != [] && bs[|bs| - 1].free {
        var m := |bs| - 1;
        assert |g| == |bs| && g[..m] == bs[..m] && g[m] == Block(true, bs[m].size + d);
      } else {
        assert |g| == |bs| + 1 && g[..|bs|] == bs && g[|bs|] == Block(true, d - HEADER);
      }
    }
  }

  /** Appending one page as a free block and merging is an extension by that page. */
  lemma GrowIsExtend(bs: seq<Block>)
    requires NoAdjacentFree(bs)
    ensures Unite(bs + [Block(true, PAGE_SIZE - HEADER)]) == Extend(bs, PAGE_SIZE)
  {
    var page := [Block(true, PAGE_SIZE - HEADER)];
    ExtendCorrect(0, bs, PAGE_SIZE);
    TotalConcat(bs, page);
    LiveConcat(0, bs, page);
    UniteUnique(0, bs + page, Extend(bs, PAGE_SIZE));
  }

  /** Where the free space at the end of the heap starts, or would start after growing. */
  function TailAddr(base: nat, bs: seq<Block>): nat {
    if bs != [] && bs[|bs| - 1].free then Addr(base, bs, |bs| - 1) else base + Total(bs)
  }

  function CeilDiv(x: int, y: int): (q: int)
    requires y > 0
    ensures x <= q * y < x + y
  {
    (x + y - 1) / y
  }

  /** How many pages must be added before a request can be served. */
  function Rounds(base: nat, bs: seq<Block>, n: nat, align: bool): nat {
    if FirstFit(base, bs, n, align) < |bs| then 0
    else
      var short := Payload(TailAddr(base, bs), align) + n - (base + Total(bs));
      assert short > 0 by { ShortfallPositive(base, bs, n, align); }
      CeilDiv(short, PAGE_SIZE)
  }

  lemma ShortfallPositive(base: nat, bs: seq<Block>, n: nat, align: bool)
    requires FirstFit(base, bs, n, align) == |bs|
    ensures Payload(TailAddr(base, bs), align) + n > base + Total(bs)
  {
    if bs != [] && bs[|bs| - 1].free {
      assert bs[|bs|..] == [];
      TotalSplit(bs, |bs| - 1);
      assert !Suits(Addr(base, bs, |bs| - 1), bs[|bs| - 1], n, align);
    }
  }

  /**
    Growth happens only while nothing fits, and the number of pages added is
    exactly `Rounds`: one page fewer leaves every block unsuitable, and after
    that many pages it is the block at the end that serves the request.
   */
  lemma RoundsExact(base: nat, bs: seq<Block>, n: nat, align: bool, j: nat)
    requires NoAdjacentFree(bs)
    requires FirstFit(base, bs, n, align) == |bs|
    requires j <= Rounds(base, bs, n, align)
    ensures var g := Extend(bs, j * PAGE_SIZE);
            if j < Rounds(base, bs, n, align)
            then FirstFit(base, g, n, align) == |g|
            else g != [] && FirstFit(base, g, n, align) == |g| - 1
  {
    ShortfallPositive(base, bs, n, align);
    if j > 0 {
      var d := j * PAGE_SIZE;
      var g := Extend(bs, d);
      var m := |g| - 1;
      ExtendCorrect(base, bs, d);
      assert g[..m] == bs[..m];
      TailOfExtend(base, bs, d);
      forall i | 0 <= i < m ensures !Suits(Addr(base, g, i), g[i], n, align) {
        assert g[..i] == bs[..i];
        assert !Suits(Addr(base, bs, i), bs[i], n, align);
      }
    }
  }

  lemma TailOfExtend(base: nat, bs: seq<Block>, d: nat)
    requires d >= HEADER && NoAdjacentFree(bs)
    ensures var g := Extend(bs, d);
            && g[|g| - 1].free
            && Addr(base, g, |g| - 1) == TailAddr(base, bs)
            && TailAddr(base, bs) + Extent(g[|g| - 1]) == base + Total(bs) + d
  {
    var g := Extend(bs, d);
    ExtendCorrect(base, bs, d);
    TotalSplit(g, |g| - 1);
    assert g[|g|..] == [];
    assert bs != [] && bs[|bs| - 1].free ==> g[..|g| - 1] == bs[..|bs| - 1];
    assert !(bs != [] && bs[|bs| - 1].free) ==> g[..|g| - 1] == bs;
  }

  /** The growth bound: ceil((n + 6) / PAGE_SIZE) pages always suffice, and one page more if aligned. */
  lemma RoundsBound(base: nat, bs: seq<Block>, n: nat, align: bool)
    ensures Rounds(base, bs, n, align) <=
            CeilDiv(n + HEADER + (if align then PAGE_SIZE + HEADER else 0), PAGE_SIZE)
  {
    if FirstFit(base, bs, n, align) == |bs| {
      if bs != [] && bs[|bs| - 1].free {
        TotalSplit(bs, |bs| - 1);
      }
      assert TailAddr(base, bs) <= base + Total(bs);
    }
  }

  // ----- The two heap operations

  /** The heap in which a request is served: grown first if it has to be. */
  function Grown(base: nat, bs: seq<Block>, n: nat, align: bool): seq<Block> {
    Extend(bs, Rounds(base, bs, n, align) * PAGE_SIZE)
  }

  lemma GrownFits(base: nat, bs: seq<Block>, n: nat, align: bool)
    requires NoAdjacentFree(bs)
    ensures var g := Grown(base, bs, n, align);
            var k := FirstFit(base, g, n, align);
            k < |g| && Suits(Addr(base, g, k), g[k], n, align)
  {
    if FirstFit(base, bs, n, align) == |bs| {
      RoundsExact(base, bs, n, align, Rounds(base, bs, n, align));
    }
  }

  function Malloc(base: nat, bs: seq<Block>, n: nat, align: bool): seq<Block>
    requires NoAdjacentFree(bs)
  {
    GrownFits(base, bs, n, align);
    var g := Grown(base, bs, n, align);
    Place(base, g, FirstFit(base, g, n, align), n, align)
  }

  /** The address `malloc` returns. */
  function MallocAddr(base: nat, bs: seq<Block>, n: nat, align: bool): nat
    requires NoAdjacentFree(bs)
  {
    GrownFits(base, bs, n, align);
    var g := Grown(base, bs, n, align);
    Payload(Addr(base, g, FirstFit(base, g, n, align)), align)
  }

  ghost predicate LiveAt(base: nat, bs: seq<Block>, ptr: nat, k: nat) {
    k < |bs| && !bs[k].free && ptr == Addr(base, bs, k) + HEADER
  }

  ghost predicate IsLive(base: nat, bs: seq<Block>, ptr: nat) {
    exists k :: LiveAt(base, bs, ptr, k)
  }

  function Free(bs: seq<Block>, k: nat): seq<Block>
    requires k < |bs|
  {
    Unite(bs[k := Block(true, bs[k].size)])
  }

  lemma FreeCorrect(base: nat, bs: seq<Block>, k: nat)
    requires k < |bs| && !bs[k].free
    ensures Total(Free(bs, k)) == Total(bs)
    ensures NoAdjacentFree(Free(bs, k))
    ensures LiveOf(base, bs) ==
            LiveBefore(base, bs, k) + [Live(Addr(base, bs, k) + HEADER, bs[k].size)] + LiveAfter(base, bs, k)
    ensures LiveOf(base, Free(bs, k)) == LiveBefore(base, bs, k) + LiveAfter(base, bs, k)
  {
    var b := Block(true, bs[k].size);
    var marked := bs[k := b];
    UniteCorrect(base, marked);
    assert marked[..k] == bs[..k] && marked[k + 1..] == bs[k + 1..];
    assert Total(marked) == Total(bs) by {
      TotalSplit(bs, k);
      TotalSplit(marked, k);
    }
    One(Addr(base, bs, k), bs[k]);
    One(Addr(base, bs, k), b);
    assert LiveOf(base, marked) == LiveBefore(base, bs, k) + LiveAfter(base, bs, k) by {
      LiveSplit(base, marked, k);
    }
    LiveSplit(base, bs, k);
  }
}
