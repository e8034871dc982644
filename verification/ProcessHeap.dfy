/** The process heap: `malloc` and `free` over headers kept in the process's own memory. */
module ProcessHeap {
  import opened Words
  import opened Blocks
  import opened Policy
  import opened BlockMemory
  import opened AlignedSearch
  import opened AlignedWalk
  import opened Carving

  /** Block `k` of `bs` has been cut for the request, leaving `bs'`; `r` is the header of the piece handed out. */
  ghost predicate Taken(base: nat, bs: seq<Block>, bs': seq<Block>, k: nat, n: nat, align: bool, r: Option<nat>) {
    && k < |bs| && Suits(Addr(base, bs, k), bs[k], n, align)
    && bs' == Place(base, bs, k, n, align)
    && r == Some(Payload(Addr(base, bs, k), align) - HEADER)
  }

  /**
    An unaligned request does not take a block whose payload is smaller than a
    header, which the wrapping guard of `divide_block` would cut all the same.
   */
  ghost predicate SplitSafe(base: nat, bs: seq<Block>, n: nat) {
    var k := FirstFit(base, bs, n, false);
    k < |bs| ==> HEADER <= bs[k].size
  }

  lemma LargeRequestsSafe(base: nat, bs: seq<Block>, n: nat)
    requires HEADER <= n
    ensures SplitSafe(base, bs, n)
  {
  }

  /** The walk over the heap as it stands does what the policy says. */
  ghost predicate Searchable(base: nat, bs: seq<Block>, n: nat, align: bool) {
    if align then NoTrap(base, bs, n) else SplitSafe(base, bs, n)
  }

  /**
    What `malloc` needs of the heap to answer a request of `n` bytes: it can be
    searched, and if it has to grow then it ends where a page ends.
   */
  ghost predicate Answers(base: nat, bs: seq<Block>, n: nat, align: bool) {
    Searchable(base, bs, n, align) && GrowsOnPage(base, bs, n, align)
  }

  /** If block `k` is looked into for this request, the search or the cut goes well. */
  ghost predicate Workable(ea: nat, b: Block, n: nat, align: bool) {
    Enters(b, n) ==> if align then SearchEnds(ea, b.size, n) else HEADER <= b.size
  }

  lemma WorkableAt(base: nat, bs: seq<Block>, n: nat, align: bool, k: nat)
    requires Searchable(base, bs, n, align) && k < |bs|
    requires NoneBefore(base, bs, n, align, k)
    ensures Workable(Addr(base, bs, k), bs[k], n, align)
  {
    if Suits(Addr(base, bs, k), bs[k], n, align) {
      FirstFitUnique(base, bs, n, align, k);
    } else {
      FirstFitBeyond(base, bs, n, align, k);
      assert align ==> ClearAt(base, bs, n, k);
    }
  }

  lemma FirstFitBeyond(base: nat, bs: seq<Block>, n: nat, align: bool, k: nat)
    requires k < |bs| && NoneBefore(base, bs, n, align, k) && !Suits(Addr(base, bs, k), bs[k], n, align)
    ensures k < FirstFit(base, bs, n, align)
  {
  }

  class Heap {
    const mem: array<byte>
    /** heap_stack_boundary */
    const base: nat
    /** heap_size */
    var size: nat
    /** What the headers spell out. */
    ghost var blocks: seq<Block>

    /** The headers in memory tile the heap exactly. */
    ghost predicate Tiling()
      reads this, mem
    {
      && mem.Length == TWO32
      && base + size < TWO32
      && blocks != []
      && Total(blocks) == size
      && Tiled(mem[..], base, blocks)
    }

    ghost predicate Valid()
      reads this, mem
    {
      Tiling() && NoAdjacentFree(blocks)
    }

    /** initialise_heap */
    constructor (mem: array<byte>, base: nat, size: nat)
      requires mem.Length == TWO32
      requires HEADER <= size && base + size < TWO32
      modifies mem
      ensures Valid() && this.mem == mem && this.base == base && this.size == size
      ensures blocks == [Block(true, size - HEADER)]
      ensures AgreeOutside(old(mem[..]), mem[..], base, base + HEADER)
    {
      this.mem, this.base, this.size := mem, base, size;
      this.blocks := [Block(true, size - HEADER)];
      new;
      StoreSize(mem, base, size - HEADER);
      StoreFlag(mem, base, true);
      TiledOne(mem[..], base, Block(true, size - HEADER));
    }

    method GetFreeBlock(n: uint32, align: bool) returns (r: Option<nat>)
      requires Valid()
      requires 0 < n && Searchable(base, blocks, n, align)
      modifies mem, `blocks
      ensures Valid()
      ensures var k := FirstFit(base, old(blocks), n, align);
              if k == |old(blocks)| then r == None && blocks == old(blocks) && mem[..] == old(mem[..])
              else Taken(base, old(blocks), blocks, k, n, align, r)
      ensures Untouched(old(mem[..]), mem[..], LiveOf(base, old(blocks)), base, base + size)
    {
      var i := 0;
      ghost var k := 0;
      while i < size
        invariant 0 <= k <= |blocks| && base + i == Addr(base, blocks, k)
        invariant NoneBefore(base, blocks, n, align, k)
        invariant blocks == old(blocks) && mem[..] == old(mem[..])
        decreases |blocks| - k
      {
        AtBlock(k, i);
        WorkableAt(base, blocks, n, align, k);
        r := TryBlock(k, base + i, n, align);
        if r.Some? {
          FirstFitUnique(base, old(blocks), n, align, k);
          return r;
        }
        i := i + HEADER + SizeAt(mem[..], base + i);
        k := k + 1;
      }
      WalkEnds(base, blocks, k);
      FirstFitUnique(base, blocks, n, align, k);
      return None;
    }

    /** A walk that is not past the end stands at the header of the next block. */
    lemma AtBlock(k: nat, i: nat)
      requires Tiling() && k <= |blocks| && i < size && base + i == Addr(base, blocks, k)
      ensures k < |blocks| && base + i + HEADER <= TWO32
      ensures SizeAt(mem[..], base + i) == blocks[k].size
      ensures Addr(base, blocks, k + 1) == base + i + Extent(blocks[k])
    {
      WalkEnds(base, blocks, k);
      TiledAt(mem[..], base, blocks, k);
    }

    /** One turn of the walk: the block headed at `ea` is taken if it suits. */
    method TryBlock(ghost k: nat, ea: nat, n: uint32, align: bool) returns (r: Option<nat>)
      requires Valid() && 0 < n
      requires k < |blocks| && ea == Addr(base, blocks, k)
      requires Workable(ea, blocks[k], n, align)
      modifies mem, `blocks
      ensures Valid()
      ensures if !Suits(ea, old(blocks)[k], n, align)
              then r == None && blocks == old(blocks) && mem[..] == old(mem[..])
              else Taken(base, old(blocks), blocks, k, n, align, r)
      ensures Untouched(old(mem[..]), mem[..], LiveOf(base, old(blocks)), base, base + size)
    {
      TiledAt(mem[..], base, blocks, k);
      r := None;
      if FlagAt(mem[..], ea) != 0 && SizeAt(mem[..], ea) >= n {
        if align {
          // The test for an already aligned payload compares `ea + 6` with zero.
          assert Wrap(ea + HEADER) != 0;
          var p := SearchBoundary(ea, SizeAt(mem[..], ea), n);
          if p.Some? {
            TakeAligned(k, ea, p.value, n);
            r := Some(p.value - HEADER);
          }
        } else {
          TakePlain(k, ea, n);
          r := Some(ea);
        }
      }
    }

    method TakePlain(ghost k: nat, ea: nat, n: uint32)
      requires Valid()
      requires k < |blocks| && ea == Addr(base, blocks, k)
      requires Suits(ea, blocks[k], n, false) && HEADER <= blocks[k].size
      modifies mem, `blocks
      ensures Valid()
      ensures blocks == Place(base, old(blocks), k, n, false)
      ensures Untouched(old(mem[..]), mem[..], LiveOf(base, old(blocks)), base, base + size)
    {
      TiledAt(mem[..], base, blocks, k);
      CarvePlain(mem, ea, n);
      PlaceCorrect(base, blocks, k, n, false);
      Retile(old(mem[..]), mem[..], base, blocks, k, Carve(ea, blocks[k], n, false));
      WritesInBlock(old(mem[..]), mem[..], base, blocks, k, ea + Extent(blocks[k]));
      blocks := Place(base, blocks, k, n, false);
    }

    method TakeAligned(ghost k: nat, ea: nat, p: nat, n: uint32)
      requires Valid()
      requires k < |blocks| && ea == Addr(base, blocks, k)
      requires Suits(ea, blocks[k], n, true) && p == NextPage(ea + 2 * HEADER)
      modifies mem, `blocks
      ensures Valid()
      ensures blocks == Place(base, old(blocks), k, n, true)
      ensures Untouched(old(mem[..]), mem[..], LiveOf(base, old(blocks)), base, base + size)
    {
      TiledAt(mem[..], base, blocks, k);
      CarveAligned(mem, ea, p, n);
      PlaceCorrect(base, blocks, k, n, true);
      Retile(old(mem[..]), mem[..], base, blocks, k, Carve(ea, blocks[k], n, true));
      WritesInBlock(old(mem[..]), mem[..], base, blocks, k, ea + Extent(blocks[k]));
      blocks := Place(base, blocks, k, n, true);
    }

    // ----- Merging

    method UniteFreeBlocks()
      requires Tiling()
      modifies mem, `blocks
      ensures Valid()
      ensures blocks == Unite(old(blocks))
      ensures Untouched(old(mem[..]), mem[..], LiveOf(base, old(blocks)), base, base + size)
    {
      ghost var done, cur, rest := [], blocks[0], blocks[1..];
      Start();
      var prev := base;
      var i := SizeAt(mem[..], base) + HEADER;
      while i < size
        invariant Passing(old(blocks), done, cur, rest)
        invariant prev == base + Total(done) && i == Total(done) + Extent(cur)
        invariant Untouched(old(mem[..]), mem[..], LiveOf(base, old(blocks)), base, base + size)
        decreases |rest|
      {
        Cursor(done, cur, rest);
        var info := base + i;
        i := i + HEADER + SizeAt(mem[..], info);
        ghost var m := mem[..];
        prev, done, cur, rest := PassBlock(old(blocks), done, cur, rest, prev, info);
        UntouchedAcross(old(mem[..]), m, mem[..], LiveOf(base, old(blocks)), base, base + size, base + size);
      }
      Finish(old(blocks), done, cur, rest);
    }

    /** One turn of the merge pass: the block at `info` joins its predecessor or becomes it. */
    method PassBlock(ghost bs: seq<Block>, ghost done: seq<Block>, ghost cur: Block, ghost rest: seq<Block>,
                     prev: nat, info: nat)
      returns (prev': nat, ghost done': seq<Block>, ghost cur': Block, ghost rest': seq<Block>)
      requires Passing(bs, done, cur, rest)
      requires rest != []
      requires prev == base + Total(done) && info == prev + Extent(cur)
      requires info + Extent(rest[0]) <= base + size
      requires HeaderAt(mem[..], prev) == cur && HeaderAt(mem[..], info) == rest[0]
      modifies mem, `blocks
      ensures Passing(bs, done', cur', rest')
      ensures prev' == base + Total(done')
      ensures prev' + Extent(cur') == info + Extent(rest[0])
      ensures |rest'| < |rest|
      ensures Untouched(old(mem[..]), mem[..], LiveOf(base, bs), base, base + size)
    {
      rest' := rest[1..];
      if FlagAt(mem[..], info) != 0 && FlagAt(mem[..], prev) != 0 {
        MergeNext(bs, done, cur, rest, prev, info);
        prev', done', cur' := prev, done, Block(true, cur.size + Extent(rest[0]));
      } else {
        Advance(bs, done, cur, rest);
        prev', done', cur' := info, done + [cur], rest[0];
      }
    }

    /** The merge pass over `bs` has settled `done`, holds `cur` and has `rest` to go. */
    ghost predicate Passing(bs: seq<Block>, done: seq<Block>, cur: Block, rest: seq<Block>)
      reads this, mem
    {
      && Tiling()
      && blocks == done + [cur] + rest
      && Unite(bs) == done + Unite([cur] + rest)
      && LiveOf(base, blocks) == LiveOf(base, bs)
    }

    lemma Start()
      requires Tiling()
      ensures Passing(blocks, [], blocks[0], blocks[1..])
      ensures SizeAt(mem[..], base) == blocks[0].size
    {
      var cur, rest := blocks[0], blocks[1..];
      assert [cur] + rest == blocks == [] + [cur] + rest;
      assert [] + Unite(blocks) == Unite(blocks);
    }

    lemma Advance(bs: seq<Block>, done: seq<Block>, cur: Block, rest: seq<Block>)
      requires Passing(bs, done, cur, rest)
      requires rest != [] && !(cur.free && rest[0].free)
      ensures Passing(bs, done + [cur], rest[0], rest[1..])
      ensures Total(done + [cur]) == Total(done) + Extent(cur)
    {
      UniteSkip(cur, rest);
      TotalConcat(done, [cur]);
      One(0, cur);
      assert [rest[0]] + rest[1..] == rest;
      assert done + [cur] + rest == (done + [cur]) + [rest[0]] + rest[1..];
    }

    /** Where a merge pass stands between its previous block `cur` and what is left. */
    lemma Cursor(done: seq<Block>, cur: Block, rest: seq<Block>)
      requires Tiling() && blocks == done + [cur] + rest
      requires Total(done) + Extent(cur) < size
      ensures rest != []
      ensures base + Total(done) + Extent(cur) + Extent(rest[0]) <= base + size
      ensures HeaderAt(mem[..], base + Total(done)) == cur
      ensures HeaderAt(mem[..], base + Total(done) + Extent(cur)) == rest[0]
    {
      var k := |done|;
      assert blocks[..k] == done && blocks[k] == cur;
      assert blocks[..k + 1] == done + [cur];
      TotalSplit(blocks, k);
      WalkEnds(base, blocks, k + 1);
      TiledAt(mem[..], base, blocks, k);
      TiledAt(mem[..], base, blocks, k + 1);
    }

    lemma Finish(bs: seq<Block>, done: seq<Block>, cur: Block, rest: seq<Block>)
      requires Passing(bs, done, cur, rest)
      requires Total(done) + Extent(cur) >= size
      ensures blocks == Unite(bs) && NoAdjacentFree(blocks)
    {
      var k := |done|;
      assert blocks[..k] == done && blocks[k] == cur;
      TotalSplit(blocks, k);
      WalkEnds(base, blocks, k + 1);
      assert rest == [] && [cur] + rest == [cur];
      UniteCorrect(base, bs);
    }

    method MergeNext(ghost bs: seq<Block>, ghost done: seq<Block>, ghost cur: Block, ghost rest: seq<Block>,
                     prev: nat, info: nat)
      requires Passing(bs, done, cur, rest)
      requires rest != [] && cur.free && rest[0].free
      requires prev == base + Total(done) && info == prev + Extent(cur)
      requires info + Extent(rest[0]) <= base + size
      requires HeaderAt(mem[..], prev) == cur && HeaderAt(mem[..], info) == rest[0]
      modifies mem, `blocks
      ensures Passing(bs, done, Block(true, cur.size + Extent(rest[0])), rest[1..])
      ensures Untouched(old(mem[..]), mem[..], LiveOf(base, bs), base, base + size)
    {
      ghost var merged := Block(true, cur.size + Extent(rest[0]));
      StoreSize(mem, prev, SizeAt(mem[..], prev) + HEADER + SizeAt(mem[..], info));
      assert HeaderAt(mem[..], prev) == merged;
      MergeTiles(old(mem[..]), mem[..], base, done, cur, rest);
      MergeKeepsLive(base, done, cur, rest);
      UniteMerge(cur, rest);
      assert blocks[..|done|] == done && blocks[|done|] == cur;
      WritesInBlock(old(mem[..]), mem[..], base, blocks, |done|, prev + HEADER);
      blocks := done + [merged] + rest[1..];
    }

    method Grow()
      requires Valid()
      requires base + size + PAGE_SIZE < TWO32
      modifies mem, `blocks, `size
      ensures Valid()
      ensures size == old(size) + PAGE_SIZE
      ensures blocks == Extend(old(blocks), PAGE_SIZE)
      ensures Untouched(old(mem[..]), mem[..], LiveOf(base, old(blocks)), base, base + size)
    {
      AppendPage();
      GrowIsExtend(old(blocks));
      ghost var m := mem[..];
      UniteFreeBlocks();
      UntouchedAcross(old(mem[..]), m, mem[..], LiveOf(base, old(blocks)), base, base + size, base + size);
    }

    /** The new page, not yet merged with a free block before it. */
    method AppendPage()
      requires Valid()
      requires base + size + PAGE_SIZE < TWO32
      modifies mem, `blocks, `size
      ensures Tiling()
      ensures size == old(size) + PAGE_SIZE
      ensures blocks == old(blocks) + [Block(true, PAGE_SIZE - HEADER)]
      ensures LiveOf(base, blocks) == LiveOf(base, old(blocks))
      ensures Untouched(old(mem[..]), mem[..], LiveOf(base, blocks), base, base + size)
    {
      ghost var page := Block(true, PAGE_SIZE - HEADER);
      var pageStart := base + size;
      StoreSize(mem, pageStart, PAGE_SIZE - HEADER);
      StoreFlag(mem, pageStart, true);
      size := size + PAGE_SIZE;
      One(0, page);
      AppendTiles(old(mem[..]), mem[..], base, blocks, page);
      blocks := blocks + [page];
      assert blocks[..|blocks| - 1] == old(blocks);
      WritesInBlock(old(mem[..]), mem[..], base, blocks, |blocks| - 1, pageStart + HEADER);
    }

    // ----- The interface

    method Malloc(n: uint32, align: bool) returns (r: Option<nat>)
      requires Valid()
      requires n != 0 ==> Answers(base, blocks, n, align)
      requires n != 0 ==> base + size + Rounds(base, blocks, n, align) * PAGE_SIZE < TWO32
      modifies mem, `blocks, `size
      ensures Valid()
      ensures n == 0 ==> r == None && size == old(size) && blocks == old(blocks) && mem[..] == old(mem[..])
      ensures n != 0 ==>
                && r == Some(MallocAddr(base, old(blocks), n, align))
                && blocks == Policy.Malloc(base, old(blocks), n, align)
                && size == old(size) + Rounds(base, old(blocks), n, align) * PAGE_SIZE
      ensures Untouched(old(mem[..]), mem[..], LiveOf(base, old(blocks)), base, base + size)
    {
      if n == 0 { return None; }
      ghost var j, bs, rounds := 0, blocks, Rounds(base, blocks, n, align);
      var found: Option<nat> := None;
      while found == None
        invariant Valid() && 0 <= j <= rounds
        invariant size == old(size) + j * PAGE_SIZE
        invariant found == None ==> blocks == Extend(bs, j * PAGE_SIZE)
        invariant found.Some? ==>
                    && j == rounds
                    && found.value + HEADER == MallocAddr(base, bs, n, align)
                    && blocks == Policy.Malloc(base, bs, n, align)
        invariant Untouched(old(mem[..]), mem[..], LiveOf(base, bs), base, base + size)
        decreases rounds - j, found == None
      {
        ghost var m := mem[..];
        RoundReady(base, bs, n, align, j);
        found := MallocRound(n, align);
        RoundFits(base, bs, n, align, j);
        UntouchedAcross(old(mem[..]), m, mem[..], LiveOf(base, bs),
                        base, base + old(size) + j * PAGE_SIZE, base + size);
        if found == None { j := j + 1; }
      }
      return Some(found.value + HEADER);
    }

    /** One turn of the `malloc` loop. */
    method MallocRound(n: uint32, align: bool) returns (found: Option<nat>)
      requires Valid() && 0 < n && Searchable(base, blocks, n, align)
      requires FirstFit(base, blocks, n, align) == |blocks| ==> base + size + PAGE_SIZE < TWO32
      modifies mem, `blocks, `size
      ensures Valid()
      ensures Untouched(old(mem[..]), mem[..], LiveOf(base, old(blocks)), base, base + size)
      ensures var k := FirstFit(base, old(blocks), n, align);
              if k == |old(blocks)|
              then found == None && size == old(size) + PAGE_SIZE && blocks == Extend(old(blocks), PAGE_SIZE)
              else Taken(base, old(blocks), blocks, k, n, align, found) && size == old(size)
    {
      found := GetFreeBlock(n, align);
      if found == None {
        Grow();
      }
    }

    method Free(ptr: nat)
      requires Valid()
      requires IsLive(base, blocks, ptr)
      modifies mem, `blocks
      ensures Valid()
      ensures exists k: nat :: LiveAt(base, old(blocks), ptr, k) && blocks == Policy.Free(old(blocks), k)
      ensures Untouched(old(mem[..]), mem[..], LiveOf(base, blocks), base, base + size)
    {
      ghost var k: nat :| LiveAt(base, blocks, ptr, k);
      FreeCorrect(base, blocks, k);
      MarkFree(k, ptr - HEADER);
      ghost var m, bs := mem[..], blocks;
      UniteCorrect(base, bs);
      UniteFreeBlocks();
      UntouchedAcross(old(mem[..]), m, mem[..], LiveOf(base, bs), base, base + size, base + size);
    }

    method MarkFree(ghost k: nat, info: nat)
      requires Tiling()
      requires k < |blocks| && !blocks[k].free && info == Addr(base, blocks, k)
      modifies mem, `blocks
      ensures Tiling()
      ensures blocks == old(blocks)[k := Block(true, old(blocks)[k].size)]
      ensures Untouched(old(mem[..]), mem[..], LiveOf(base, blocks), base, base + size)
    {
      TiledAt(mem[..], base, blocks, k);
      StoreFlag(mem, info, true);
      ghost var b := Block(true, blocks[k].size);
      TiledOne(mem[..], info, b);
      Retile(old(mem[..]), mem[..], base, blocks, k, [b]);
      assert blocks[..k] + [b] + blocks[k + 1..] == blocks[k := b];
      blocks := blocks[k := b];
      assert blocks[..k] == old(blocks)[..k];
      WritesInBlock(old(mem[..]), mem[..], base, blocks, k, info + HEADER);
    }
  }

  // ----- Steps of the proofs above that speak of sequences only

  lemma AppendTiles(m: seq<byte>, m': seq<byte>, base: nat, bs: seq<Block>, page: Block)
    requires base + Total(bs) + Extent(page) <= |m| == |m'| && Total([page]) == Extent(page)
    requires Tiled(m, base, bs)
    requires Agree(m, m', base, base + Total(bs))
    requires HeaderAt(m', base + Total(bs)) == page && page.free
    ensures Total(bs + [page]) == Total(bs) + Extent(page)
    ensures Tiled(m', base, bs + [page])
    ensures LiveOf(base, bs + [page]) == LiveOf(base, bs)
  {
    assert LiveOf(base, bs + [page]) == LiveOf(base, bs) by {
      LiveConcat(base, bs, [page]);
      One(base + Total(bs), page);
    }
    TotalConcat(bs, [page]);
    assert Tiled(m', base + Total(bs), [page]) by { TiledOne(m', base + Total(bs), page); }
    assert Tiled(m', base, bs) by { TiledFrame(m, m', base, bs); }
    assert Tiled(m', base, bs + [page]) by { TiledConcat(m', base, bs, [page]); }
  }

  /** Growing keeps a request safe: the free space at the end only gets larger. */
  lemma StillSafe(base: nat, bs: seq<Block>, n: nat, j: nat)
    requires NoAdjacentFree(bs) && SplitSafe(base, bs, n) && j <= Rounds(base, bs, n, false)
    ensures SplitSafe(base, Extend(bs, j * PAGE_SIZE), n)
  {
    if j > 0 {
      var g := Extend(bs, j * PAGE_SIZE);
      assert g[|g| - 1].size >= PAGE_SIZE - HEADER;
      RoundsExact(base, bs, n, false, j);
    }
  }

  /** Every round of `malloc` finds the heap fit to be searched. */
  lemma RoundReady(base: nat, bs: seq<Block>, n: nat, align: bool, j: nat)
    requires NoAdjacentFree(bs) && j <= Rounds(base, bs, n, align)
    requires Answers(base, bs, n, align) && 0 < n
    ensures var g := Extend(bs, j * PAGE_SIZE);
            && Searchable(base, g, n, align)
            && (FirstFit(base, g, n, align) == |g| ==> j < Rounds(base, bs, n, align))
  {
    if align {
      OnPageEndGrows(base, bs, n);
      GrownNoTrap(base, bs, n, j);
    } else {
      StillSafe(base, bs, n, j);
    }
    RoundFits(base, bs, n, align, j);
  }

  /** Round `j` of `malloc` finds a block exactly when it is the last one. */
  lemma RoundFits(base: nat, bs: seq<Block>, n: nat, align: bool, j: nat)
    requires NoAdjacentFree(bs) && j <= Rounds(base, bs, n, align)
    ensures var g := Extend(bs, j * PAGE_SIZE);
            && (FirstFit(base, g, n, align) < |g| <==> j == Rounds(base, bs, n, align))
            && LiveOf(base, g) == LiveOf(base, bs)
            && Total(g) == Total(bs) + j * PAGE_SIZE
            && Extend(g, PAGE_SIZE) == Extend(bs, (j + 1) * PAGE_SIZE)
            && var k := FirstFit(base, g, n, align);
            && (k < |g| ==>
                  && Place(base, g, k, n, align) == Policy.Malloc(base, bs, n, align)
                  && Payload(Addr(base, g, k), align) == MallocAddr(base, bs, n, align))
  {
    ExtendTwice(bs, j * PAGE_SIZE, PAGE_SIZE);
    ExtendCorrect(base, bs, j * PAGE_SIZE);
    if FirstFit(base, bs, n, align) == |bs| {
      RoundsExact(base, bs, n, align, j);
    }
  }

  lemma MergeTiles(m: seq<byte>, m': seq<byte>, base: nat, done: seq<Block>, cur: Block, rest: seq<Block>)
    requires rest != [] && cur.free && rest[0].free
    requires base + Total(done + [cur] + rest) <= |m| == |m'|
    requires Tiled(m, base, done + [cur] + rest)
    requires base + Total(done) + HEADER <= |m|
    requires AgreeOutside(m, m', base + Total(done), base + Total(done) + HEADER)
    requires HeaderAt(m', base + Total(done)) == Block(true, cur.size + Extent(rest[0]))
    ensures var bs := done + [Block(true, cur.size + Extent(rest[0]))] + rest[1..];
            Total(bs) == Total(done + [cur] + rest) && Tiled(m', base, bs)
  {
    var merged := Block(true, cur.size + Extent(rest[0]));
    var pair := [cur, rest[0]];
    assert done + [cur] + rest == done + pair + rest[1..];
    Two(0, cur, rest[0]);
    TotalConcat(done, pair);
    TotalConcat(done + pair, rest[1..]);
    TiledOne(m', base + Total(done), merged);
    RetileParts(m, m', base, done, pair, rest[1..], [merged]);
  }

  lemma MergeKeepsLive(base: nat, done: seq<Block>, cur: Block, rest: seq<Block>)
    requires rest != [] && cur.free && rest[0].free
    ensures LiveOf(base, done + [Block(true, cur.size + Extent(rest[0]))] + rest[1..]) ==
            LiveOf(base, done + [cur] + rest)
  {
    var merged, pair := Block(true, cur.size + Extent(rest[0])), [cur, rest[0]];
    var at := base + Total(done);
    Two(at, cur, rest[0]);
    One(at, cur);
    One(at + Extent(cur), rest[0]);
    One(at, merged);
    assert done + [cur] + rest == done + pair + rest[1..];
    LiveReplace(base, done, pair, [merged], rest[1..]);
  }
}
