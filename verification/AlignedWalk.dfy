/**
  When an aligned request is answered. `get_free_block` enters every free block
  that is large enough until one suits, and the boundary search inside a block
  may not stop, or may settle outside a block of less than six bytes; `NoTrap`
  says exactly when neither happens. A heap that grows must end on a page end.
 */
module AlignedWalk {
  import opened Words
  import opened Blocks
  import opened Policy
  import opened AlignedSearch

  /** The walk looks for a boundary in block `b`. */
  predicate Enters(b: Block, n: nat) { b.free && n <= b.size }

  /** The walk over `bs` from `ea` returns an address in a block, or none: every search on its way has a good end. */
  ghost predicate WalkReturns(ea: nat, bs: seq<Block>, n: uint32)
    requires ea + Total(bs) < TWO32
    decreases |bs|
  {
    bs == []
    || (Enters(bs[0], n) && FindsIn(ea, bs[0], n))
    || ((Enters(bs[0], n) ==> Leaves(ea, bs[0], n)) && WalkReturns(ea + Extent(bs[0]), bs[1..], n))
  }

  /** The search settles on a boundary in block `b`. */
  ghost predicate FindsIn(ea: nat, b: Block, n: uint32)
    requires ea + Extent(b) < TWO32
  {
    exists k: nat :: StopsWell(ea, b.size, n, k) && Probe(ea, b.size, n, Candidate(ea, k)) == Found
  }

  /** The search gives block `b` up. */
  ghost predicate Leaves(ea: nat, b: Block, n: uint32)
    requires ea + Extent(b) < TWO32
  {
    exists k: nat :: StopsWell(ea, b.size, n, k) && Probe(ea, b.size, n, Candidate(ea, k)) == Leave
  }

  /** No block that the request enters before the first fit traps the boundary search. */
  ghost predicate NoTrap(base: nat, bs: seq<Block>, n: nat) {
    forall k :: 0 <= k < FirstFit(base, bs, n, true) ==> ClearAt(base, bs, n, k)
  }

  /** Block `k` is not a trap for the request. */
  ghost predicate ClearAt(base: nat, bs: seq<Block>, n: nat, k: nat)
    requires k < |bs|
  {
    Enters(bs[k], n) ==> SearchEnds(Addr(base, bs, k), bs[k].size, n)
  }

  /** The walk returns an address in a block, or none, if and only if no block before the first fit is a trap. */
  lemma {:induction false} WalkReturnsExactly(base: nat, bs: seq<Block>, n: uint32)
    requires base + Total(bs) < TWO32 && 0 < n
    ensures WalkReturns(base, bs, n) <==> NoTrap(base, bs, n)
    decreases |bs|
  {
    if bs != [] {
      WalkReturnsExactly(base + Extent(bs[0]), bs[1..], n);
      NoTrapStep(base, bs, n);
      if Enters(bs[0], n) {
        SearchOutcome(base, bs[0], n);
      }
    }
  }

  lemma SearchOutcome(ea: nat, b: Block, n: uint32)
    requires ea + Extent(b) < TWO32 && 0 < n && Enters(b, n)
    ensures FindsIn(ea, b, n) <==> Suits(ea, b, n, true)
    ensures Leaves(ea, b, n) <==> SearchEnds(ea, b.size, n) && !Suits(ea, b, n, true)
  {
    EndsWellExactly(ea, b.size, n);
    forall k: nat | StopsWell(ea, b.size, n, k)
      ensures Probe(ea, b.size, n, Candidate(ea, k)) == Found <==> Suits(ea, b, n, true)
    {
      WellStopped(ea, b.size, n, k);
    }
  }

  lemma NoTrapStep(base: nat, bs: seq<Block>, n: nat)
    requires bs != []
    ensures NoTrap(base, bs, n) <==>
            if Enters(bs[0], n)
            then Suits(base, bs[0], n, true)
                 || (SearchEnds(base, bs[0].size, n) && NoTrap(base + Extent(bs[0]), bs[1..], n))
            else NoTrap(base + Extent(bs[0]), bs[1..], n)
  {
    assert Addr(base, bs, 0) == base;
    if !Suits(base, bs[0], n, true) {
      var next, rest := base + Extent(bs[0]), bs[1..];
      var m := FirstFit(next, rest, n, true);
      assert FirstFit(base, bs, n, true) == m + 1;
      forall k: nat | k < m ensures ClearAt(base, bs, n, k + 1) <==> ClearAt(next, rest, n, k) {
        AddrTail(base, bs, k + 1);
      }
      if NoTrap(next, rest, n) && ClearAt(base, bs, n, 0) {
        forall k | 0 <= k < m + 1 ensures ClearAt(base, bs, n, k) {
          if k > 0 { assert ClearAt(next, rest, n, k - 1); }
        }
      }
    }
  }

  // ----- While the heap grows

  /** The growing block at the end is not entered too early, or ends where the search stops. */
  ghost predicate GrowthEnds(base: nat, bs: seq<Block>, n: nat) {
    var rounds, end := Rounds(base, bs, n, true), base + Total(bs);
    rounds <= 1 || end % PAGE_SIZE < n || end + (rounds - 1) * PAGE_SIZE < TailAddr(base, bs) + HEADER + n
  }

  /** A heap that ends on a page boundary sets no trap while it grows. */
  lemma PageEndGrows(base: nat, bs: seq<Block>, n: nat)
    requires (base + Total(bs)) % PAGE_SIZE == 0 && 0 < n
    ensures GrowthEnds(base, bs, n)
  {
  }

  /** The blocks in front of the growing end stand where and as they did. */
  lemma GrownFront(base: nat, bs: seq<Block>, d: nat, k: nat)
    requires d >= HEADER && k < |Extend(bs, d)| - 1
    ensures k < |bs| && Extend(bs, d)[k] == bs[k] && Addr(base, Extend(bs, d), k) == Addr(base, bs, k)
  {
    assert Extend(bs, d)[..k] == bs[..k];
  }

  lemma TailSearchEnds(tail: nat, size: nat, end: nat, n: nat, j: nat, rounds: nat)
    requires tail + HEADER + size == end + j * PAGE_SIZE && n <= size && j < rounds
    requires end % PAGE_SIZE < n || end + (rounds - 1) * PAGE_SIZE < tail + HEADER + n
    ensures SearchEnds(tail, size, n)
  {
  }

  lemma GrownNoTrap(base: nat, bs: seq<Block>, n: nat, j: nat)
    requires NoAdjacentFree(bs) && j <= Rounds(base, bs, n, true)
    requires NoTrap(base, bs, n) && GrowthEnds(base, bs, n)
    ensures NoTrap(base, Extend(bs, j * PAGE_SIZE), n)
  {
    if j > 0 {
      forall k | 0 <= k < FirstFit(base, Extend(bs, j * PAGE_SIZE), n, true)
        ensures ClearAt(base, Extend(bs, j * PAGE_SIZE), n, k)
      {
        GrownClear(base, bs, n, j, k);
      }
    }
  }

  lemma GrownClear(base: nat, bs: seq<Block>, n: nat, j: nat, k: nat)
    requires NoAdjacentFree(bs) && 0 < j <= Rounds(base, bs, n, true)
    requires NoTrap(base, bs, n) && GrowthEnds(base, bs, n)
    requires k < FirstFit(base, Extend(bs, j * PAGE_SIZE), n, true)
    ensures ClearAt(base, Extend(bs, j * PAGE_SIZE), n, k)
  {
    var d := j * PAGE_SIZE;
    var g := Extend(bs, d);
    RoundsExact(base, bs, n, true, j);
    if k < |g| - 1 {
      GrownFront(base, bs, d, k);
      assert ClearAt(base, bs, n, k);
    } else if Enters(g[k], n) {
      TailOfExtend(base, bs, d);
      TailSearchEnds(Addr(base, g, k), g[k].size, base + Total(bs), n, j, Rounds(base, bs, n, true));
    }
  }

  lemma TailTraps(tail: nat, size: nat, end: nat, n: nat, j: nat)
    requires tail + HEADER + size == end + j * PAGE_SIZE
    requires SearchEnds(tail, size, n) && !Suits(tail, Block(true, size), n, true)
    ensures end % PAGE_SIZE < n
  {
  }

  /** After `j` pages of growth no block is a trap. */
  ghost predicate RoundClear(base: nat, bs: seq<Block>, n: nat, j: nat) {
    NoTrap(base, Extend(bs, j * PAGE_SIZE), n)
  }

  lemma GrowthMustEnd(base: nat, bs: seq<Block>, n: nat)
    requires NoAdjacentFree(bs)
    requires forall j: nat :: j <= Rounds(base, bs, n, true) ==> RoundClear(base, bs, n, j)
    ensures GrowthEnds(base, bs, n)
  {
    var rounds, end := Rounds(base, bs, n, true), base + Total(bs);
    if rounds > 1 && end + (rounds - 1) * PAGE_SIZE >= TailAddr(base, bs) + HEADER + n {
      var j: nat := rounds - 1;
      var g := Extend(bs, j * PAGE_SIZE);
      var m := |g| - 1;
      RoundsExact(base, bs, n, true, j);
      TailOfExtend(base, bs, j * PAGE_SIZE);
      assert RoundClear(base, bs, n, j) && ClearAt(base, g, n, m) && Enters(g[m], n);
      TailTraps(Addr(base, g, m), g[m].size, end, n, j);
    }
  }

  /** Every walk of an aligned `malloc` returns an address in a block, or none. */
  ghost predicate EveryWalkReturns(base: nat, bs: seq<Block>, n: uint32)
    requires NoAdjacentFree(bs) && base + Total(bs) + Rounds(base, bs, n, true) * PAGE_SIZE < TWO32
  {
    forall j: nat :: j <= Rounds(base, bs, n, true) ==> RoundReturns(base, bs, n, j)
  }

  /** So does the walk of round `j`. */
  ghost predicate RoundReturns(base: nat, bs: seq<Block>, n: uint32, j: nat)
    requires NoAdjacentFree(bs) && base + Total(bs) + j * PAGE_SIZE < TWO32
  {
    ExtendCorrect(base, bs, j * PAGE_SIZE);
    WalkReturns(base, Extend(bs, j * PAGE_SIZE), n)
  }

  /** The walks alone: no trap as the heap stands, and none at its growing end wherever that is. */
  lemma AlignedWalksReturn(base: nat, bs: seq<Block>, n: uint32)
    requires NoAdjacentFree(bs) && 0 < n
    requires base + Total(bs) + Rounds(base, bs, n, true) * PAGE_SIZE < TWO32
    ensures EveryWalkReturns(base, bs, n) <==> NoTrap(base, bs, n) && GrowthEnds(base, bs, n)
  {
    forall j: nat | j <= Rounds(base, bs, n, true)
      ensures RoundReturns(base, bs, n, j) <==> RoundClear(base, bs, n, j)
    {
      RoundReturnsExactly(base, bs, n, j);
    }
    if EveryWalkReturns(base, bs, n) {
      assert RoundReturns(base, bs, n, 0) && Extend(bs, 0 * PAGE_SIZE) == bs;
      GrowthMustEnd(base, bs, n);
    }
    if NoTrap(base, bs, n) && GrowthEnds(base, bs, n) {
      forall j: nat | j <= Rounds(base, bs, n, true) ensures RoundClear(base, bs, n, j) {
        GrownNoTrap(base, bs, n, j);
      }
    }
  }

  lemma RoundReturnsExactly(base: nat, bs: seq<Block>, n: uint32, j: nat)
    requires NoAdjacentFree(bs) && 0 < n && base + Total(bs) + j * PAGE_SIZE < TWO32
    ensures RoundReturns(base, bs, n, j) <==> RoundClear(base, bs, n, j)
  {
    ExtendCorrect(base, bs, j * PAGE_SIZE);
    WalkReturnsExactly(base, Extend(bs, j * PAGE_SIZE), n);
  }

  // ----- The pages a growing heap asks for

  /** A heap that ends at `end` grows into the page that holds that address. */
  predicate InPage(a: nat, end: nat) { a / PAGE_SIZE == end / PAGE_SIZE }

  /** That page holds the whole new block and no byte the heap already has. */
  ghost predicate PageFits(end: nat) {
    && (forall a: nat :: end <= a < end + PAGE_SIZE ==> InPage(a, end))
    && (forall a: nat :: a < end ==> !InPage(a, end))
  }

  lemma PageFitsExactly(end: nat)
    ensures PageFits(end) <==> end % PAGE_SIZE == 0
  {
    if end % PAGE_SIZE != 0 {
      assert InPage(end - 1, end);
    }
  }

  /** Every page a request makes the heap grow into fits. */
  ghost predicate EveryPageFits(base: nat, bs: seq<Block>, n: nat, align: bool) {
    var end := base + Total(bs);
    forall j: nat :: j < Rounds(base, bs, n, align) ==> PageFitsAt(end, j)
  }

  ghost predicate PageFitsAt(end: nat, j: nat) {
    PageFits(end + j * PAGE_SIZE)
  }

  /** The heap need not grow, or it ends on a page end, as the declaration of a process asks. */
  predicate GrowsOnPage(base: nat, bs: seq<Block>, n: nat, align: bool) {
    Rounds(base, bs, n, align) == 0 || (base + Total(bs)) % PAGE_SIZE == 0
  }

  lemma EveryPageFitsExactly(base: nat, bs: seq<Block>, n: nat, align: bool)
    ensures EveryPageFits(base, bs, n, align) <==> GrowsOnPage(base, bs, n, align)
  {
    var end := base + Total(bs);
    if Rounds(base, bs, n, align) > 0 {
      assert PageFitsAt(end, 0) <==> PageFits(end);
      PageFitsExactly(end);
      if end % PAGE_SIZE == 0 {
        forall j: nat | j < Rounds(base, bs, n, align) ensures PageFitsAt(end, j) {
          PageFitsExactly(end + j * PAGE_SIZE);
        }
      }
    }
  }

  /**
    An aligned request is answered with an address in a block, every page it
    grows into being fit for it, if and only if no block before the first fit is
    a trap and the heap ends on a page end should it have to grow.
   */
  lemma AlignedMallocReturns(base: nat, bs: seq<Block>, n: uint32)
    requires NoAdjacentFree(bs) && 0 < n
    requires base + Total(bs) + Rounds(base, bs, n, true) * PAGE_SIZE < TWO32
    ensures EveryPageFits(base, bs, n, true) && EveryWalkReturns(base, bs, n) <==>
            NoTrap(base, bs, n) && GrowsOnPage(base, bs, n, true)
  {
    EveryPageFitsExactly(base, bs, n, true);
    AlignedWalksReturn(base, bs, n);
    OnPageEndGrows(base, bs, n);
  }

  lemma OnPageEndGrows(base: nat, bs: seq<Block>, n: nat)
    requires 0 < n
    ensures GrowsOnPage(base, bs, n, true) ==> GrowthEnds(base, bs, n)
  {
  }
}
