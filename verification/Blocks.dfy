/**
  The abstract heap: a sequence of blocks laid end to end from a base address.
  A block is a 6-byte header followed by its payload. Nothing here mentions
  memory; BlockMemory ties block sequences to the headers stored in raw bytes.
 */
module Blocks {

  const HEADER: nat := 6

  datatype Block = Block(free: bool, size: nat)

  /** A live allocation: its payload address and payload size. */
  datatype Live = Live(addr: nat, size: nat)

  function Extent(b: Block): nat { HEADER + b.size }

  function Total(bs: seq<Block>): nat {
    if bs == [] then 0 else Extent(bs[0]) + Total(bs[1..])
  }

  /** The allocations of a heap, in address order. */
  function LiveOf(base: nat, bs: seq<Block>): seq<Live>
    decreases |bs|
  {
    if bs == [] then []
    else (if bs[0].free then [] else [Live(base + HEADER, bs[0].size)])
         + LiveOf(base + Extent(bs[0]), bs[1..])
  }

  ghost predicate NoAdjacentFree(bs: seq<Block>) {
    forall i :: 0 <= i < |bs| - 1 ==> !bs[i].free || !bs[i + 1].free
  }

  // ----- Concatenation

  lemma {:induction false} TotalConcat(xs: seq<Block>, ys: seq<Block>)
    ensures Total(xs + ys) == Total(xs) + Total(ys)
  {
    if xs == [] {
      assert xs + ys == ys;
    } else {
      assert (xs + ys)[1..] == xs[1..] + ys;
      TotalConcat(xs[1..], ys);
    }
  }

  lemma {:induction false} LiveConcat(base: nat, xs: seq<Block>, ys: seq<Block>)
    ensures LiveOf(base, xs + ys) == LiveOf(base, xs) + LiveOf(base + Total(xs), ys)
    decreases |xs|
  {
    if xs == [] {
      assert xs + ys == ys;
    } else {
      assert (xs + ys)[1..] == xs[1..] + ys;
      LiveConcat(base + Extent(xs[0]), xs[1..], ys);
    }
  }

  lemma One(base: nat, b: Block)
    ensures Total([b]) == Extent(b)
    ensures LiveOf(base, [b]) == if b.free then [] else [Live(base + HEADER, b.size)]
  {
    assert [b][1..] == [];
  }

  lemma Two(base: nat, a: Block, b: Block)
    ensures Total([a, b]) == Extent(a) + Extent(b)
    ensures LiveOf(base, [a, b]) == LiveOf(base, [a]) + LiveOf(base + Extent(a), [b])
  {
    assert [a, b] == [a] + [b];
    One(base, a);
    One(base + Extent(a), b);
    TotalConcat([a], [b]);
    LiveConcat(base, [a], [b]);
  }

  /** Cutting a sequence at block k, as every walk over the heap does. */
  lemma TotalSplit(bs: seq<Block>, k: nat)
    requires k < |bs|
    ensures Total(bs[..k]) + Extent(bs[k]) + Total(bs[k + 1..]) == Total(bs)
    ensures Total(bs[..k + 1]) == Total(bs[..k]) + Extent(bs[k])
  {
    assert bs == bs[..k] + bs[k..];
    TotalConcat(bs[..k], bs[k..]);
    assert bs[k..][1..] == bs[k + 1..];
    assert bs[..k + 1] == bs[..k] + [bs[k]];
    TotalConcat(bs[..k], [bs[k]]);
    One(0, bs[k]);
  }

  lemma LiveSplit(base: nat, bs: seq<Block>, k: nat)
    requires k < |bs|
    ensures LiveOf(base, bs) ==
            LiveOf(base, bs[..k])
            + LiveOf(base + Total(bs[..k]), [bs[k]])
            + LiveOf(base + Total(bs[..k]) + Extent(bs[k]), bs[k + 1..])
  {
    assert bs == bs[..k] + ([bs[k]] + bs[k + 1..]);
    LiveConcat(base, bs[..k], [bs[k]] + bs[k + 1..]);
    LiveConcat(base + Total(bs[..k]), [bs[k]], bs[k + 1..]);
    One(0, bs[k]);
  }

  /** Replacing a stretch by one of the same extent and the same allocations changes no allocation. */
  lemma LiveReplace(base: nat, pre: seq<Block>, xs: seq<Block>, ys: seq<Block>, post: seq<Block>)
    requires Total(xs) == Total(ys)
    requires LiveOf(base + Total(pre), xs) == LiveOf(base + Total(pre), ys)
    ensures LiveOf(base, pre + xs + post) == LiveOf(base, pre + ys + post)
  {
    LiveThree(base, pre, xs, post);
    LiveThree(base, pre, ys, post);
  }

  lemma LiveThree(base: nat, pre: seq<Block>, xs: seq<Block>, post: seq<Block>)
    ensures LiveOf(base, pre + xs + post) ==
            LiveOf(base, pre) + LiveOf(base + Total(pre), xs) + LiveOf(base + Total(pre) + Total(xs), post)
  {
    LiveConcat(base, pre + xs, post);
    LiveConcat(base, pre, xs);
    TotalConcat(pre, xs);
  }

  // ----- What the live list says

  /** Payloads lie inside the heap, in order, each behind its own header. */
  lemma {:induction false} LiveBounds(base: nat, bs: seq<Block>)
    ensures forall i :: 0 <= i < |LiveOf(base, bs)| ==>
              base + HEADER <= LiveOf(base, bs)[i].addr
              && LiveOf(base, bs)[i].addr + LiveOf(base, bs)[i].size <= base + Total(bs)
    ensures forall i, j :: 0 <= i < j < |LiveOf(base, bs)| ==>
              LiveOf(base, bs)[i].addr + LiveOf(base, bs)[i].size + HEADER <= LiveOf(base, bs)[j].addr
    decreases |bs|
  {
    if bs != [] {
      LiveBounds(base + Extent(bs[0]), bs[1..]);
    }
  }

  /**
    Canonical form: the block sequence of a heap without adjacent free blocks
    is determined by its size and its live allocations alone.
   */
  lemma {:induction false} CanonicalForm(base: nat, xs: seq<Block>, ys: seq<Block>)
    requires NoAdjacentFree(xs) && NoAdjacentFree(ys)
    requires Total(xs) == Total(ys)
    requires LiveOf(base, xs) == LiveOf(base, ys)
    ensures xs == ys
    decreases |xs|
  {
    if xs != [] && ys != [] {
      HeadsAgree(base, xs, ys);
      CanonicalForm(base + Extent(xs[0]), xs[1..], ys[1..]);
    }
  }

  lemma HeadsAgree(base: nat, xs: seq<Block>, ys: seq<Block>)
    requires xs != [] && ys != []
    requires NoAdjacentFree(xs) && NoAdjacentFree(ys)
    requires Total(xs) == Total(ys)
    requires LiveOf(base, xs) == LiveOf(base, ys)
    ensures xs[0] == ys[0]
    ensures LiveOf(base + Extent(xs[0]), xs[1..]) == LiveOf(base + Extent(ys[0]), ys[1..])
  {
    HeadKind(base, xs);
    HeadKind(base, ys);
    if xs[0].free {
      FirstFreeAgrees(base, xs, ys);
      FirstFreeAgrees(base, ys, xs);
    }
  }

  /** Whether the first block is free shows in the live list. */
  lemma HeadKind(base: nat, bs: seq<Block>)
    requires bs != []
    ensures !bs[0].free <==> LiveOf(base, bs) != [] && LiveOf(base, bs)[0].addr == base + HEADER
    ensures !bs[0].free ==> LiveOf(base, bs)[0].size == bs[0].size
    ensures LiveOf(base + Extent(bs[0]), bs[1..]) ==
            if bs[0].free then LiveOf(base, bs) else LiveOf(base, bs)[1..]
  {
    LiveBounds(base + Extent(bs[0]), bs[1..]);
  }

  /** The leading free block of `xs` cannot stop short of that of `ys`. */
  lemma FirstFreeAgrees(base: nat, xs: seq<Block>, ys: seq<Block>)
    requires xs != [] && ys != [] && xs[0].free && ys[0].free
    requires NoAdjacentFree(xs)
    requires Total(xs) == Total(ys)
    requires LiveOf(base, xs) == LiveOf(base, ys)
    ensures xs[0].size >= ys[0].size
  {
    LiveBounds(base + Extent(ys[0]), ys[1..]);
    if |xs| > 1 {
      assert !xs[1].free;
      assert LiveOf(base, xs)[0].addr == base + Extent(xs[0]) + HEADER;
    } else {
      assert xs[1..] == [];
    }
  }

  // ----- Merging neighbouring free blocks

  /** One left-to-right pass that folds each free block into a free predecessor. */
  function Unite(bs: seq<Block>): seq<Block>
    decreases |bs|
  {
    if |bs| <= 1 then bs
    else if bs[0].free && bs[1].free then
      Unite([Block(true, bs[0].size + Extent(bs[1]))] + bs[2..])
    else [bs[0]] + Unite(bs[1..])
  }

  lemma {:induction false} UniteMerge(cur: Block, rest: seq<Block>)
    requires rest != [] && cur.free && rest[0].free
    ensures Unite([cur] + rest) == Unite([Block(true, cur.size + Extent(rest[0]))] + rest[1..])
  {
    assert ([cur] + rest)[2..] == rest[1..];
  }

  lemma {:induction false} UniteSkip(cur: Block, rest: seq<Block>)
    requires rest != [] && !(cur.free && rest[0].free)
    ensures Unite([cur] + rest) == [cur] + Unite(rest)
  {
    assert ([cur] + rest)[1..] == rest;
  }

  lemma {:induction false} UniteHead(bs: seq<Block>)
    requires bs != []
    ensures Unite(bs) != []
    ensures Unite(bs)[0].free == bs[0].free
    decreases |bs|
  {
    if |bs| > 1 && bs[0].free && bs[1].free {
      UniteHead([Block(true, bs[0].size + Extent(bs[1]))] + bs[2..]);
    }
  }

  /** Merging keeps the heap's extent and every live allocation, and leaves no adjacent free blocks. */
  lemma {:induction false} UniteCorrect(base: nat, bs: seq<Block>)
    ensures Total(Unite(bs)) == Total(bs)
    ensures LiveOf(base, Unite(bs)) == LiveOf(base, bs)
    ensures NoAdjacentFree(Unite(bs))
    decreases |bs|
  {
    if |bs| <= 1 {
    } else if bs[0].free && bs[1].free {
      var merged := [Block(true, bs[0].size + Extent(bs[1]))] + bs[2..];
      UniteCorrect(base, merged);
      assert merged[1..] == bs[2..] == bs[1..][1..];
      assert LiveOf(base, bs) == LiveOf(base + Extent(bs[0]), bs[1..]);
    } else {
      UniteCorrect(base + Extent(bs[0]), bs[1..]);
      UniteHead(bs[1..]);
      var u := Unite(bs[1..]);
      assert ([bs[0]] + u)[1..] == u;
    }
  }

  /** The merge pass is the only answer: any list with these three properties equals it. */
  lemma UniteUnique(base: nat, bs: seq<Block>, us: seq<Block>)
    ensures us == Unite(bs) <==>
            Total(us) == Total(bs) && LiveOf(base, us) == LiveOf(base, bs) && NoAdjacentFree(us)
  {
    UniteCorrect(base, bs);
    if Total(us) == Total(bs) && LiveOf(base, us) == LiveOf(base, bs) && NoAdjacentFree(us) {
      CanonicalForm(base, us, Unite(bs));
    }
  }

  lemma UniteIdempotent(bs: seq<Block>)
    ensures Unite(Unite(bs)) == Unite(bs)
  {
    UniteCorrect(0, bs);
    UniteUnique(0, Unite(bs), Unite(bs));
  }
}
