/**
  The search for a page boundary inside a free block. The C loop compares and
  subtracts `uint32_t` values, so it can step past the end of the block, wrap
  around the address space and never stop; `SearchEnds` says exactly when it does.
 */
module AlignedSearch {
  import opened Words
  import opened Blocks
  import opened Policy

  datatype Outcome = Found | Leave | Next

  /** What one iteration does with candidate boundary `p` for a block headed at `ea`. */
  function Probe(ea: uint32, size: uint32, n: uint32, p: uint32): Outcome {
    if Wrap(ea + HEADER + size - p) < n then Leave
    else if Wrap(p - ea) <= 2 * HEADER then Next
    else if Wrap(p - ea - 2 * HEADER) > Wrap(size - HEADER) then Next
    else Found
  }

  /** The candidate examined by iteration `k`. */
  function Candidate(ea: uint32, k: nat): uint32 {
    Wrap(((ea + HEADER) / PAGE_SIZE + 1 + k) * PAGE_SIZE)
  }

  lemma CandidateNext(ea: uint32, k: nat)
    ensures Candidate(ea, k + 1) == Wrap(Candidate(ea, k) + PAGE_SIZE)
  {
    var x := ((ea + HEADER) / PAGE_SIZE + 1 + k) * PAGE_SIZE;
    assert ((ea + HEADER) / PAGE_SIZE + 1 + (k + 1)) * PAGE_SIZE == x + PAGE_SIZE;
  }

  /** Iteration `k` is the one that stops the loop. */
  ghost predicate StopsAt(ea: uint32, size: uint32, n: uint32, k: nat) {
    && Probe(ea, size, n, Candidate(ea, k)) != Next
    && forall j :: 0 <= j < k ==> Probe(ea, size, n, Candidate(ea, j)) == Next
  }

  /** A condition on the block alone, decided before the loop is entered. */
  predicate SearchEnds(ea: nat, size: nat, n: nat) {
    Suits(ea, Block(true, size), n, true) || (ea + HEADER + size) % PAGE_SIZE < n
  }

  /** Boundary `p` lies in the block, behind room for a second header and with `n` bytes after it. */
  predicate Inside(ea: nat, size: nat, n: nat, p: nat) {
    ea + 2 * HEADER < p && p + n <= ea + HEADER + size
  }

  /** Iteration `k` stops the loop, and if it settles on a boundary then on one in the block. */
  ghost predicate StopsWell(ea: uint32, size: uint32, n: uint32, k: nat) {
    && StopsAt(ea, size, n, k)
    && (Probe(ea, size, n, Candidate(ea, k)) == Found ==> Inside(ea, size, n, Candidate(ea, k)))
  }

  /** The search stops if and only if the block satisfies `SearchEnds`. */
  lemma SearchEndsExactly(ea: uint32, size: uint32, n: uint32)
    requires ea + HEADER + size < TWO32
    requires 0 < n <= size && HEADER <= size
    ensures (exists k: nat :: StopsAt(ea, size, n, k)) <==> SearchEnds(ea, size, n)
  {
    if SearchEnds(ea, size, n) {
      var k := Reaches(ea, size, n);
      var j := FirstStop(ea, size, n, k);
    } else {
      forall k: nat ensures !StopsAt(ea, size, n, k) {
        NeverStops(ea, size, n, Candidate(ea, k));
      }
    }
  }

  /**
    The same for every size: the search comes to a good end if and only if the
    block satisfies `SearchEnds`. A payload below a header's size that does not
    satisfy it sends the search to a boundary outside the block.
   */
  lemma EndsWellExactly(ea: uint32, size: uint32, n: uint32)
    requires ea + HEADER + size < TWO32
    requires 0 < n <= size
    ensures (exists k: nat :: StopsWell(ea, size, n, k)) <==> SearchEnds(ea, size, n)
  {
    if SearchEnds(ea, size, n) {
      var k := Reaches(ea, size, n);
      var j := FirstStop(ea, size, n, k);
      FirstStopsWell(ea, size, n, j);
    } else {
      forall k: nat ensures !StopsWell(ea, size, n, k) {
        NeverWell(ea, size, n, Candidate(ea, k));
      }
    }
  }

  /** A search that ends does so at its first candidate, or at the second if the first is too close to the header. */
  lemma StopsEarly(ea: uint32, size: uint32, n: uint32, k: nat)
    requires ea + HEADER + size < TWO32
    requires 0 < n <= size && SearchEnds(ea, size, n) && StopsAt(ea, size, n, k)
    ensures Candidate(ea, 0) == NextPage(ea + HEADER)
    ensures k <= 1 && Candidate(ea, k) <= ea + HEADER + size
    ensures k == 1 ==> Candidate(ea, 1) == NextPage(ea + 2 * HEADER)
  {
    StartsInside(ea, size, n);
    if k > 0 {
      assert Probe(ea, size, n, Candidate(ea, 0)) == Next;
      StaysInside(ea, size, n, Candidate(ea, 0));
      assert Probe(ea, size, n, Candidate(ea, 1)) != Next;
    }
  }

  lemma FirstStopsWell(ea: uint32, size: uint32, n: uint32, k: nat)
    requires ea + HEADER + size < TWO32
    requires 0 < n <= size && SearchEnds(ea, size, n) && StopsAt(ea, size, n, k)
    ensures StopsWell(ea, size, n, k)
  {
    StopsEarly(ea, size, n, k);
  }

  /** A good end settles on the boundary of the policy if the block suits, and leaves it otherwise. */
  lemma WellStopped(ea: uint32, size: uint32, n: uint32, k: nat)
    requires ea + HEADER + size < TWO32
    requires 0 < n <= size && StopsWell(ea, size, n, k)
    ensures Probe(ea, size, n, Candidate(ea, k)) == Found <==> Suits(ea, Block(true, size), n, true)
    ensures Probe(ea, size, n, Candidate(ea, k)) == Found ==> Candidate(ea, k) == NextPage(ea + 2 * HEADER)
  {
    EndsWellExactly(ea, size, n);
    StopsEarly(ea, size, n, k);
    var p := Candidate(ea, k);
    if Probe(ea, size, n, p) == Found {
      BoundaryAtLeast(ea + 2 * HEADER, p);
      BoundaryAtLeast(ea + HEADER, NextPage(ea + 2 * HEADER));
    } else {
      BoundaryAtLeast(ea + HEADER, NextPage(ea + 2 * HEADER));
    }
  }

  /** A block that ends on a page boundary never traps the search. */
  lemma PageEndStops(ea: uint32, size: uint32, n: uint32)
    requires ea + HEADER + size < TWO32
    requires 0 < n <= size && HEADER <= size
    requires (ea + HEADER + size) % PAGE_SIZE == 0
    ensures exists k: nat :: StopsAt(ea, size, n, k)
  {
    SearchEndsExactly(ea, size, n);
  }

  /** A 20-byte free block in the middle of a page traps a 6-byte request for ever. */
  lemma SearchCanHang(k: nat)
    ensures Probe(0x1100, 20, 6, Candidate(0x1100, k)) == Next
  {
    NeverStops(0x1100, 20, 6, Candidate(0x1100, k));
  }

  lemma NeverStops(ea: uint32, size: uint32, n: uint32, p: uint32)
    requires ea + HEADER + size < TWO32
    requires 0 < n <= size && HEADER <= size
    requires !SearchEnds(ea, size, n)
    requires p % PAGE_SIZE == 0
    ensures Probe(ea, size, n, p) == Next
  {
    var end := ea + HEADER + size;
    if p > ea + 2 * HEADER && p <= end {
      BoundaryAtLeast(ea + 2 * HEADER, p);
      BoundaryAtMost(end, p);
    } else if p <= end {
      BoundaryAtMost(end, p);
    }
  }

  lemma NeverWell(ea: uint32, size: uint32, n: uint32, p: uint32)
    requires ea + HEADER + size < TWO32
    requires 0 < n <= size
    requires !SearchEnds(ea, size, n)
    requires p % PAGE_SIZE == 0
    ensures Probe(ea, size, n, p) != Leave
    ensures !Inside(ea, size, n, p)
  {
    var end := ea + HEADER + size;
    if ea + 2 * HEADER < p {
      BoundaryAtLeast(ea + 2 * HEADER, p);
    }
    if p <= end {
      BoundaryAtMost(end, p);
    }
  }

  /** `NextPage(x)` is the least boundary above `x`. */
  lemma BoundaryAtLeast(x: nat, p: nat)
    requires p % PAGE_SIZE == 0 && p > x
    ensures NextPage(x) <= p
  {
  }

  lemma BoundaryAtMost(end: nat, p: nat)
    requires p % PAGE_SIZE == 0 && p <= end
    ensures end - p >= end % PAGE_SIZE
  {
  }

  lemma Reaches(ea: uint32, size: uint32, n: uint32) returns (k: nat)
    requires ea + HEADER + size < TWO32
    requires 0 < n <= size
    requires SearchEnds(ea, size, n)
    ensures Probe(ea, size, n, Candidate(ea, k)) != Next
  {
    var end := ea + HEADER + size;
    if Suits(ea, Block(true, size), n, true) {
      k := (NextPage(ea + 2 * HEADER) - NextPage(ea + HEADER)) / PAGE_SIZE;
    } else {
      k := end / PAGE_SIZE - (ea + HEADER) / PAGE_SIZE - 1;
    }
  }

  lemma FirstStop(ea: uint32, size: uint32, n: uint32, k: nat) returns (j: nat)
    requires Probe(ea, size, n, Candidate(ea, k)) != Next
    ensures StopsAt(ea, size, n, j)
    decreases k
  {
    j := 0;
    while Probe(ea, size, n, Candidate(ea, j)) == Next
      invariant 0 <= j <= k
      invariant forall i :: 0 <= i < j ==> Probe(ea, size, n, Candidate(ea, i)) == Next
      decreases k - j
    {
      j := j + 1;
    }
  }

  /** The loop itself: it finds the boundary of the policy, or nothing if the block does not suit. */
  method SearchBoundary(ea: uint32, size: uint32, n: uint32) returns (r: Option<uint32>)
    requires ea + HEADER + size < TWO32
    requires 0 < n <= size
    requires SearchEnds(ea, size, n)
    ensures r == if Suits(ea, Block(true, size), n, true) then Some(NextPage(ea + 2 * HEADER)) else None
    ensures exists k: nat ::
              && StopsWell(ea, size, n, k)
              && r == match Probe(ea, size, n, Candidate(ea, k)) { case Found => Some(Candidate(ea, k)) case _ => None }
  {
    var blockEnd := Wrap(ea + HEADER + size);
    var p := Wrap(((ea + HEADER) / PAGE_SIZE + 1) * PAGE_SIZE);
    ghost var k := 0;
    StartsInside(ea, size, n);
    while Wrap(blockEnd - p) >= n
      invariant p == Candidate(ea, k) && ea + HEADER < p <= blockEnd
      invariant forall j :: 0 <= j < k ==> Probe(ea, size, n, Candidate(ea, j)) == Next
      decreases blockEnd - p
    {
      if Wrap(p - ea) > 2 * HEADER {
        var newBytes := Wrap(p - ea - 2 * HEADER);
        if newBytes <= Wrap(size - HEADER) {
          assert StopsWell(ea, size, n, k);
          WellStopped(ea, size, n, k);
          return Some(p);
        }
      }
      assert p <= ea + 2 * HEADER && Probe(ea, size, n, p) == Next;
      StaysInside(ea, size, n, p);
      CandidateNext(ea, k);
      p := Wrap(p + PAGE_SIZE);
      k := k + 1;
    }
    assert StopsWell(ea, size, n, k);
    WellStopped(ea, size, n, k);
    return None;
  }

  /** If the search ends at all, its first candidate lies in the block. */
  lemma StartsInside(ea: uint32, size: uint32, n: uint32)
    requires ea + HEADER + size < TWO32
    requires 0 < n <= size && SearchEnds(ea, size, n)
    ensures NextPage(ea + HEADER) <= ea + HEADER + size
  {
    if !Suits(ea, Block(true, size), n, true) {
      var end := ea + HEADER + size;
      assert end - end % PAGE_SIZE > ea + HEADER;
      BoundaryAtLeast(ea + HEADER, end - end % PAGE_SIZE);
    } else {
      BoundaryAtLeast(ea + HEADER, NextPage(ea + 2 * HEADER));
    }
  }

  /** A candidate too close to the header is followed by one that still lies in the block. */
  lemma StaysInside(ea: uint32, size: uint32, n: uint32, p: uint32)
    requires ea + HEADER + size < TWO32
    requires 0 < n <= size && SearchEnds(ea, size, n)
    requires p % PAGE_SIZE == 0 && ea + HEADER < p <= ea + 2 * HEADER
    requires p + n <= ea + HEADER + size
    ensures p + PAGE_SIZE <= ea + HEADER + size
    ensures p + PAGE_SIZE == NextPage(ea + 2 * HEADER)
  {
    BoundaryAtLeast(ea + 2 * HEADER, p + PAGE_SIZE);
    if !Suits(ea, Block(true, size), n, true) {
      var end := ea + HEADER + size;
      BoundaryAtMost(end, p);
    }
  }
}
