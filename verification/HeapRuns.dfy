/**
  Whole runs of the heap, the owners' writes to their allocations included. Each
  step is the one the `Heap` methods are proved to perform; `requests` remembers
  what was asked for at each live pointer.
 */
module HeapRuns {
  import opened Words
  import opened Blocks
  import opened Policy
  import opened BlockMemory
  import opened AlignedSearch
  import opened AlignedWalk
  import ProcessHeap

  datatype Op = Malloc(n: uint32, align: bool) | Free(ptr: nat) | Write(a: nat, x: byte)

  datatype State = State(blocks: seq<Block>, requests: map<nat, nat>)

  ghost predicate InSomePayload(live: seq<Live>, i: nat) {
    exists k :: 0 <= k < |live| && live[k].addr <= i < live[k].addr + live[k].size
  }

  /** What callers must respect: requests that `malloc` answers, frees of live pointers, writes to what they hold. */
  ghost predicate Legal(base: nat, s: State, op: Op) {
    match op
    case Malloc(n, align) => 0 < n && ProcessHeap.Answers(base, s.blocks, n, align)
    case Free(ptr) => IsLive(base, s.blocks, ptr)
    case Write(a, x) => InSomePayload(LiveOf(base, s.blocks), a)
  }

  ghost function Step(base: nat, s: State, op: Op): State
    requires NoAdjacentFree(s.blocks)
    requires Legal(base, s, op)
  {
    match op
    case Malloc(n, align) =>
      State(Policy.Malloc(base, s.blocks, n, align),
            s.requests[MallocAddr(base, s.blocks, n, align) := n])
    case Free(ptr) =>
      var k: nat :| LiveAt(base, s.blocks, ptr, k);
      State(Policy.Free(s.blocks, k), s.requests - {ptr})
    case Write(_, _) => s
  }

  function Initial(size: nat): State
    requires HEADER <= size
  {
    State([Block(true, size - HEADER)], map[])
  }

  /** `states` is a run of `ops` from a freshly initialised heap of `size` bytes. */
  ghost predicate IsRun(base: nat, size: nat, ops: seq<Op>, states: seq<State>)
    requires HEADER <= size
  {
    && |states| == |ops| + 1
    && states[0] == Initial(size)
    && forall i :: 0 <= i < |ops| ==>
         && Legal(base, states[i], ops[i])
         && (NoAdjacentFree(states[i].blocks) ==> states[i + 1] == Step(base, states[i], ops[i]))
  }

  ghost predicate HasAddr(live: seq<Live>, p: nat) {
    exists i :: 0 <= i < |live| && live[i].addr == p
  }

  /** The live list and the request log describe the same pointers, each served in full. */
  ghost predicate Served(live: seq<Live>, requests: map<nat, nat>) {
    && (forall i :: 0 <= i < |live| ==> live[i].addr in requests && requests[live[i].addr] <= live[i].size)
    && (forall p :: p in requests ==> HasAddr(live, p))
  }

  ghost predicate Inv(base: nat, size: nat, s: State) {
    && NoAdjacentFree(s.blocks)
    && Served(LiveOf(base, s.blocks), s.requests)
    && Total(s.blocks) >= size
    && (Total(s.blocks) - size) % PAGE_SIZE == 0
  }

  /**
    Every reachable heap: no two neighbouring free blocks, whole pages of
    growth, and every outstanding request holds at least the bytes it asked
    for, inside the heap and apart from every other.
   */
  lemma {:induction false} ReachableHeaps(base: nat, size: nat, ops: seq<Op>, states: seq<State>, t: nat)
    requires HEADER <= size && IsRun(base, size, ops, states)
    requires t < |states|
    ensures Inv(base, size, states[t])
    ensures var live := LiveOf(base, states[t].blocks);
            && Apart(live)
            && (forall i :: 0 <= i < |live| ==>
                  base <= live[i].addr && live[i].addr + live[i].size <= base + Total(states[t].blocks))
  {
    LiveBounds(base, states[t].blocks);
    if t == 0 {
      One(base, Block(true, size - HEADER));
    } else {
      ReachableHeaps(base, size, ops, states, t - 1);
      StepKeepsInv(base, size, states[t - 1], ops[t - 1]);
    }
  }

  lemma StepKeepsInv(base: nat, size: nat, s: State, op: Op)
    requires Inv(base, size, s) && Legal(base, s, op)
    ensures Inv(base, size, Step(base, s, op))
  {
    match op
    case Malloc(n, align) => MallocKeepsInv(base, size, s, n, align);
    case Free(ptr) =>
      var k: nat :| LiveAt(base, s.blocks, ptr, k)
                    && Step(base, s, op) == State(Policy.Free(s.blocks, k), s.requests - {ptr});
      FreeKeepsInv(base, size, s, ptr, k);
    case Write(_, _) =>
  }

  lemma MallocKeepsInv(base: nat, size: nat, s: State, n: nat, align: bool)
    requires n < TWO32 && Inv(base, size, s) && Legal(base, s, Malloc(n, align))
    ensures Inv(base, size, Step(base, s, Malloc(n, align)))
  {
    MallocCorrect(base, s.blocks, n, align);
    var xs, l, ys := MallocLive(base, s.blocks, n, align);
    InsertKeepsInv(base, size, s, Policy.Malloc(base, s.blocks, n, align), xs, l, ys, n);
  }

  lemma InsertKeepsInv(base: nat, size: nat, s: State, bs: seq<Block>,
                       xs: seq<Live>, l: Live, ys: seq<Live>, n: nat)
    requires Inv(base, size, s) && NoAdjacentFree(bs)
    requires Total(bs) >= Total(s.blocks) && (Total(bs) - Total(s.blocks)) % PAGE_SIZE == 0
    requires LiveOf(base, s.blocks) == xs + ys && LiveOf(base, bs) == xs + [l] + ys
    requires n <= l.size
    ensures Inv(base, size, State(bs, s.requests[l.addr := n]))
  {
    LiveBounds(base, bs);
    ServedInsert(xs, l, ys, s.requests, n);
  }

  lemma FreeKeepsInv(base: nat, size: nat, s: State, ptr: nat, k: nat)
    requires Inv(base, size, s) && LiveAt(base, s.blocks, ptr, k)
    ensures Inv(base, size, State(Policy.Free(s.blocks, k), s.requests - {ptr}))
  {
    FreeCorrect(base, s.blocks, k);
    LiveBounds(base, s.blocks);
    ServedRemove(LiveBefore(base, s.blocks, k), Live(ptr, s.blocks[k].size), LiveAfter(base, s.blocks, k), s.requests);
  }

  ghost predicate Apart(live: seq<Live>) {
    forall i, j :: 0 <= i < j < |live| ==> live[i].addr + live[i].size + HEADER <= live[j].addr
  }

  lemma ServedInsert(xs: seq<Live>, l: Live, ys: seq<Live>, requests: map<nat, nat>, n: nat)
    requires Apart(xs + [l] + ys) && n <= l.size
    requires Served(xs + ys, requests)
    ensures Served(xs + [l] + ys, requests[l.addr := n])
  {
    var live, was := xs + [l] + ys, xs + ys;
    assert live[|xs|] == l;
    forall i | 0 <= i < |live| && i != |xs| ensures live[i] in was && live[i].addr != l.addr {
      assert live[i] == was[if i < |xs| then i else i - 1];
    }
    forall p | p in requests ensures HasAddr(live, p) {
      assert HasAddr(was, p);
      var i :| 0 <= i < |was| && was[i].addr == p;
      assert live[if i < |xs| then i else i + 1] == was[i];
    }
  }

  lemma ServedRemove(xs: seq<Live>, l: Live, ys: seq<Live>, requests: map<nat, nat>)
    requires Apart(xs + [l] + ys)
    requires Served(xs + [l] + ys, requests)
    ensures Served(xs + ys, requests - {l.addr})
  {
    var live, was, left := xs + ys, xs + [l] + ys, requests - {l.addr};
    assert was[|xs|] == l;
    forall i | 0 <= i < |live| ensures live[i].addr in left && left[live[i].addr] <= live[i].size {
      var j := if i < |xs| then i else i + 1;
      assert live[i] == was[j] && was[j].addr != l.addr;
    }
    forall p | p in left ensures HasAddr(live, p) {
      HasAddrWithout(xs, l, ys, p);
    }
  }

  lemma HasAddrWithout(xs: seq<Live>, l: Live, ys: seq<Live>, p: nat)
    requires HasAddr(xs + [l] + ys, p) && p != l.addr
    ensures HasAddr(xs + ys, p)
  {
    var i :| 0 <= i < |xs + [l] + ys| && (xs + [l] + ys)[i].addr == p;
    assert (xs + ys)[if i < |xs| then i else i - 1].addr == p;
  }

  lemma MallocCorrect(base: nat, bs: seq<Block>, n: nat, align: bool)
    requires NoAdjacentFree(bs)
    ensures NoAdjacentFree(Policy.Malloc(base, bs, n, align))
    ensures Total(Policy.Malloc(base, bs, n, align)) == Total(bs) + Rounds(base, bs, n, align) * PAGE_SIZE
    ensures align ==> MallocAddr(base, bs, n, align) % PAGE_SIZE == 0
  {
    var g := Grown(base, bs, n, align);
    ExtendCorrect(base, bs, Rounds(base, bs, n, align) * PAGE_SIZE);
    GrownFits(base, bs, n, align);
    PlaceCorrect(base, g, FirstFit(base, g, n, align), n, align);
  }

  /** `malloc` inserts one allocation, at the address it returns, between the others. */
  lemma MallocLive(base: nat, bs: seq<Block>, n: nat, align: bool)
    returns (before: seq<Live>, l: Live, after: seq<Live>)
    requires NoAdjacentFree(bs)
    ensures LiveOf(base, bs) == before + after
    ensures l.addr == MallocAddr(base, bs, n, align) && n <= l.size <= n + HEADER
    ensures LiveOf(base, Policy.Malloc(base, bs, n, align)) == before + [l] + after
  {
    var g := Grown(base, bs, n, align);
    ExtendCorrect(base, bs, Rounds(base, bs, n, align) * PAGE_SIZE);
    GrownFits(base, bs, n, align);
    var k := FirstFit(base, g, n, align);
    PlaceCorrect(base, g, k, n, align);
    var ea := Addr(base, g, k);
    before, after := LiveBefore(base, g, k), LiveAfter(base, g, k);
    l := Live(Payload(ea, align), Granted(ea, g[k], n, align));
  }

  // ----- Undoing an allocation

  /**
    Freeing what `malloc` has just returned gives back the previous block list;
    if `malloc` had to grow the heap, the list with only its trailing free
    space extended by the added pages.
   */
  lemma FreeUndoesMalloc(base: nat, bs: seq<Block>, n: nat, align: bool, k: nat)
    requires NoAdjacentFree(bs)
    requires LiveAt(base, Policy.Malloc(base, bs, n, align), MallocAddr(base, bs, n, align), k)
    ensures Policy.Free(Policy.Malloc(base, bs, n, align), k) ==
            Extend(bs, Rounds(base, bs, n, align) * PAGE_SIZE)
    ensures FirstFit(base, bs, n, align) < |bs| ==>
              Policy.Free(Policy.Malloc(base, bs, n, align), k) == bs
  {
    var after := Policy.Malloc(base, bs, n, align);
    var d := Rounds(base, bs, n, align) * PAGE_SIZE;
    MallocCorrect(base, bs, n, align);
    ExtendCorrect(base, bs, d);
    var xs, l, ys := MallocLive(base, bs, n, align);
    FreeCorrect(base, after, k);
    LiveBounds(base, after);
    SameCut(LiveOf(base, after), xs, l.size, ys, LiveBefore(base, after, k), after[k].size,
            LiveAfter(base, after, k), MallocAddr(base, bs, n, align));
    CanonicalForm(base, Policy.Free(after, k), Extend(bs, d));
  }

  /** In a list ordered by address, an address occurs in one place only. */
  lemma SameCut(live: seq<Live>, xs: seq<Live>, s: nat, ys: seq<Live>,
                xs': seq<Live>, s': nat, ys': seq<Live>, addr: nat)
    requires live == xs + [Live(addr, s)] + ys == xs' + [Live(addr, s')] + ys'
    requires Apart(live)
    ensures xs == xs' && ys == ys'
  {
    assert live[|xs|].addr == addr && live[|xs'|].addr == addr;
    assert |xs| == |xs'|;
    assert xs == live[..|xs|] == xs';
    assert ys == live[|xs| + 1..] == ys';
  }

  /** What `malloc` returns is a live pointer, so it can be freed. */
  lemma MallocIsLive(base: nat, bs: seq<Block>, n: nat, align: bool)
    requires NoAdjacentFree(bs)
    ensures IsLive(base, Policy.Malloc(base, bs, n, align), MallocAddr(base, bs, n, align))
  {
    var xs, l, ys := MallocLive(base, bs, n, align);
    var k := BlockOf(base, Policy.Malloc(base, bs, n, align), |xs|);
  }

  lemma {:induction false} BlockOf(base: nat, bs: seq<Block>, i: nat) returns (k: nat)
    requires i < |LiveOf(base, bs)|
    ensures LiveAt(base, bs, LiveOf(base, bs)[i].addr, k)
    decreases |bs|
  {
    if !bs[0].free && i == 0 {
      k := 0;
    } else {
      var j := BlockOf(base + Extent(bs[0]), bs[1..], if bs[0].free then i else i - 1);
      k := j + 1;
      AddrTail(base, bs, k);
    }
  }

  // ----- The owner's writes

  /** Writing inside live payloads, as the owners of the memory do, leaves every header readable. */
  lemma {:induction false} OwnerWritesKeepTiling(m: seq<byte>, m': seq<byte>, base: nat, bs: seq<Block>)
    requires base + Total(bs) <= |m| == |m'|
    requires Tiled(m, base, bs)
    requires forall i :: base <= i < base + Total(bs) && m[i] != m'[i] ==> InSomePayload(LiveOf(base, bs), i)
    ensures Tiled(m', base, bs)
    decreases |bs|
  {
    if bs != [] {
      var rest := base + Extent(bs[0]);
      LiveBounds(base, bs);
      assert HeaderAt(m, base) == HeaderAt(m', base);
      forall i | rest <= i < rest + Total(bs[1..]) && m[i] != m'[i]
        ensures InSomePayload(LiveOf(rest, bs[1..]), i)
      {
        PayloadInRest(base, bs, i);
      }
      OwnerWritesKeepTiling(m, m', rest, bs[1..]);
    }
  }

  lemma PayloadInRest(base: nat, bs: seq<Block>, i: nat)
    requires bs != [] && i >= base + Extent(bs[0])
    requires InSomePayload(LiveOf(base, bs), i)
    ensures InSomePayload(LiveOf(base + Extent(bs[0]), bs[1..]), i)
  {
    var live, rest := LiveOf(base, bs), LiveOf(base + Extent(bs[0]), bs[1..]);
    var k :| 0 <= k < |live| && live[k].addr <= i < live[k].addr + live[k].size;
    var j := if bs[0].free then k else k - 1;
    assert rest[j] == live[k];
  }

  /** On a fresh heap the first unaligned request is served right behind the first header, however large it is. */
  lemma FirstPointer(base: nat, size: nat, n: nat)
    requires HEADER <= size && 0 < n
    ensures MallocAddr(base, Initial(size).blocks, n, false) == base + |HeaderBytes(0, n % TWO32)|
  {
    var bs := Initial(size).blocks;
    var g := Grown(base, bs, n, false);
    GrownFits(base, bs, n, false);
    assert |g| == 1 && Addr(base, g, 0) == base;
  }

  // ----- Requests that are not answered

  /**
    A page-aligned heap whose first aligned request has been served starts with
    a free block of `PAGE_SIZE - 12` bytes.
   */
  lemma FirstAlignedLeavesFront(base: nat, size: nat, m: uint32) returns (states: seq<State>)
    requires base % PAGE_SIZE == 0 && size % PAGE_SIZE == 0 && 0 < size && 0 < m
    ensures IsRun(base, size, [Malloc(m, true)], states)
    ensures states[1].blocks[0] == Block(true, PAGE_SIZE - 2 * HEADER)
  {
    var s := Initial(size);
    FirstAlignedLegal(base, size, m);
    states := [s, Step(base, s, Malloc(m, true))];
    FrontOfAligned(base, s.blocks, m);
  }

  lemma FirstAlignedLegal(base: nat, size: nat, m: uint32)
    requires base % PAGE_SIZE == 0 && size % PAGE_SIZE == 0 && 0 < size && 0 < m
    ensures Legal(base, Initial(size), Malloc(m, true))
  {
    var bs := Initial(size).blocks;
    One(base, bs[0]);
    assert Addr(base, bs, 0) == base;
  }

  lemma FrontOfAligned(base: nat, bs: seq<Block>, m: nat)
    requires base % PAGE_SIZE == 0 && |bs| == 1 && bs[0].free
    ensures Policy.Malloc(base, bs, m, true)[0] == Block(true, PAGE_SIZE - 2 * HEADER)
  {
    var g := Grown(base, bs, m, true);
    GrownFits(base, bs, m, true);
    assert |g| == 1 && Addr(base, g, 0) == base;
    assert NextPage(base + 2 * HEADER) == base + PAGE_SIZE;
  }

  /** From then on, while that block stands, no aligned request that it is large enough for ever returns. */
  lemma FrontTraps(base: nat, bs: seq<Block>, n: uint32)
    requires base % PAGE_SIZE == 0 && bs != [] && bs[0] == Block(true, PAGE_SIZE - 2 * HEADER)
    requires 0 < n <= bs[0].size && base + Total(bs) < TWO32
    ensures forall k: nat :: Probe(base, bs[0].size, n, Candidate(base, k)) == Next
    ensures !WalkReturns(base, bs, n)
    ensures !Legal(base, State(bs, map[]), Malloc(n, true))
  {
    FrontUnfit(base, n);
    forall k: nat ensures Probe(base, bs[0].size, n, Candidate(base, k)) == Next {
      NeverStops(base, bs[0].size, n, Candidate(base, k));
    }
    NoTrapStep(base, bs, n);
    WalkReturnsExactly(base, bs, n);
  }

  lemma FrontUnfit(base: nat, n: nat)
    requires base % PAGE_SIZE == 0 && 0 < n <= PAGE_SIZE - 2 * HEADER
    ensures var b := Block(true, PAGE_SIZE - 2 * HEADER);
            !Suits(base, b, n, true) && !SearchEnds(base, b.size, n)
  {
  }

  /** A first request can leave a payload of one to five bytes, which a request that small would then cut. */
  lemma SmallRemainder(base: nat, size: uint32, r: nat, n: nat) returns (states: seq<State>)
    requires 0 < n <= r < HEADER && 2 * HEADER + r < size
    ensures IsRun(base, size, [Malloc(size - 2 * HEADER - r, false)], states)
    ensures !ProcessHeap.SplitSafe(base, states[1].blocks, n)
  {
    var s, m := Initial(size), size - 2 * HEADER - r;
    assert Addr(base, s.blocks, 0) == base;
    FirstFitUnique(base, s.blocks, m, false, 0);
    states := [s, Step(base, s, Malloc(m, false))];
    var bs := states[1].blocks;
    assert bs == [Block(false, m), Block(true, r)];
    assert Addr(base, bs, 0) == base;
    FirstFitUnique(base, bs, n, false, 1);
  }

  /**
    A heap that ends inside a page can be filled to its last byte; the next
    request then has to grow it, and no run goes on that way.
   */
  lemma FilledMidPage(base: nat, size: nat, n: uint32, align: bool) returns (states: seq<State>)
    requires (base + size) % PAGE_SIZE != 0 && 2 * HEADER <= size < TWO32 && 0 < n
    ensures IsRun(base, size, [Malloc(size - HEADER, false)], states)
    ensures InSomePayload(LiveOf(base, states[1].blocks), base + size - 1)
    ensures Rounds(base, states[1].blocks, n, align) > 0 && !Legal(base, states[1], Malloc(n, align))
  {
    var s, m := Initial(size), size - HEADER;
    assert Addr(base, s.blocks, 0) == base;
    FirstFitUnique(base, s.blocks, m, false, 0);
    states := [s, Step(base, s, Malloc(m, false))];
    var bs := states[1].blocks;
    assert bs == [Block(false, m)];
    One(base, bs[0]);
    assert LiveOf(base, bs)[0] == Live(base + HEADER, m);
    FirstFitUnique(base, bs, n, align, 1);
  }

  // ----- Raw memory follows the run

  /** The headers in `m` are those of state `s`. */
  ghost predicate Pictures(base: nat, s: State, m: seq<byte>) {
    |m| == TWO32 && base + Total(s.blocks) < TWO32 && Tiled(m, base, s.blocks)
  }

  /** What operation `op`, leading from `s` to `s'`, may do to memory. */
  ghost predicate Performed(base: nat, s: State, op: Op, s': State, m: seq<byte>, m': seq<byte>) {
    && |m| == |m'| == TWO32 && Pictures(base, s', m')
    && match op
       case Malloc(_, _) => Untouched(m, m', LiveOf(base, s.blocks), base, base + Total(s'.blocks))
       case Free(_) => Untouched(m, m', LiveOf(base, s'.blocks), base, base + Total(s'.blocks))
       case Write(a, x) => a < TWO32 && m' == m[a := x]
  }

  /** The heap in memory performs one step of a run. */
  method Perform(h: ProcessHeap.Heap, ghost s: State, op: Op)
    requires h.Valid() && h.blocks == s.blocks
    requires Legal(h.base, s, op)
    requires h.base + Total(Step(h.base, s, op).blocks) < TWO32
    modifies h`blocks, h`size, h.mem
    ensures h.Valid() && h.blocks == Step(h.base, s, op).blocks
    ensures Performed(h.base, s, op, Step(h.base, s, op), old(h.mem[..]), h.mem[..])
  {
    match op
    case Malloc(n, align) =>
      MallocCorrect(h.base, s.blocks, n, align);
      var _ := h.Malloc(n, align);
    case Free(ptr) =>
      OnePlace(h.base, s.blocks, ptr);
      h.Free(ptr);
    case Write(a, x) =>
      LiveBounds(h.base, s.blocks);
      h.mem[a] := x;
      OwnerWritesKeepTiling(old(h.mem[..]), h.mem[..], h.base, s.blocks);
  }

  /** A pointer is live at one block only. */
  lemma OnePlace(base: nat, bs: seq<Block>, ptr: nat)
    ensures forall j: nat, k: nat :: LiveAt(base, bs, ptr, j) && LiveAt(base, bs, ptr, k) ==> j == k
  {
    forall j: nat, k: nat | LiveAt(base, bs, ptr, j) && LiveAt(base, bs, ptr, k) ensures j == k {
      if j < k { AddrIncreases(base, bs, j, k); }
      if k < j { AddrIncreases(base, bs, k, j); }
    }
  }

  /** `images` shows memory during the first `t` steps of a run. */
  ghost predicate ShowsUpTo(base: nat, ops: seq<Op>, states: seq<State>, images: seq<seq<byte>>, t: nat) {
    && t <= |ops| < |states| && |images| == t + 1
    && (forall i :: 0 <= i <= t ==> Pictures(base, states[i], images[i]))
    && (forall i :: 0 <= i < t ==>
          Performed(base, states[i], ops[i], states[i + 1], images[i], images[i + 1]))
  }

  ghost predicate Shows(base: nat, ops: seq<Op>, states: seq<State>, images: seq<seq<byte>>) {
    |states| == |ops| + 1 && ShowsUpTo(base, ops, states, images, |ops|)
  }

  lemma ShowsNext(base: nat, ops: seq<Op>, states: seq<State>, images: seq<seq<byte>>, t: nat, m: seq<byte>)
    requires ShowsUpTo(base, ops, states, images, t) && t < |ops|
    requires Performed(base, states[t], ops[t], states[t + 1], images[t], m)
    ensures ShowsUpTo(base, ops, states, images + [m], t + 1)
  {
  }

  /**
    A whole run in memory, from `initialise_heap` on: after every operation the
    headers tile the heap as the run says.
   */
  method PerformAll(mem: array<byte>, base: nat, size: nat, ops: seq<Op>, ghost states: seq<State>)
    returns (h: ProcessHeap.Heap, ghost images: seq<seq<byte>>)
    requires mem.Length == TWO32 && HEADER <= size && IsRun(base, size, ops, states)
    requires forall t :: 0 <= t < |states| ==> base + Total(states[t].blocks) < TWO32
    modifies mem
    ensures h.Valid() && h.mem == mem && h.base == base && h.blocks == states[|ops|].blocks
    ensures Shows(base, ops, states, images) && images[|ops|] == mem[..]
    ensures AgreeOutside(old(mem[..]), images[0], base, base + HEADER)
  {
    One(base, Block(true, size - HEADER));
    assert base + Total(states[0].blocks) < TWO32;
    h := new ProcessHeap.Heap(mem, base, size);
    images := [mem[..]];
    ghost var first := mem[..];
    var t := 0;
    while t < |ops|
      invariant t <= |ops| && ShowsUpTo(base, ops, states, images, t)
      invariant images[0] == first && images[t] == mem[..]
      invariant h.Valid() && h.mem == mem && h.base == base && h.blocks == states[t].blocks
    {
      ReachableHeaps(base, size, ops, states, t);
      assert Legal(base, states[t], ops[t]) && states[t + 1] == Step(base, states[t], ops[t]);
      assert base + Total(states[t + 1].blocks) < TWO32;
      Perform(h, states[t], ops[t]);
      ShowsNext(base, ops, states, images, t, mem[..]);
      images := images + [mem[..]];
      t := t + 1;
    }
  }

  /** Byte `a` belongs to some allocation in every state from `i` to `j`. */
  ghost predicate HeldThroughout(base: nat, states: seq<State>, i: nat, j: nat, a: nat) {
    i <= j < |states| && forall t :: i <= t <= j ==> InSomePayload(LiveOf(base, states[t].blocks), a)
  }

  ghost predicate Written(ops: seq<Op>, i: nat, j: nat, a: nat) {
    exists t :: i <= t < j && t < |ops| && ops[t].Write? && ops[t].a == a
  }

  /** An allocated byte keeps its value until its owner writes it, whatever is requested and freed meanwhile. */
  lemma {:induction false} PayloadsSurvive(base: nat, ops: seq<Op>, states: seq<State>, images: seq<seq<byte>>,
                                           i: nat, j: nat, a: nat)
    requires Shows(base, ops, states, images) && HeldThroughout(base, states, i, j, a)
    requires a < TWO32 && !Written(ops, i, j, a)
    ensures |images[i]| == |images[j]| == TWO32 && images[j][a] == images[i][a]
    decreases j
  {
    assert Pictures(base, states[i], images[i]);
    if i < j {
      assert Performed(base, states[j - 1], ops[j - 1], states[j], images[j - 1], images[j]);
      PayloadsSurvive(base, ops, states, images, i, j - 1, a);
      StepKeepsByte(base, states[j - 1], ops[j - 1], states[j], images[j - 1], images[j], a);
    }
  }

  lemma StepKeepsByte(base: nat, s: State, op: Op, s': State, m: seq<byte>, m': seq<byte>, a: nat)
    requires Performed(base, s, op, s', m, m') && a < TWO32
    requires InSomePayload(LiveOf(base, s.blocks), a) && InSomePayload(LiveOf(base, s'.blocks), a)
    requires op.Write? ==> op.a != a
    ensures m'[a] == m[a]
  {
  }

  /** What an owner wrote last is what it reads. */
  lemma ReadsLastWrite(base: nat, ops: seq<Op>, states: seq<State>, images: seq<seq<byte>>,
                       i: nat, j: nat, a: nat, x: byte)
    requires Shows(base, ops, states, images) && i < j && HeldThroughout(base, states, i + 1, j, a)
    requires ops[i] == Write(a, x) && !Written(ops, i + 1, j, a)
    ensures a < |images[j]| && images[j][a] == x
  {
    assert Performed(base, states[i], ops[i], states[i + 1], images[i], images[i + 1]);
    PayloadsSurvive(base, ops, states, images, i + 1, j, a);
  }

  lemma {:induction false} AddrIncreases(base: nat, bs: seq<Block>, i: nat, j: nat)
    requires i < j <= |bs|
    ensures Addr(base, bs, i) < Addr(base, bs, j)
    decreases j
  {
    TotalSplit(bs, j - 1);
    if i < j - 1 {
      AddrIncreases(base, bs, i, j - 1);
    }
  }
}
