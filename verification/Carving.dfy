/** Cutting one free block in memory: `divide_block` and the two ways `get_free_block` uses it. */
module Carving {
  import opened Words
  import opened Blocks
  import opened Policy
  import opened BlockMemory

  /** The sizes `divide_block` leaves behind, or `None` when it refuses; both subtractions wrap. */
  function DividedSizes(size: uint32, newBytes: uint32): Option<(uint32, uint32)> {
    if newBytes > Wrap(size - HEADER) then None
    else Some((newBytes, Wrap(size - HEADER - newBytes)))
  }

  /**
    The guard of `divide_block` protects the tiling exactly when the payload
    can hold a header: below six bytes the subtraction wraps, the block is split
    regardless, the pieces no longer add up to it and the new header runs past its end.
   */
  lemma DivideConserves(size: uint32, newBytes: uint32)
    requires newBytes <= size
    ensures size >= HEADER <==>
            match DividedSizes(size, newBytes)
            case None => true
            case Some((first, second)) => first + HEADER + second == size
    ensures size >= HEADER <==> (DividedSizes(size, newBytes).Some? ==> newBytes + HEADER <= size)
    ensures size >= HEADER ==> (DividedSizes(size, newBytes) == None <==> newBytes + HEADER > size)
    ensures size < HEADER ==>
              DividedSizes(size, newBytes) == Some((newBytes, size - HEADER - newBytes + TWO32))
  {
  }

  method DivideBlock(mem: array<byte>, a: nat, newBytes: uint32) returns (r: Option<nat>)
    requires a + HEADER <= mem.Length
    requires DividedSizes(SizeAt(mem[..], a), newBytes).Some? ==> a + HEADER + newBytes + HEADER <= mem.Length
    modifies mem
    ensures match DividedSizes(old(SizeAt(mem[..], a)), newBytes)
            case None => r == None && mem[..] == old(mem[..])
            case Some((first, second)) =>
              && r == Some(a + HEADER + newBytes)
              && SizeAt(mem[..], a) == first
              && SizeAt(mem[..], a + HEADER + newBytes) == second
    ensures forall i :: 0 <= i < mem.Length && !(a + 2 <= i < a + HEADER)
                        && !(a + HEADER + newBytes + 2 <= i < a + HEADER + newBytes + HEADER)
                        ==> mem[i] == old(mem[i])
  {
    var size := SizeAt(mem[..], a);
    if newBytes > Wrap(size - HEADER) {
      return None;
    }
    var cut := a + HEADER + newBytes;
    StoreSize(mem, cut, Wrap(size - HEADER - newBytes));
    StoreSize(mem, a, newBytes);
    return Some(cut);
  }

  lemma TiledOne(m: seq<byte>, a: nat, x: Block)
    requires a + Extent(x) <= |m|
    ensures Total([x]) == Extent(x)
    ensures Tiled(m, a, [x]) <==> HeaderAt(m, a) == x
  {
    One(a, x);
    assert [x][1..] == [];
  }

  lemma TiledTwo(m: seq<byte>, a: nat, x: Block, y: Block)
    requires a + Extent(x) + Extent(y) <= |m|
    ensures Total([x, y]) == Extent(x) + Extent(y)
    ensures Tiled(m, a, [x, y]) <==> HeaderAt(m, a) == x && HeaderAt(m, a + Extent(x)) == y
  {
    assert [x, y] == [x] + [y];
    TiledOne(m, a, x);
    TiledOne(m, a + Extent(x), y);
    TiledConcat(m, a, [x], [y]);
  }

  /** The unaligned path: take the block, split it when the remainder can carry a header. */
  method CarvePlain(mem: array<byte>, ea: nat, n: uint32)
    requires ea + HEADER <= mem.Length
    requires Suits(ea, HeaderAt(mem[..], ea), n, false)
    requires HEADER <= SizeAt(mem[..], ea)
    requires ea + Extent(HeaderAt(mem[..], ea)) <= mem.Length
    modifies mem
    ensures var b := old(HeaderAt(mem[..], ea));
            && Total(Carve(ea, b, n, false)) == Extent(b)
            && Tiled(mem[..], ea, Carve(ea, b, n, false))
            && AgreeOutside(old(mem[..]), mem[..], ea, ea + Extent(b))
  {
    ghost var b := HeaderAt(mem[..], ea);
    CarveCorrect(ea, b, n, false);
    StoreFlag(mem, ea, false);
    assert HeaderAt(mem[..], ea) == Block(false, b.size);
    DivideConserves(b.size, n);
    var cut := DivideBlock(mem, ea, n);
    if cut.Some? {
      StoreFlag(mem, cut.value, true);
      assert HeaderAt(mem[..], ea) == Block(false, n);
      assert HeaderAt(mem[..], cut.value) == Block(true, b.size - HEADER - n);
      TiledTwo(mem[..], ea, Block(false, n), Block(true, b.size - HEADER - n));
    } else {
      TiledOne(mem[..], ea, Block(false, b.size));
    }
  }

  /** The aligned path, once the page boundary `p` is known. */
  method CarveAligned(mem: array<byte>, ea: nat, p: nat, n: uint32)
    requires ea + HEADER <= mem.Length
    requires Suits(ea, HeaderAt(mem[..], ea), n, true)
    requires p == NextPage(ea + 2 * HEADER)
    requires ea + Extent(HeaderAt(mem[..], ea)) <= mem.Length
    modifies mem
    ensures var b := old(HeaderAt(mem[..], ea));
            && Total(Carve(ea, b, n, true)) == Extent(b)
            && Tiled(mem[..], ea, Carve(ea, b, n, true))
            && AgreeOutside(old(mem[..]), mem[..], ea, ea + Extent(b))
  {
    ghost var b := HeaderAt(mem[..], ea);
    CarveCorrect(ea, b, n, true);
    var blockEnd := ea + HEADER + SizeAt(mem[..], ea);
    var newBytes := p - ea - 2 * HEADER;
    var cut := CutFront(mem, ea, newBytes);
    label split:
    TrimTail(mem, cut, n, blockEnd);
    assert HeaderAt(mem[..], ea) == old@split(HeaderAt(mem[..], ea)) == Block(true, newBytes);
    TiledOne(mem[..], ea, Block(true, newBytes));
    TiledConcat(mem[..], ea, [Block(true, newBytes)], Trimmed(blockEnd - p, n));
  }

  /** A free block is divided after `newBytes` bytes and the second part taken. */
  method CutFront(mem: array<byte>, ea: nat, newBytes: uint32) returns (cut: nat)
    requires ea + HEADER <= mem.Length
    requires FlagAt(mem[..], ea) != 0 && newBytes + HEADER <= SizeAt(mem[..], ea)
    requires ea + HEADER + SizeAt(mem[..], ea) <= mem.Length
    modifies mem
    ensures cut == ea + HEADER + newBytes
    ensures HeaderAt(mem[..], ea) == Block(true, newBytes)
    ensures HeaderAt(mem[..], cut) == Block(false, old(SizeAt(mem[..], ea)) - HEADER - newBytes)
    ensures AgreeOutside(old(mem[..]), mem[..], ea, ea + HEADER + old(SizeAt(mem[..], ea)))
  {
    DivideConserves(SizeAt(mem[..], ea), newBytes);
    var r := DivideBlock(mem, ea, newBytes);
    cut := r.value;
    StoreFlag(mem, cut, false);
  }

  method TrimTail(mem: array<byte>, at: nat, n: uint32, blockEnd: nat)
    requires at + HEADER <= blockEnd <= mem.Length
    requires HeaderAt(mem[..], at) == Block(false, blockEnd - at - HEADER)
    modifies mem
    ensures Tiled(mem[..], at, Trimmed(blockEnd - at - HEADER, n))
    ensures AgreeOutside(old(mem[..]), mem[..], at, blockEnd)
  {
    var rest := SizeAt(mem[..], at);
    if rest > n + HEADER {
      var info2 := at + HEADER + n;
      StoreFlag(mem, info2, true);
      StoreSize(mem, info2, blockEnd - info2 - HEADER);
      StoreSize(mem, at, n);
      TiledTwo(mem[..], at, Block(false, n), Block(true, rest - n - HEADER));
    } else {
      TiledOne(mem[..], at, Block(false, rest));
    }
  }
}
