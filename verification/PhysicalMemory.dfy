/** Physical memory byte by byte, and the same memory read as 32-bit little-endian words. */
module PhysicalMemory {
  import opened Words
  import opened LittleEndian
  import opened PageTables
  import opened PagingRuns

  const KERNEL_BYTES: nat := KERNEL_PAGES * PAGE_SIZE

  function WordAt(ram: seq<byte>, i: nat): uint32
    requires 4 * i + 4 <= |ram|
  {
    ram[4 * i] as int + 0x100 * (ram[4 * i + 1] as int)
    + 0x1_0000 * (ram[4 * i + 2] as int) + 0x100_0000 * (ram[4 * i + 3] as int)
  }

  /** The processor reads the same word there. */
  lemma WordIsField(ram: seq<byte>, i: nat)
    requires 4 * i + 4 <= |ram|
    ensures ram[4 * i..4 * i + 4] == Field(WordAt(ram, i), 4)
  {
    Field4(ram[4 * i..4 * i + 4], WordAt(ram, i));
  }

  ghost function WordsOf(ram: seq<byte>): (m: Memory)
    requires |ram| == TWO32
    ensures FullSize(m) && forall i :: 0 <= i < |m| ==> m[i] == WordAt(ram, i)
  {
    seq(PAGES * SLOTS, i requires 0 <= i < PAGES * SLOTS => WordAt(ram, i))
  }

  lemma LowByte(x: byte, y: nat, x': byte, y': nat)
    requires x + 0x100 * y == x' + 0x100 * y'
    ensures x == x' && y == y'
  {
  }

  lemma FourBytes(a: byte, b: byte, c: byte, d: byte, a': byte, b': byte, c': byte, d': byte)
    requires a + 0x100 * b + 0x1_0000 * c + 0x100_0000 * d == a' + 0x100 * b' + 0x1_0000 * c' + 0x100_0000 * d'
    ensures a == a' && b == b' && c == c' && d == d'
  {
    LowByte(a, b + 0x100 * (c + 0x100 * d), a', b' + 0x100 * (c' + 0x100 * d'));
    LowByte(b, c + 0x100 * d, b', c' + 0x100 * d');
    LowByte(c, d, c', d');
  }

  /** A word tells its four bytes. */
  lemma WordBytes(ram: seq<byte>, ram': seq<byte>, i: nat, k: nat)
    requires 4 * i + 4 <= |ram| == |ram'| && k < 4
    requires WordAt(ram, i) == WordAt(ram', i)
    ensures ram[4 * i + k] == ram'[4 * i + k]
  {
    FourBytes(ram[4 * i], ram[4 * i + 1], ram[4 * i + 2], ram[4 * i + 3],
              ram'[4 * i], ram'[4 * i + 1], ram'[4 * i + 2], ram'[4 * i + 3]);
    assert k == 0 || k == 1 || k == 2 || k == 3;
  }

  lemma BytesWord(ram: seq<byte>, ram': seq<byte>, p: nat, i: nat)
    requires |ram| == |ram'| == TWO32 && p < PAGES && i < SLOTS
    requires forall a: nat :: p * PAGE_SIZE <= a < p * PAGE_SIZE + PAGE_SIZE ==> ram'[a] == ram[a]
    ensures Word(WordsOf(ram'), p, i) == Word(WordsOf(ram), p, i)
  {
    var w := p * SLOTS + i;
    assert 4 * w == p * PAGE_SIZE + 4 * i && w < PAGES * SLOTS;
  }

  /** The kernel has written to its own memory only. */
  ghost predicate KernelOnly(ram: seq<byte>, ram': seq<byte>) {
    |ram'| == |ram| == TWO32 && forall p: nat :: KERNEL_BYTES <= p < TWO32 ==> ram'[p] == ram[p]
  }

  /** Frames beyond the kernel's whose words are kept keep their bytes. */
  lemma UserBytes(ram: seq<byte>, ram': seq<byte>)
    requires |ram| == |ram'| == TWO32 && UserSame(WordsOf(ram), WordsOf(ram'))
    ensures KernelOnly(ram, ram')
  {
    forall a: nat | KERNEL_BYTES <= a < TWO32 ensures ram'[a] == ram[a] {
      var p, i := a / PAGE_SIZE, a % PAGE_SIZE / 4;
      assert p * SLOTS + i == a / 4;
      assert Word(WordsOf(ram'), p, i) == Word(WordsOf(ram), p, i);
      WordBytes(ram, ram', a / 4, a % 4);
    }
  }
}
