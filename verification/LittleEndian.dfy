/** How the processor lays out a field of several bytes: least significant first. */
module LittleEndian {
  import opened Words
  import opened Bits

  /** Byte `i` of a field that holds `x`. */
  function ByteNo(x: nat, i: nat): byte {
    if i == 0 then x % 0x100 else ByteNo(x / 0x100, i - 1)
  }

  /** The `n` bytes of a field that holds `x`. */
  function Field(x: nat, n: nat): (s: seq<byte>)
    ensures |s| == n && forall i :: 0 <= i < n ==> s[i] == ByteNo(x, i)
  {
    seq(n, i requires 0 <= i => ByteNo(x, i))
  }

  /** Byte `i` is `x / 0x100^i % 0x100`. */
  lemma {:induction false} ByteIsDigit(x: nat, i: nat)
    ensures ByteNo(x, i) == x / Power(i) % 0x100
    decreases i
  {
    if i > 0 {
      ByteIsDigit(x / 0x100, i - 1);
      DivideTwice(x, Power(i - 1));
    }
  }

  function Power(i: nat): (p: nat)
    ensures p >= 1
  {
    if i == 0 then 1 else 0x100 * Power(i - 1)
  }

  lemma DivideTwice(x: nat, p: nat)
    requires p >= 1
    ensures x / 0x100 / p == x / (0x100 * p)
  {
    var y := x / 0x100;
    var q, r := y / p, y % p;
    assert y == q * p + r;
    assert 0x100 * (q * p) == q * (0x100 * p);
    DivUnique(x, 0x100 * p, q, 0x100 * r + x % 0x100);
  }

  lemma LowDigit(a: byte, y: nat, x: nat)
    ensures a + 0x100 * y == x <==> a == x % 0x100 && y == x / 0x100
  {
  }

  /** Two bytes are the field of a number exactly if that is the number they hold. */
  lemma Field2(s: seq<byte>, x: uint16)
    requires |s| == 2
    ensures s == Field(x, 2) <==> s[0] as int + 0x100 * (s[1] as int) == x
  {
    LowDigit(s[0], s[1], x);
    assert ByteNo(x, 1) == ByteNo(x / 0x100, 0) == x / 0x100;
  }

  /** The same for four bytes. */
  lemma Field4(s: seq<byte>, x: uint32)
    requires |s| == 4
    ensures s == Field(x, 4) <==>
            s[0] as int + 0x100 * (s[1] as int) + 0x1_0000 * (s[2] as int) + 0x100_0000 * (s[3] as int) == x
  {
    var f := Field(x, 4);
    assert s == f <==> s[0] == f[0] && s[1] == f[1] && s[2] == f[2] && s[3] == f[3];
    Digits(s[0], s[1], s[2], s[3], x);
  }

  lemma Digits(a: byte, b: byte, c: byte, d: byte, x: uint32)
    ensures a == ByteNo(x, 0) && b == ByteNo(x, 1) && c == ByteNo(x, 2) && d == ByteNo(x, 3) <==>
            a + 0x100 * b + 0x1_0000 * c + 0x100_0000 * d == x
  {
    var x1 := x / 0x100;
    var x2 := x1 / 0x100;
    var x3 := x2 / 0x100;
    assert ByteNo(x, 1) == ByteNo(x1, 0);
    assert ByteNo(x, 2) == ByteNo(x1, 1) == ByteNo(x2, 0);
    assert ByteNo(x, 3) == ByteNo(x1, 2) == ByteNo(x2, 1) == ByteNo(x3, 0) == x3;
    LowDigit(a, b + 0x100 * (c + 0x100 * d), x);
    LowDigit(b, c + 0x100 * d, x1);
    LowDigit(c, d, x2);
  }

  /** Four bytes from byte `k` of word `lo` on, running into `hi`. */
  function BytesFrom(lo: uint32, hi: uint32, k: nat): uint32
    requires k < 4
  {
    match k
    case 0 => lo
    case 1 => lo / 0x100 + hi % 0x100 * 0x100_0000
    case 2 => lo / 0x1_0000 + hi % 0x1_0000 * 0x1_0000
    case 3 => lo / 0x100_0000 + hi % 0x100_0000 * 0x100
  }

  /** The number four bytes hold. */
  function Number4(a: byte, b: byte, c: byte, d: byte): uint32 {
    a as int + 0x100 * b as int + 0x1_0000 * c as int + 0x100_0000 * d as int
  }

  lemma Cuts(x: uint32, a: byte, b: byte, c: byte, d: byte)
    requires x == Number4(a, b, c, d)
    ensures x / 0x100 == b as int + 0x100 * c as int + 0x1_0000 * d as int && x % 0x100 == a
    ensures x / 0x1_0000 == c as int + 0x100 * d as int && x % 0x1_0000 == a as int + 0x100 * b as int
    ensures x / 0x100_0000 == d && x % 0x100_0000 == a as int + 0x100 * b as int + 0x1_0000 * c as int
  {
    var ab, cd := a as int + 0x100 * b as int, c as int + 0x100 * d as int;
    var bcd := b as int + 0x100 * cd;
    CutAt(a, bcd, 0x100, x);
    CutAt(ab, cd, 0x1_0000, x);
    CutAt(ab + 0x1_0000 * c as int, d, 0x100_0000, x);
  }

  lemma Straddles(lo: uint32, hi: uint32, a: byte, b: byte, c: byte, d: byte, e: byte, f: byte, g: byte, h: byte)
    requires lo == Number4(a, b, c, d) && hi == Number4(e, f, g, h)
    ensures BytesFrom(lo, hi, 0) == lo
    ensures BytesFrom(lo, hi, 1) == Number4(b, c, d, e)
    ensures BytesFrom(lo, hi, 2) == Number4(c, d, e, f)
    ensures BytesFrom(lo, hi, 3) == Number4(d, e, f, g)
  {
    Cuts(lo, a, b, c, d);
    Cuts(hi, e, f, g, h);
  }

  lemma CutAt(low: nat, high: nat, p: nat, x: nat)
    requires low < p && x == high * p + low
    ensures x / p == high && x % p == low
  {
    DivUnique(x, p, high, low);
  }

  /** The word read there has the four bytes that lie there. */
  lemma BytesLieThere(lo: uint32, hi: uint32, k: nat)
    requires k < 4
    ensures Field(BytesFrom(lo, hi, k), 4) == (Field(lo, 4) + Field(hi, 4))[k..k + 4]
  {
    var a, b := Field(lo, 4), Field(hi, 4);
    FieldNumber(a, lo);
    FieldNumber(b, hi);
    Straddles(lo, hi, a[0], a[1], a[2], a[3], b[0], b[1], b[2], b[3]);
    NumberIn((a + b)[k..k + 4], a, b, k);
    FieldNumber((a + b)[k..k + 4], BytesFrom(lo, hi, k));
  }

  lemma FieldNumber(s: seq<byte>, x: uint32)
    requires |s| == 4
    ensures s == Field(x, 4) <==> Number4(s[0], s[1], s[2], s[3]) == x
  {
    Field4(s, x);
  }

  lemma NumberIn(s: seq<byte>, a: seq<byte>, b: seq<byte>, k: nat)
    requires |a| == |b| == 4 && k < 4 && s == (a + b)[k..k + 4]
    ensures k == 0 ==> s == a
    ensures k == 1 ==> s == [a[1], a[2], a[3], b[0]]
    ensures k == 2 ==> s == [a[2], a[3], b[0], b[1]]
    ensures k == 3 ==> s == [a[3], b[0], b[1], b[2]]
  {
  }
}
