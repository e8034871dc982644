/** Numerals in a base up to sixteen, as the console's number printers write them. */
module Numerals {
  import opened Words
  import opened Bits

  const ZERO: byte := 48

  /** The character printed for a digit: 0 to 9, then A to F. */
  function DigitChar(d: nat): byte
    requires d < 16
  {
    if d > 9 then 64 + (d - 9) else ZERO + d
  }

  function CharDigit(c: byte): Option<nat> {
    if 48 <= c <= 57 then Some(c - 48)
    else if 65 <= c <= 70 then Some(c - 55)
    else None
  }

  /** Reading a numeral: `None` unless every character is a digit of the base. */
  function Parse(cs: seq<byte>, base: nat): Option<nat> {
    if cs == [] then Some(0)
    else
      var front := Parse(cs[..|cs| - 1], base);
      var last := CharDigit(cs[|cs| - 1]);
      if front.Some? && last.Some? && last.value < base then Some(front.value * base + last.value) else None
  }

  /** The ordinary numeral of `a`: no leading zero unless it is the only digit. */
  function Numeral(a: nat, base: nat): (cs: seq<byte>)
    requires 2 <= base <= 16
    ensures cs != []
    decreases a
  {
    if a < base then [DigitChar(a)]
    else
      DivSmaller(a, base);
      Numeral(a / base, base) + [DigitChar(a % base)]
  }

  lemma DivSmaller(a: nat, base: nat)
    requires 2 <= base <= a
    ensures 0 < a / base < a
  {
    var q, r := a / base, a % base;
    assert a == q * base + r;
    MulGap(0, q, base);
    assert q * base >= 2 * q by { MulAtLeast(q, base); }
  }

  lemma {:induction false} MulAtLeast(q: nat, base: nat)
    requires base >= 2
    ensures q * base >= 2 * q
    decreases q
  {
    if q > 0 {
      MulAtLeast(q - 1, base);
      assert q * base == (q - 1) * base + base;
    }
  }

  lemma DivMod(a: nat, d: nat)
    requires d > 0
    ensures a == (a / d) * d + a % d
  {
  }

  lemma ParseAppend(cs: seq<byte>, q: nat, d: nat, base: nat)
    requires base <= 16 && d < base && Parse(cs, base) == Some(q)
    ensures Parse(cs + [DigitChar(d)], base) == Some(q * base + d)
  {
    assert (cs + [DigitChar(d)])[..|cs|] == cs;
    assert CharDigit(DigitChar(d)) == Some(d);
  }

  /** What is printed reads back as the number printed. */
  lemma {:induction false} RoundTrip(a: nat, base: nat)
    requires 2 <= base <= 16
    ensures Parse(Numeral(a, base), base) == Some(a)
    decreases a
  {
    var cs := Numeral(a, base);
    if a < base {
      assert cs[..0] == [];
      assert Parse([], base) == Some(0);
    } else {
      DivSmaller(a, base);
      RoundTrip(a / base, base);
      ParseAppend(Numeral(a / base, base), a / base, a % base, base);
      DivMod(a, base);
    }
  }

  lemma {:induction false} NoLeadingZero(a: nat, base: nat)
    requires 2 <= base <= 16
    ensures Numeral(a, base)[0] == ZERO <==> a == 0
    ensures Numeral(a, base)[0] == ZERO ==> |Numeral(a, base)| == 1
    decreases a
  {
    if a >= base {
      DivSmaller(a, base);
      NoLeadingZero(a / base, base);
    }
  }

  // ----- Printing from the most significant digit

  function Pow(base: nat, k: nat): nat {
    if k == 0 then 1 else base * Pow(base, k - 1)
  }

  lemma {:induction false} PowPositive(base: nat, k: nat)
    requires base >= 1
    ensures Pow(base, k) >= 1
    decreases k
  {
    if k > 0 {
      PowPositive(base, k - 1);
      MulGap(0, Pow(base, k - 1), base);
    }
  }

  /** Exactly `k + 1` digits of `a`, with leading zeros. */
  function Padded(a: nat, base: nat, k: nat): seq<byte>
    requires 2 <= base <= 16
    decreases k
  {
    if k == 0 then [DigitChar(a % base)]
    else Padded(a / base, base, k - 1) + [DigitChar(a % base)]
  }

  /** The two bases the console prints in. */
  predicate Printed(base: nat) { base == 10 || base == 16 }

  /** `high` followed by `k` zeros. */
  function Shift(high: nat, base: nat, k: nat): nat {
    if k == 0 then high else base * Shift(high, base, k - 1)
  }

  lemma {:induction false} ShiftIsMul(high: nat, base: nat, k: nat)
    ensures Shift(high, base, k) == high * Pow(base, k)
    decreases k
  {
    if k > 0 {
      ShiftIsMul(high, base, k - 1);
      MulSwap(base, high, Pow(base, k - 1));
    }
  }

  lemma MulSwap(x: nat, y: nat, z: nat)
    ensures x * (y * z) == y * (x * z)
  {
  }

  lemma DropLast(x: nat, low: nat, base: nat)
    requires Printed(base)
    ensures (base * x + low) / base == x + low / base && (base * x + low) % base == low % base
  {
    if base == 10 {
      assert (10 * x + low) / 10 == x + low / 10 && (10 * x + low) % 10 == low % 10;
    } else {
      assert (16 * x + low) / 16 == x + low / 16 && (16 * x + low) % 16 == low % 16;
    }
  }

  lemma QuotientBelow(low: nat, base: nat, p: nat)
    requires Printed(base) && low < base * p
    ensures low / base < p
  {
    if base == 10 {
      assert low < 10 * p;
    } else {
      assert low < 16 * p;
    }
  }

  /** The digits can be taken from the front: `high` is the digit in front of the `k` digits of `low`. */
  lemma {:induction false} PaddedFront(high: nat, low: nat, base: nat, k: nat)
    requires Printed(base) && k > 0
    requires high < base && low < Pow(base, k)
    ensures Padded(Shift(high, base, k) + low, base, k) == [DigitChar(high)] + Padded(low, base, k - 1)
    decreases k
  {
    var a := Shift(high, base, k) + low;
    DropLast(Shift(high, base, k - 1), low, base);
    QuotientBelow(low, base, Pow(base, k - 1));
    if k == 1 {
      PaddedTwo(a, high, low, base);
    } else {
      PaddedFront(high, low / base, base, k - 1);
      PaddedStep(a, low, DigitChar(high), base, k);
    }
  }

  lemma PaddedTwo(a: nat, high: nat, low: nat, base: nat)
    requires Printed(base) && high < base
    requires a / base == high && a % base == low % base
    ensures Padded(a, base, 1) == [DigitChar(high)] + Padded(low, base, 0)
  {
    assert high % base == high;
    assert Padded(high, base, 0) == [DigitChar(high)];
  }

  lemma PaddedStep(a: nat, low: nat, c: byte, base: nat, k: nat)
    requires Printed(base) && k >= 2
    requires a % base == low % base
    requires Padded(a / base, base, k - 1) == [c] + Padded(low / base, base, k - 2)
    ensures Padded(a, base, k) == [c] + Padded(low, base, k - 1)
  {
  }

  /** Without leading zeros to add, the padded digits are the numeral. */
  lemma {:induction false} PaddedIsNumeral(a: nat, base: nat, k: nat)
    requires Printed(base)
    requires Pow(base, k) <= a < Pow(base, k + 1)
    ensures Padded(a, base, k) == Numeral(a, base)
    decreases k
  {
    if k == 0 {
      assert Pow(base, 1) == base * Pow(base, 0) == base;
    } else {
      assert Pow(base, k - 1) <= a / base < Pow(base, k) && base <= a by {
        PowPositive(base, k - 1);
      }
      PaddedIsNumeral(a / base, base, k - 1);
    }
  }

  // ----- Where the printers start

  lemma DecimalRange(a: uint32)
    ensures Pow(10, 9) == 1_000_000_000 && a < Pow(10, 10)
  {
    assert Pow(10, 3) == 1000;
    assert Pow(10, 6) == 1_000_000;
  }

  lemma HexRange(a: uint32)
    ensures Pow(16, 7) == 0x1000_0000 && a < Pow(16, 8)
  {
    assert Pow(16, 3) == 0x1000;
    assert Pow(16, 6) == 0x100_0000;
  }

  // ----- The printing loops

  /** The characters `puti` sends, in order. */
  method Decimal(a: uint32) returns (out: seq<byte>)
    ensures out == Numeral(a, 10)
  {
    if a == 0 {
      return [ZERO];
    }
    var b := 1_000_000_000;
    ghost var k: nat := 9;
    DecimalRange(a);
    while b > a
      invariant b == Pow(10, k) && a < Pow(10, k + 1)
      decreases b
    {
      assert k > 0 && Pow(10, k) == 10 * Pow(10, k - 1);
      b := b / 10;
      k := k - 1;
    }
    PaddedIsNumeral(a, 10, k);
    out := DecimalDigits(a, b, k);
  }

  /** The characters `puth` sends after its prefix, in order. */
  method Hexadecimal(a: uint32) returns (out: seq<byte>)
    ensures out == Numeral(a, 16)
  {
    if a == 0 {
      return [ZERO];
    }
    var b := 0x1000_0000;
    ghost var k: nat := 7;
    HexRange(a);
    while b > a
      invariant b == Pow(16, k) && a < Pow(16, k + 1)
      decreases b
    {
      assert k > 0 && Pow(16, k) == 16 * Pow(16, k - 1);
      b := b / 16;
      k := k - 1;
    }
    PaddedIsNumeral(a, 16, k);
    out := HexDigits(a, b, k);
  }

  /** The second loop of `puti`: digits from the front, dividing by falling powers of ten. */
  method DecimalDigits(a: nat, power: nat, ghost k: nat) returns (out: seq<byte>)
    requires power > 0 && Turning(a, power, 10, k)
    ensures out == Padded(a, 10, k)
  {
    var x, b := a, power;
    ghost var j := k;
    out := [];
    while b != 0
      invariant Turning(x, b, 10, j)
      invariant Padded(a, 10, k) == out + Pending(x, b, 10, j)
      decreases b
    {
      var digit;
      digit, x, b := TakeDigit(x, b, 10, j);
      j := if j == 0 then 0 else j - 1;
      out := out + [digit + ZERO];
    }
  }

  /** The second loop of `puth`, with letters for the digits above nine. */
  method HexDigits(a: nat, power: nat, ghost k: nat) returns (out: seq<byte>)
    requires power > 0 && Turning(a, power, 16, k)
    ensures out == Padded(a, 16, k)
  {
    var x, b := a, power;
    ghost var j := k;
    out := [];
    while b != 0
      invariant Turning(x, b, 16, j)
      invariant Padded(a, 16, k) == out + Pending(x, b, 16, j)
      decreases b
    {
      var digit;
      digit, x, b := TakeDigit(x, b, 16, j);
      j := if j == 0 then 0 else j - 1;
      if digit > 9 {
        out := out + [64 + (digit - 9)];
      } else {
        out := out + [digit + ZERO];
      }
    }
  }

  /** `a / b`, `a % b` and `b / base` of one turn of the digit loop. */
  method TakeDigit(x: nat, b: nat, base: nat, ghost j: nat) returns (digit: nat, rest: nat, next: nat)
    requires Printed(base) && b != 0 && Turning(x, b, base, j)
    ensures digit < base && next < b
    ensures var j' := if j == 0 then 0 else j - 1;
            && Turning(rest, next, base, j')
            && Pending(x, b, base, j) == [DigitChar(digit)] + Pending(rest, next, base, j')
  {
    var unused;
    digit, rest := DivRem(x, b);
    next, unused := DivRem(b, base);
    DigitTurn(x, digit, rest, b, next, base, j);
  }

  /** The digit loop stands at power `b`, which is the `j`-th of the base unless the loop is over. */
  ghost predicate Turning(x: nat, b: nat, base: nat, j: nat) {
    b != 0 ==> b == Pow(base, j) && x < Pow(base, j + 1)
  }

  /** The digits still to be printed. */
  ghost function Pending(x: nat, b: nat, base: nat, j: nat): seq<byte>
    requires Printed(base)
  {
    if b == 0 then [] else Padded(x, base, j)
  }

  lemma DigitTurn(x: nat, high: nat, low: nat, b: nat, next: nat, base: nat, j: nat)
    requires Printed(base) && b != 0 && Turning(x, b, base, j)
    requires x == high * b + low && low < b
    requires next * base <= b < next * base + base
    ensures high < base && next < b
    ensures var j' := if j == 0 then 0 else j - 1;
            && Turning(low, next, base, j')
            && Pending(x, b, base, j) == [DigitChar(high)] + Pending(low, next, base, j')
  {
    FrontDigit(x, high, low, b, base, j);
    if base == 10 { assert b / 10 == next; } else { assert b / 16 == next; }
  }

  method DivRem(x: nat, d: nat) returns (q: nat, r: nat)
    requires d > 0
    ensures x == q * d + r && r < d
  {
    DivMod(x, d);
    q, r := x / d, x % d;
  }

  /** One turn of the digit loop, in terms of the digits still to be printed. */
  lemma FrontDigit(x: nat, high: nat, low: nat, b: nat, base: nat, j: nat)
    requires Printed(base) && b == Pow(base, j) && x < Pow(base, j + 1)
    requires x == high * b + low && low < b
    ensures high < base
    ensures if j == 0 then b / base == 0 && Padded(x, base, 0) == [DigitChar(high)]
            else
              && b / base == Pow(base, j - 1) > 0
              && Padded(x, base, j) == [DigitChar(high)] + Padded(low, base, j - 1)
  {
    MulGap(base, high + 1, b);
    assert (high + 1) * b == high * b + b;
    if j == 0 {
      assert b == 1 && x == high && high % base == high;
    } else {
      ShiftIsMul(high, base, j);
      PaddedFront(high, low, base, j);
      PowPositive(base, j - 1);
      DropLast(Pow(base, j - 1), 0, base);
    }
  }
}
