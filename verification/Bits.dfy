/** Bitwise operations on natural numbers, defined one bit at a time. */
module Bits {

  function Pow2(j: nat): (r: nat)
    ensures r >= 1
  {
    if j == 0 then 1 else 2 * Pow2(j - 1)
  }

  predicate Bit(w: nat, j: nat) {
    if j == 0 then w % 2 == 1 else Bit(w / 2, j - 1)
  }

  function And(a: nat, b: nat): nat {
    if a == 0 then 0 else 2 * And(a / 2, b / 2) + (if a % 2 == 1 && b % 2 == 1 then 1 else 0)
  }

  function Or(a: nat, b: nat): nat
    decreases a + b
  {
    if a == 0 && b == 0 then 0
    else 2 * Or(a / 2, b / 2) + (if a % 2 == 1 || b % 2 == 1 then 1 else 0)
  }

  /** The three lowest bits. */
  lemma LowBits3(w: nat)
    ensures Bit(w, 0) <==> w % 2 == 1
    ensures Bit(w, 1) <==> w / 2 % 2 == 1
    ensures Bit(w, 2) <==> w / 4 % 2 == 1
  {
    assert Bit(w, 1) == Bit(w / 2, 0);
    assert Bit(w, 2) == Bit(w / 2, 1) == Bit(w / 2 / 2, 0);
    assert w / 2 / 2 == w / 4;
  }

  lemma OrHalves(a: nat, b: nat)
    ensures Or(a, b) / 2 == Or(a / 2, b / 2)
    ensures Or(a, b) % 2 == 1 <==> a % 2 == 1 || b % 2 == 1
  {
  }

  lemma {:induction false} OrBit(a: nat, b: nat, k: nat)
    ensures Bit(Or(a, b), k) <==> Bit(a, k) || Bit(b, k)
    decreases k
  {
    OrHalves(a, b);
    if k > 0 {
      OrBit(a / 2, b / 2, k - 1);
    }
  }

  lemma {:induction false} OrBound(a: nat, b: nat, n: nat)
    requires a < Pow2(n) && b < Pow2(n)
    ensures Or(a, b) < Pow2(n)
    decreases n
  {
    if n > 0 {
      OrBound(a / 2, b / 2, n - 1);
    }
  }

  lemma {:induction false} AndBit(a: nat, b: nat, k: nat)
    ensures Bit(And(a, b), k) <==> Bit(a, k) && Bit(b, k)
    decreases k
  {
    if a == 0 {
      ZeroBit(k);
    } else if k > 0 {
      AndBit(a / 2, b / 2, k - 1);
    }
  }

  lemma {:induction false} AndBound(a: nat, b: nat)
    ensures And(a, b) <= a
    decreases a
  {
    if a > 0 {
      AndBound(a / 2, b / 2);
    }
  }

  /** `~x` in `n` bits has the bits that `x` has not. */
  lemma {:induction false} ComplementBit(n: nat, x: nat, k: nat)
    requires x < Pow2(n) && k < n
    ensures Bit(Pow2(n) - 1 - x, k) <==> !Bit(x, k)
    decreases n
  {
    ComplementHalf(Pow2(n - 1), x);
    if k > 0 {
      ComplementBit(n - 1, x / 2, k - 1);
    }
  }

  lemma ComplementHalf(p: nat, x: nat)
    requires x < 2 * p
    ensures (2 * p - 1 - x) / 2 == p - 1 - x / 2
    ensures (2 * p - 1 - x) % 2 == 1 - x % 2
  {
    assert x == 2 * (x / 2) + x % 2;
  }

  lemma {:induction false} Pow2Bit(j: nat, k: nat)
    ensures Bit(Pow2(j), k) <==> j == k
    decreases k
  {
    if k == 0 {
    } else if j == 0 {
      ZeroBit(k - 1);
    } else {
      Pow2Bit(j - 1, k - 1);
    }
  }

  lemma {:induction false} ZeroBit(k: nat)
    ensures !Bit(0, k)
    decreases k
  {
    if k > 0 {
      ZeroBit(k - 1);
    }
  }

  lemma {:induction false} AndPow2(w: nat, j: nat)
    ensures And(w, Pow2(j)) == if Bit(w, j) then Pow2(j) else 0
    decreases j
  {
    if w == 0 {
      ZeroBit(j);
    } else if j == 0 {
      AndZero(w / 2);
    } else {
      AndPow2(w / 2, j - 1);
    }
  }

  /** `(w & (1 << j)) >> j` */
  lemma BitExtract(w: nat, j: nat)
    ensures And(w, Pow2(j)) / Pow2(j) == if Bit(w, j) then 1 else 0
  {
    AndPow2(w, j);
    DivUnique(Pow2(j), Pow2(j), 1, 0);
    DivUnique(0, Pow2(j), 0, 0);
  }

  lemma {:induction false} AndZero(w: nat)
    ensures And(w, 0) == 0
    decreases w
  {
    if w > 0 {
      AndZero(w / 2);
    }
  }

  /** All 32 bits of the largest word are set. */
  lemma {:induction false} OnesBit(n: nat, j: nat)
    requires j < n
    ensures Bit(Pow2(n) - 1, j)
    decreases n
  {
    if j > 0 {
      assert (Pow2(n) - 1) / 2 == Pow2(n - 1) - 1;
      OnesBit(n - 1, j - 1);
    }
  }

  // ----- Shifts

  /** `m << n` */
  function Scale(m: nat, n: nat): nat {
    if n == 0 then m else 2 * Scale(m, n - 1)
  }

  /** `a >> n` */
  function Down(a: nat, n: nat): nat {
    if n == 0 then a else Down(a / 2, n - 1)
  }

  lemma {:induction false} ScaleIsMul(m: nat, n: nat)
    ensures Scale(m, n) == m * Pow2(n)
    decreases n
  {
    if n > 0 {
      ScaleIsMul(m, n - 1);
      MulTwice(m, Pow2(n - 1));
    }
  }

  lemma MulTwice(x: nat, y: nat)
    ensures 2 * (x * y) == x * (2 * y)
  {
  }

  lemma {:induction false} DownIsDiv(a: nat, n: nat)
    ensures Down(a, n) == a / Pow2(n)
    decreases n
  {
    if n > 0 {
      DownIsDiv(a / 2, n - 1);
      HalveThenShift(a, n);
    }
  }

  /** Setting low bits of a shifted number adds them. */
  lemma {:induction false} OrLow(q: nat, f: nat, n: nat)
    requires f < Pow2(n)
    ensures Or(Scale(q, n), f) == Scale(q, n) + f
    decreases n
  {
    if n == 0 {
      OrZero(q);
    } else {
      OrLow(q, f / 2, n - 1);
      OrHalves(Scale(q, n), f);
    }
  }

  lemma {:induction false} OrZero(q: nat)
    ensures Or(q, 0) == q
    decreases q
  {
    if q > 0 {
      OrZero(q / 2);
    }
  }

  /** `Or` with a value below 2^n leaves the bits from n upwards alone. */
  lemma {:induction false} OrHigh(a: nat, f: nat, n: nat)
    requires f < Pow2(n)
    ensures Down(Or(a, f), n) == Down(a, n)
    decreases n
  {
    if n == 0 {
      OrZero(a);
    } else {
      OrHalves(a, f);
      OrHigh(a / 2, f / 2, n - 1);
    }
  }

  lemma HalveThenShift(a: nat, n: nat)
    requires n > 0
    ensures a / Pow2(n) == (a / 2) / Pow2(n - 1)
  {
    var p := Pow2(n - 1);
    var q, r := (a / 2) / p, (a / 2) % p;
    assert a / 2 == q * p + r;
    assert a == q * (2 * p) + (2 * r + a % 2) by {
      assert 2 * (q * p) == q * (2 * p);
    }
    DivUnique(a, 2 * p, q, 2 * r + a % 2);
  }

  lemma DivUnique(a: nat, d: nat, q: nat, r: nat)
    requires d > 0 && a == q * d + r && r < d
    ensures a / d == q
  {
    var q', r' := a / d, a % d;
    assert a == q' * d + r';
    MulGap(q, q', d);
    MulGap(q', q, d);
  }

  lemma {:induction false} MulGap(x: nat, y: nat, d: nat)
    ensures x < y ==> x * d + d <= y * d
    decreases y
  {
    if x + 1 < y {
      MulGap(x, y - 1, d);
    }
    assert x + 1 <= y ==> (y - 1) * d + d == y * d;
  }

  /** Masking with a shifted mask masks what lies above the shift. */
  lemma {:induction false} AndHigh(a: nat, m: nat, n: nat)
    ensures And(a, Scale(m, n)) == Scale(And(Down(a, n), m), n)
    decreases n
  {
    if n > 0 {
      AndDouble(a, Scale(m, n - 1));
      AndHigh(a / 2, m, n - 1);
    }
  }

  lemma AndDouble(a: nat, b: nat)
    ensures And(a, 2 * b) == 2 * And(a / 2, b)
  {
  }

  lemma {:induction false} AndOnes(a: nat, k: nat)
    requires a < Pow2(k)
    ensures And(a, Pow2(k) - 1) == a
    decreases k
  {
    if k > 0 {
      assert (Pow2(k) - 1) / 2 == Pow2(k - 1) - 1;
      AndOnes(a / 2, k - 1);
    }
  }

  /** The sizes used by 32-bit words and 4 KiB pages. */
  lemma Powers()
    ensures Pow2(3) == 8 && Pow2(12) == 0x1000 && Pow2(20) == 0x10_0000 && Pow2(32) == 0x1_0000_0000
  {
    assert Pow2(4) == 16 && Pow2(8) == 0x100;
    assert Pow2(16) == 0x1_0000;
    assert Pow2(24) == 0x100_0000;
    assert Pow2(28) == 0x1000_0000;
  }

  // ----- Page-table entries

  /** The address part of an entry: `x & 0xFFFFF000`. */
  lemma AddressPart(x: nat)
    requires x < 0x1_0000_0000
    ensures And(x, 0xFFFF_F000) == x / 0x1000 * 0x1000
  {
    Powers();
    ScaleIsMul(Pow2(20) - 1, 12);
    AndHigh(x, Pow2(20) - 1, 12);
    DownIsDiv(x, 12);
    AndOnes(x / 0x1000, 20);
    ScaleIsMul(x / 0x1000, 12);
  }

  /** The offset part of an entry, `x & ~0xFFFFF000`, is below a page. */
  lemma LowPart(x: nat)
    ensures And(x, 0xFFF) < 0x1000
  {
    AndMask(x, 0xFFF);
  }

  lemma {:induction false} AndMask(a: nat, b: nat)
    ensures And(a, b) <= b
    decreases a
  {
    if a > 0 {
      AndMask(a / 2, b / 2);
    }
  }

  /** The present bit: `x & 0x1`. */
  lemma PresentBit(x: nat)
    ensures And(x, 1) == x % 2
  {
    AndPow2(x, 0);
  }

  /** Adding flags to a page-aligned address: `x | flags`. */
  lemma WithFlags(x: nat, flags: nat)
    requires x % 0x1000 == 0 && flags < 8
    ensures Or(x, flags) == x + flags
  {
    var q := x / 0x1000;
    assert Scale(q, 12) == q * 0x1000 && flags < Pow2(12) by {
      Powers();
      ScaleIsMul(q, 12);
    }
    OrLow(q, flags, 12);
  }

  /**
    A structure whose address was stored with flags in the low bits is found
    again through the address mask exactly when it is page-aligned.
   */
  lemma MaskFindsAlignedOnly(a: nat, flags: nat)
    requires a < 0x1_0000_0000 && flags < 8
    ensures And(Or(a, flags), 0xFFFF_F000) == a / 0x1000 * 0x1000
    ensures And(Or(a, flags), 0xFFFF_F000) == a <==> a % 0x1000 == 0
  {
    Powers();
    OrBound(a, flags, 32);
    AddressPart(Or(a, flags));
    OrHigh(a, flags, 12);
    DownIsDiv(Or(a, flags), 12);
    DownIsDiv(a, 12);
  }
}
