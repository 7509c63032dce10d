// Unsigned C integer arithmetic on natural numbers. A w-bit unsigned value is a
// natural number below 2^w; the operators are defined bit by bit, so that nothing
// about them is taken from a solver's theory of bit-vectors. TruncIsMod and
// ShrIsDiv tie them to ordinary remainder and quotient.
module Bits {

  function Pow2(n: nat): (r: nat)
    ensures r > 0
  {
    if n == 0 then 1 else 2 * Pow2(n - 1)
  }

  function Bit(b: bool): nat {
    if b then 1 else 0
  }

  /** `x & y` */
  function And(x: nat, y: nat): nat {
    if x == 0 || y == 0 then 0
    else Bit(x % 2 == 1 && y % 2 == 1) + 2 * And(x / 2, y / 2)
  }

  /** `x | y` */
  function Or(x: nat, y: nat): nat {
    if x == 0 then y
    else if y == 0 then x
    else Bit(x % 2 == 1 || y % 2 == 1) + 2 * Or(x / 2, y / 2)
  }

  /** `~x` on w bits */
  function Not(x: nat, w: nat): nat
    requires x < Pow2(w)
  {
    Pow2(w) - 1 - x
  }

  /** A conversion to a w-bit unsigned type: the w low bits, of a negative x in two's complement. */
  function Trunc(x: int, w: nat): (r: nat)
    ensures r < Pow2(w)
    decreases w
  {
    if w == 0 then 0 else x % 2 + 2 * Trunc(x / 2, w - 1)
  }

  /** `x >> k`, arithmetic when x is negative. */
  function Shr(x: int, k: nat): (r: int)
    ensures x >= 0 ==> r >= 0
    decreases k
  {
    if k == 0 then x else Shr(x / 2, k - 1)
  }

  /** `x << k` on w bits */
  function Shl(x: nat, k: nat, w: nat): nat {
    Trunc(x * Pow2(k), w)
  }

  /** A conversion to a w-bit signed type: the two's complement reading of the w low bits. */
  function Signed(x: int, w: nat): int
    requires 0 < w
  {
    var t := Trunc(x, w);
    if t < Pow2(w - 1) then t else t - Pow2(w)
  }

  // ---- Powers of two ----

  lemma {:induction false} Pow2Add(i: nat, j: nat)
    ensures Pow2(i + j) == Pow2(i) * Pow2(j)
  {
    if i > 0 {
      Pow2Add(i - 1, j);
      assert Pow2(i + j) == 2 * Pow2(i + j - 1);
    }
  }

  lemma {:induction false} Pow2Monotone(i: nat, j: nat)
    requires i <= j
    ensures Pow2(i) <= Pow2(j)
  {
    if i < j {
      Pow2Monotone(i, j - 1);
    }
  }

  lemma {:induction false} Pow2Values()
    ensures Pow2(0) == 1 && Pow2(4) == 16 && Pow2(7) == 0x80 && Pow2(8) == 0x100
    ensures Pow2(15) == 0x8000 && Pow2(16) == 0x1_0000
    ensures Pow2(23) == 0x80_0000 && Pow2(24) == 0x100_0000
    ensures Pow2(31) == 0x8000_0000 && Pow2(32) == 0x1_0000_0000
    ensures Pow2(40) == 0x100_0000_0000 && Pow2(48) == 0x1_0000_0000_0000 && Pow2(56) == 0x100_0000_0000_0000
    ensures Pow2(63) == 0x8000_0000_0000_0000 && Pow2(64) == 0x1_0000_0000_0000_0000
  {
    assert Pow2(4) == 16 && Pow2(7) == 0x80;
    Pow2Add(1, 7);
    Pow2Add(8, 7);
    Pow2Add(8, 8);
    Pow2Add(16, 7);
    Pow2Add(16, 8);
    Pow2Add(16, 15);
    Pow2Add(16, 16);
    Pow2Add(32, 8);
    Pow2Add(32, 16);
    Pow2Add(32, 24);
    Pow2Add(32, 31);
    Pow2Add(32, 32);
  }

  // The widths of the C types, by name.
  const UCHAR: nat := 8
  const UINT16: nat := 16
  const UINT32: nat := 32
  const UINT64: nat := 64

  lemma {:induction false} Widths()
    ensures Pow2(8) == 0x100 && Pow2(16) == 0x1_0000 && Pow2(24) == 0x100_0000 && Pow2(32) == 0x1_0000_0000
    ensures Pow2(40) == 0x100_0000_0000
    ensures Pow2(UCHAR) == 0x100 && Pow2(UINT16) == 0x1_0000
    ensures Pow2(UINT32) == 0x1_0000_0000 && Pow2(UINT64) == 0x1_0000_0000_0000_0000
  {
    Pow2Values();
  }

  // ---- Truncation and shifting ----

  lemma {:induction false} TruncSmall(x: nat, w: nat)
    requires x < Pow2(w)
    ensures Trunc(x, w) == x
    decreases w
  {
    if w > 0 {
      TruncSmall(x / 2, w - 1);
    }
  }

  lemma {:induction false} TruncTwice(x: int, v: nat, w: nat)
    requires v <= w
    ensures Trunc(Trunc(x, w), v) == Trunc(x, v)
    decreases v
  {
    if v > 0 {
      TruncTwice(x / 2, v - 1, w - 1);
    }
  }

  /** One carry out of the word. */
  lemma {:induction false} TruncWraps(x: nat, w: nat)
    requires Pow2(w) <= x < 2 * Pow2(w)
    ensures Trunc(x, w) == x - Pow2(w)
    decreases w
  {
    if w > 0 {
      TruncWraps(x / 2, w - 1);
    }
  }

  lemma {:induction false} TruncTwo(x: int, w: nat)
    ensures Trunc(x, w + 2) == x % 4 + 4 * Trunc(x / 4, w)
    ensures Shr(x, w + 2) == Shr(x / 4, w)
  {
    var y := x / 2;
    assert y / 2 == x / 4 && x % 4 == x % 2 + 2 * (y % 2);
    assert Trunc(x, w + 2) == x % 2 + 2 * Trunc(y, w + 1);
    assert Trunc(y, w + 1) == y % 2 + 2 * Trunc(y / 2, w);
  }

  lemma {:induction false} TruncFour(x: int, w: nat)
    ensures Trunc(x, w + 4) == x % 16 + 16 * Trunc(x / 16, w)
    ensures Shr(x, w + 4) == Shr(x / 16, w)
  {
    var y := x / 4;
    assert y / 4 == x / 16 && x % 16 == x % 4 + 4 * (y % 4);
    TruncTwo(x, w + 2);
    TruncTwo(y, w);
  }

  lemma {:induction false} TruncByte(x: int, w: nat)
    ensures Trunc(x, w + 8) == x % 256 + 256 * Trunc(x / 256, w)
    ensures Shr(x, w + 8) == Shr(x / 256, w)
  {
    var y := x / 16;
    assert y / 16 == x / 256 && x % 256 == x % 16 + 16 * (y % 16);
    TruncFour(x, w + 4);
    TruncFour(y, w);
  }

  lemma {:induction false} Trunc8(x: int)
    ensures Trunc(x, 8) == x % 256
  {
    TruncByte(x, 0);
  }

  lemma {:induction false} DoubleDivisor(x: int, q: int, p: nat, r: nat)
    requires x / 2 == q * p + r
    ensures x == q * (2 * p) + (x % 2 + 2 * r)
  {
    var z := q * p;
    assert q * (2 * p) == 2 * z;
  }

  lemma {:induction false} QuotientRemainder(x: int, w: nat)
    ensures x == Shr(x, w) * Pow2(w) + Trunc(x, w)
    decreases w
  {
    if w > 0 {
      QuotientRemainder(x / 2, w - 1);
      DoubleDivisor(x, Shr(x / 2, w - 1), Pow2(w - 1), Trunc(x / 2, w - 1));
    }
  }

  lemma {:induction false} TruncIsMod(x: int, w: nat)
    ensures Trunc(x, w) == x % Pow2(w)
  {
    QuotientRemainder(x, w);
    DivModUnique(x, Pow2(w), Shr(x, w), Trunc(x, w));
  }

  lemma {:induction false} ShrIsDiv(x: int, w: nat)
    ensures Shr(x, w) == x / Pow2(w)
  {
    QuotientRemainder(x, w);
    DivModUnique(x, Pow2(w), Shr(x, w), Trunc(x, w));
  }

  // ---- Bitwise operators ----

  /** Whether bit k of x is set. */
  predicate BitSet(x: nat, k: nat) {
    Shr(x, k) % 2 == 1
  }

  lemma {:induction false} LowBit(b: bool, q: nat)
    ensures (Bit(b) + 2 * q) / 2 == q && ((Bit(b) + 2 * q) % 2 == 1 <==> b)
  {
  }

  lemma {:induction false} AndHalf(x: nat, y: nat)
    ensures And(x, y) / 2 == And(x / 2, y / 2)
    ensures And(x, y) % 2 == 1 <==> x % 2 == 1 && y % 2 == 1
  {
    LowBit(x % 2 == 1 && y % 2 == 1, And(x / 2, y / 2));
  }

  lemma {:induction false} OrHalf(x: nat, y: nat)
    ensures Or(x, y) / 2 == Or(x / 2, y / 2)
    ensures Or(x, y) % 2 == 1 <==> x % 2 == 1 || y % 2 == 1
  {
    LowBit(x % 2 == 1 || y % 2 == 1, Or(x / 2, y / 2));
  }

  /** A bit of `x & y` is set when it is in both. */
  lemma {:induction false} BitOfAnd(x: nat, y: nat, k: nat)
    ensures BitSet(And(x, y), k) <==> BitSet(x, k) && BitSet(y, k)
    decreases k
  {
    AndHalf(x, y);
    if k > 0 {
      BitOfAnd(x / 2, y / 2, k - 1);
    }
  }

  /** A bit of `x | y` is set when it is in either. */
  lemma {:induction false} BitOfOr(x: nat, y: nat, k: nat)
    ensures BitSet(Or(x, y), k) <==> BitSet(x, k) || BitSet(y, k)
    decreases k
  {
    OrHalf(x, y);
    if k > 0 {
      BitOfOr(x / 2, y / 2, k - 1);
    }
  }

  /** A bit of `~x` is set when it is not in x. */
  lemma {:induction false} BitOfNot(x: nat, w: nat, k: nat)
    requires x < Pow2(w) && k < w
    ensures BitSet(Not(x, w), k) <==> !BitSet(x, k)
    decreases k
  {
    if k > 0 {
      assert Not(x, w) / 2 == Not(x / 2, w - 1);
      BitOfNot(x / 2, w - 1, k - 1);
    }
  }

  lemma {:induction false} ShlIsProduct(x: nat, k: nat, w: nat)
    ensures x * Pow2(k) >= 0
    ensures Shl(x, k, w) == x * Pow2(k) % Pow2(w)
  {
    TruncIsMod(x * Pow2(k), w);
  }

  lemma {:induction false} OrSymmetric(x: nat, y: nat)
    ensures Or(x, y) == Or(y, x)
  {
    if x != 0 && y != 0 {
      OrSymmetric(x / 2, y / 2);
    }
  }

  /** `|` of two values that occupy different bits is their sum. */
  lemma {:induction false} OrDisjoint(x: nat, y: nat, k: nat)
    requires x < Pow2(k)
    ensures y * Pow2(k) >= 0
    ensures Or(x, y * Pow2(k)) == x + y * Pow2(k)
  {
    if x != 0 && y != 0 {
      var z := y * Pow2(k - 1);
      assert y * Pow2(k) == 2 * z;
      OrDisjoint(x / 2, y, k - 1);
    }
  }

  lemma {:induction false} ShlFits(y: nat, k: nat, w: nat, c: nat)
    requires c == Pow2(k)
    ensures y * c >= 0
    ensures y * c < Pow2(w) ==> Shl(y, k, w) == y * c
  {
    assert y * c >= 0;
    if y * c < Pow2(w) {
      TruncSmall(y * c, w);
    }
  }

  /** Placing y above the k bits of x. */
  lemma {:induction false} OrShl(x: nat, y: nat, k: nat, w: nat)
    requires x < Pow2(k)
    requires y * Pow2(k) < Pow2(w)
    ensures Or(x, Shl(y, k, w)) == x + y * Pow2(k) == Or(Shl(y, k, w), x)
  {
    assert y * Pow2(k) >= 0;
    TruncSmall(y * Pow2(k), w);
    OrDisjoint(x, y, k);
    OrSymmetric(x, y * Pow2(k));
  }

  lemma {:induction false} AndByBit(x: nat, y: nat, b: nat)
    requires b < 2
    ensures And(x, 2 * y + b) == Bit(x % 2 == 1 && b == 1) + 2 * And(x / 2, y)
  {
  }

  /** `x & 2^k` tests the top bit of a k+1-bit value. */
  lemma {:induction false} AndTestsTopBit(x: nat, k: nat)
    requires x < Pow2(k + 1)
    ensures And(x, Pow2(k)) == if x < Pow2(k) then 0 else Pow2(k)
    decreases k
  {
    if k > 0 {
      AndTestsTopBit(x / 2, k - 1);
      AndByBit(x, Pow2(k - 1), 0);
    } else {
      AndByBit(x, 0, 1);
    }
  }

  /** The conversion keeps exactly the values in the signed range. */
  lemma {:induction false} SignedKeepsIff(v: int, w: nat)
    requires 0 < w
    ensures Signed(v, w) == v <==> -(Pow2(w - 1) as int) <= v < Pow2(w - 1)
  {
    var p := Pow2(w);
    TruncIsMod(v, w);
    if 0 <= v < p {
      TruncSmall(v, w);
    } else if -p <= v < 0 {
      DivModUnique(v, p, -1, v + p);
    }
  }

  lemma {:induction false} OrBelow(y: nat, k: nat, x: nat)
    requires x < Pow2(k)
    ensures y * Pow2(k) >= 0
    ensures Or(y * Pow2(k), x) == y * Pow2(k) + x
  {
    OrDisjoint(x, y, k);
    OrSymmetric(x, y * Pow2(k));
  }

  /** `x & (2^k - 1)` keeps exactly the low k bits. */
  lemma {:induction false} AndKeepsLowBits(x: nat, k: nat)
    ensures And(x, Pow2(k) - 1) == Trunc(x, k)
    decreases k
  {
    if k > 0 {
      AndKeepsLowBits(x / 2, k - 1);
      AndByBit(x, Pow2(k - 1) - 1, 1);
    }
  }

  lemma {:induction false} MaskHalf(k: nat, w: nat)
    requires 0 < k <= w
    ensures Pow2(k - 1) <= Pow2(w - 1) && Pow2(k) <= Pow2(w)
    ensures Not(Pow2(k) - 1, w) == 2 * Not(Pow2(k - 1) - 1, w - 1)
  {
    Pow2Monotone(k - 1, w - 1);
  }

  /** `x & y` sees no bit of x above those of y. */
  lemma {:induction false} AndSeesLowBits(x: nat, y: nat, v: nat)
    requires y < Pow2(v)
    ensures And(x, y) == And(Trunc(x, v), y)
    decreases v
  {
    if v > 0 {
      var b := x / 2;
      AndSeesLowBits(b, y / 2, v - 1);
      assert Trunc(x, v) / 2 == Trunc(b, v - 1) && Trunc(x, v) % 2 == x % 2;
    }
  }

  /** `x & ~(2^k - 1)` clears exactly the low k bits. */
  lemma {:induction false} AndClearsLowBits(x: nat, k: nat, w: nat)
    requires k <= w
    requires x < Pow2(w)
    ensures Pow2(k) - 1 < Pow2(w)
    ensures And(x, Not(Pow2(k) - 1, w)) == x - Trunc(x, k)
    decreases k
  {
    if k == 0 {
      AndKeepsLowBits(x, w);
      TruncSmall(x, w);
    } else {
      var h := x / 2;
      MaskHalf(k, w);
      AndClearsLowBits(h, k - 1, w - 1);
      AndByBit(x, Not(Pow2(k - 1) - 1, w - 1), 0);
    }
  }

  // ---- Quotients by a variable divisor ----

  lemma {:induction false} AtLeastOnce(e: nat, d: nat)
    requires e > 0
    ensures e * d >= d
  {
    if e > 1 {
      AtLeastOnce(e - 1, d);
      assert e * d == (e - 1) * d + d;
    }
  }

  lemma {:induction false} MultipleSize(e: int, d: int)
    requires d >= 0
    ensures e > 0 ==> e * d >= d
    ensures e < 0 ==> e * d <= -d
  {
    if e > 0 {
      AtLeastOnce(e, d);
    } else if e < 0 {
      AtLeastOnce(-e, d);
      assert e * d == -((-e) * d);
    }
  }

  lemma {:induction false} DivModUnique(x: int, d: int, q: int, r: int)
    requires 0 <= r < d
    requires x == q * d + r
    ensures x / d == q && x % d == r
  {
    var q', r' := x / d, x % d;
    assert x == q' * d + r';
    assert (q' - q) * d == r - r';
    MultipleSize(q' - q, d);
  }
}
