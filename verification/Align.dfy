// The rounding macros of my_global.h, on unsigned operands.
module Align {
  import opened Bits

  /** `((A) + (L) - 1) & ~((L) - 1)` */
  function MyAlign(a: nat, l: nat, w: nat): nat {
    And(Trunc(a + l - 1, w), Not(Trunc(l - 1, w), w))
  }

  /** `(A) & ~((L) - 1)` */
  function MyAlignDown(a: nat, l: nat, w: nat): nat {
    And(a, Not(Trunc(l - 1, w), w))
  }

  predicate MultipleOf(n: int, l: nat)
    requires l > 0
  {
    n % l == 0
  }

  ghost predicate IsPowerOfTwo(l: nat) {
    exists k: nat :: l == Pow2(k)
  }

  /** m is the greatest multiple of l that is at most a. */
  ghost predicate RoundsDown(m: nat, a: nat, l: nat)
    requires l > 0
  {
    && MultipleOf(m, l) && m <= a
    && forall n: nat :: MultipleOf(n, l) && n <= a ==> n <= m
  }

  /** m is the least multiple of l that is at least a. */
  ghost predicate RoundsUp(m: nat, a: nat, l: nat)
    requires l > 0
  {
    && MultipleOf(m, l) && a <= m
    && forall n: nat :: MultipleOf(n, l) && a <= n ==> m <= n
  }

  lemma {:induction false} MultiplesApart(m: int, n: int, l: nat)
    requires l > 0
    requires MultipleOf(m, l) && MultipleOf(n, l)
    requires m < n
    ensures m + l <= n
  {
    var q := n / l - m / l;
    assert m == (m / l) * l && n == (n / l) * l;
    assert q * l == n - m;
    MultipleSize(q, l);
    if q == 0 {
      assert false;
    }
  }

  lemma {:induction false} IntervalRoundsDown(m: nat, a: nat, l: nat)
    requires l > 0
    requires MultipleOf(m, l) && m <= a < m + l
    ensures RoundsDown(m, a, l)
  {
    forall n: nat | MultipleOf(n, l) && n <= a
      ensures n <= m
    {
      if m < n {
        MultiplesApart(m, n, l);
      }
    }
  }

  lemma {:induction false} IntervalRoundsUp(m: nat, a: nat, l: nat)
    requires l > 0
    requires MultipleOf(m, l) && a <= m < a + l
    ensures RoundsUp(m, a, l)
  {
    forall n: nat | MultipleOf(n, l) && a <= n
      ensures m <= n
    {
      if n < m {
        MultiplesApart(n, m, l);
      }
    }
  }

  lemma {:induction false} TruncLeavesMultiple(a: nat, k: nat)
    ensures a - Trunc(a, k) >= 0 && MultipleOf(a - Trunc(a, k), Pow2(k))
  {
    var q, l := Shr(a, k), Pow2(k);
    QuotientRemainder(a, k);
    assert q * l >= 0;
    DivModUnique(q * l, l, q, 0);
  }

  lemma {:induction false} FloorForm(a: nat, k: nat, w: nat)
    requires k < w && a < Pow2(w)
    ensures MyAlignDown(a, Pow2(k), w) == a - Trunc(a, k)
    ensures a - Trunc(a, k) >= 0 && MultipleOf(a - Trunc(a, k), Pow2(k))
  {
    Pow2Monotone(k, w);
    AndClearsLowBits(a, k, w);
    TruncSmall(Pow2(k) - 1, w);
    TruncLeavesMultiple(a, k);
  }

  /** For a power of two the mask rounds every operand down. */
  lemma {:induction false} AlignDownRounds(a: nat, k: nat, w: nat)
    requires k < w && a < Pow2(w)
    ensures RoundsDown(MyAlignDown(a, Pow2(k), w), a, Pow2(k))
  {
    FloorForm(a, k, w);
    IntervalRoundsDown(a - Trunc(a, k), a, Pow2(k));
  }

  lemma {:induction false} AlignForm(a: nat, k: nat, w: nat)
    requires k < w && a + Pow2(k) - 1 < Pow2(w)
    ensures MultipleOf(MyAlign(a, Pow2(k), w), Pow2(k))
    ensures a <= MyAlign(a, Pow2(k), w) < a + Pow2(k)
  {
    var s := a + Pow2(k) - 1;
    var d := MyAlignDown(s, Pow2(k), w);
    assert MyAlign(a, Pow2(k), w) == d by {
      TruncSmall(s, w);
    }
    assert MultipleOf(d, Pow2(k)) && a <= d < a + Pow2(k) by {
      FloorForm(s, k, w);
    }
  }

  lemma {:induction false} AlignFits(a: nat, k: nat, w: nat)
    requires k < w && a + Pow2(k) - 1 < Pow2(w)
    ensures RoundsUp(MyAlign(a, Pow2(k), w), a, Pow2(k))
    ensures MyAlign(a, Pow2(k), w) < a + Pow2(k)
  {
    AlignForm(a, k, w);
    IntervalRoundsUp(MyAlign(a, Pow2(k), w), a, Pow2(k));
  }

  lemma {:induction false} AlignOverflows(a: nat, k: nat, w: nat)
    requires k < w && a < Pow2(w) <= a + Pow2(k) - 1
    ensures MyAlign(a, Pow2(k), w) == 0 < a
  {
    var s := a + Pow2(k) - 1 - Pow2(w);
    Pow2Monotone(k, w);
    TruncWraps(a + Pow2(k) - 1, w);
    FloorForm(s, k, w);
    TruncSmall(s, k);
  }

  /** For a power of two the mask rounds up exactly the operands for which the sum A + L - 1 fits in the word;
      for every other operand the result is 0. */
  lemma {:induction false} AlignRoundsUpIff(a: nat, k: nat, w: nat)
    requires k < w && a < Pow2(w)
    ensures RoundsUp(MyAlign(a, Pow2(k), w), a, Pow2(k)) <==> a + Pow2(k) - 1 < Pow2(w)
    ensures a + Pow2(k) - 1 >= Pow2(w) ==> MyAlign(a, Pow2(k), w) == 0
  {
    if a + Pow2(k) - 1 < Pow2(w) {
      AlignFits(a, k, w);
    } else {
      AlignOverflows(a, k, w);
    }
  }

  /** The width of `int`, to which C promotes every narrower operand. */
  const INT: nat := UINT32

  function Wider(v: nat, w: nat): (r: nat)
    ensures v <= r && w <= r && (r == v || r == w)
  {
    if v < w then w else v
  }

  /** `MY_ALIGN` for an A of an unsigned type of w bits and an L of one of v bits. An L narrower than int is promoted
      first, so that `~(L - 1)` is negative and widens with ones; any other keeps its own width in `~(L - 1)` and
      widens with zeros. */
  function MyAlignMixed(a: nat, l: nat, v: nat, w: nat): nat {
    var width := Wider(Wider(v, w), INT);
    if v < INT then
      And(Trunc(a + l - 1, width), Not(Trunc(l - 1, width), width))
    else
      And(Trunc(a + l - 1, width), Not(Trunc(l - 1, v), v))
  }

  /** The width on which the macro rounds: that of L, unless L is narrower than int. */
  function RoundingWidth(v: nat, w: nat): nat {
    if v < 32 then Wider(w, 32) else v
  }

  /** A mask that widens with zeros takes away the high bits of the sum as well. */
  lemma {:induction false} MixedIsUniform(a: nat, l: nat, v: nat, w: nat)
    requires l > 0
    ensures MyAlignMixed(a, l, v, w) == MyAlign(a, l, RoundingWidth(v, w))
  {
    var s, width := a + l - 1, Wider(Wider(v, w), INT);
    if v >= INT {
      AndSeesLowBits(Trunc(s, width), Not(Trunc(l - 1, v), v), v);
      TruncTwice(s, v, width);
    }
  }

  /** On m bits an operand that does not fit is not rounded up either. */
  lemma {:induction false} AnyRoundsUpIff(a: nat, k: nat, m: nat)
    requires k < m
    ensures RoundsUp(MyAlign(a, Pow2(k), m), a, Pow2(k)) <==> a + Pow2(k) - 1 < Pow2(m)
  {
    if a < Pow2(m) {
      AlignRoundsUpIff(a, k, m);
    } else {
      FloorForm(Trunc(a + Pow2(k) - 1, m), k, m);
    }
  }

  /** For operands of any two unsigned types the macro rounds up exactly where A + L - 1 fits in the type of L or,
      when that is narrower than int, in that of A. */
  lemma {:induction false} AlignMixedRoundsUpIff(a: nat, k: nat, v: nat, w: nat)
    requires k < v && a < Pow2(w)
    ensures RoundsUp(MyAlignMixed(a, Pow2(k), v, w), a, Pow2(k)) <==> a + Pow2(k) - 1 < Pow2(RoundingWidth(v, w))
  {
    MixedIsUniform(a, Pow2(k), v, w);
    AnyRoundsUpIff(a, k, RoundingWidth(v, w));
  }

  lemma {:induction false} MultipleOfNext(d: int, l: nat)
    requires l > 0 && MultipleOf(d, l)
    ensures MultipleOf(d + l, l)
  {
    assert d + l == (d / l + 1) * l + 0;
    DivModUnique(d + l, l, d / l + 1, 0);
  }

  lemma {:induction false} WordIsMultiple(k: nat, w: nat)
    requires k <= w
    ensures MultipleOf(Pow2(w), Pow2(k))
  {
    Pow2Add(w - k, k);
    DivModUnique(Pow2(w), Pow2(k), Pow2(w - k), 0);
  }

  lemma {:induction false} FixedPoints(u: nat, d: nat, k: nat, w: nat)
    requires k < w && d < Pow2(w) && u < Pow2(w)
    requires MultipleOf(u, Pow2(k)) && MultipleOf(d, Pow2(k))
    ensures MyAlign(u, Pow2(k), w) == u
    ensures MyAlignDown(d, Pow2(k), w) == d
  {
    WordIsMultiple(k, w);
    MultiplesApart(u, Pow2(w), Pow2(k));
    AlignFits(u, k, w);
    AlignDownRounds(d, k, w);
  }

  /** The two macros agree on multiples of L and are one L apart on every other operand. */
  lemma {:induction false} AlignsDiffer(a: nat, k: nat, w: nat)
    requires k < w && a + Pow2(k) - 1 < Pow2(w)
    ensures MyAlign(a, Pow2(k), w) - MyAlignDown(a, Pow2(k), w) == if MultipleOf(a, Pow2(k)) then 0 else Pow2(k)
  {
    var l := Pow2(k);
    var u, d := MyAlign(a, l, w), MyAlignDown(a, l, w);
    AlignFits(a, k, w);
    AlignDownRounds(a, k, w);
    MultipleOfNext(d, l);
    if d < u {
      MultiplesApart(d, u, l);
    }
  }

  /** Both macros are projections: an aligned value is left alone. */
  lemma {:induction false} AlignsIdempotent(a: nat, k: nat, w: nat)
    requires k < w && a + Pow2(k) - 1 < Pow2(w)
    ensures MyAlign(MyAlign(a, Pow2(k), w), Pow2(k), w) == MyAlign(a, Pow2(k), w)
    ensures MyAlignDown(MyAlignDown(a, Pow2(k), w), Pow2(k), w) == MyAlignDown(a, Pow2(k), w)
  {
    AlignFits(a, k, w);
    AlignDownRounds(a, k, w);
    FixedPoints(MyAlign(a, Pow2(k), w), MyAlignDown(a, Pow2(k), w), k, w);
  }

  lemma {:induction false} AlignsMonotone(a: nat, b: nat, k: nat, w: nat)
    requires k < w && a <= b && b + Pow2(k) - 1 < Pow2(w)
    ensures MyAlign(a, Pow2(k), w) <= MyAlign(b, Pow2(k), w)
    ensures MyAlignDown(a, Pow2(k), w) <= MyAlignDown(b, Pow2(k), w)
  {
    AlignFits(a, k, w);
    AlignFits(b, k, w);
    AlignDownRounds(a, k, w);
    AlignDownRounds(b, k, w);
  }

  lemma {:induction false} AndWithComplement(x: nat, w: nat)
    requires x < Pow2(w)
    ensures And(x, Not(x, w)) == 0
  {
    if w > 0 {
      AndWithComplement(x / 2, w - 1);
      assert Not(x, w) / 2 == Not(x / 2, w - 1);
    }
  }

  /** `L & ~(L - 1)` is L itself only when L is a power of two. */
  lemma {:induction false} LowestBit(l: nat, w: nat)
    requires 0 < l < Pow2(w)
    requires And(l, Not(l - 1, w)) == l
    ensures IsPowerOfTwo(l)
  {
    var h := l / 2;
    if l % 2 == 1 {
      assert Not(l - 1, w) / 2 == Not(h, w - 1);
      AndWithComplement(h, w - 1);
      assert l == Pow2(0);
    } else {
      assert Not(l - 1, w) / 2 == Not(h - 1, w - 1);
      LowestBit(h, w - 1);
      var k: nat :| h == Pow2(k);
      assert l == Pow2(k + 1);
    }
  }

  /** Rounding down is right for every operand exactly when L is a power of two. */
  lemma {:induction false} AlignDownNeedsPowerOfTwo(l: nat, w: nat)
    requires 0 < l < Pow2(w)
    ensures (forall a: nat :: a < Pow2(w) ==> RoundsDown(MyAlignDown(a, l, w), a, l)) <==> IsPowerOfTwo(l)
  {
    if IsPowerOfTwo(l) {
      var k: nat :| l == Pow2(k);
      if w <= k {
        Pow2Monotone(w, k);
      }
      forall a: nat | a < Pow2(w)
        ensures RoundsDown(MyAlignDown(a, l, w), a, l)
      {
        AlignDownRounds(a, k, w);
      }
    } else if RoundsDown(MyAlignDown(l, l, w), l, l) {
      DivModUnique(l, l, 1, 0);
      assert MultipleOf(l, l);
      TruncSmall(l - 1, w);
      LowestBit(l, w);
      assert false;
    }
  }

  /** What MY_ALIGN makes of 1 is L itself only when L is a power of two. */
  lemma {:induction false} AlignOfOne(l: nat, w: nat)
    requires 0 < l < Pow2(w) && RoundsUp(MyAlign(1, l, w), 1, l)
    ensures IsPowerOfTwo(l)
  {
    var m := MyAlign(1, l, w);
    DivModUnique(l, l, 1, 0);
    DivModUnique(0, l, 0, 0);
    assert MultipleOf(l, l) && MultipleOf(0, l);
    MultiplesApart(0, m, l);
    TruncSmall(l, w);
    TruncSmall(l - 1, w);
    LowestBit(l, w);
  }

  /** Rounding up is right wherever the sum fits exactly when L is a power of two. */
  lemma {:induction false} AlignNeedsPowerOfTwo(l: nat, w: nat)
    requires 0 < l < Pow2(w)
    ensures (forall a: nat :: a + l - 1 < Pow2(w) ==> RoundsUp(MyAlign(a, l, w), a, l)) <==> IsPowerOfTwo(l)
  {
    if IsPowerOfTwo(l) {
      var k: nat :| l == Pow2(k);
      if w <= k {
        Pow2Monotone(w, k);
      }
      forall a: nat | a + l - 1 < Pow2(w)
        ensures RoundsUp(MyAlign(a, l, w), a, l)
      {
        AlignFits(a, k, w);
      }
    } else if RoundsUp(MyAlign(1, l, w), 1, l) {
      AlignOfOne(l, w);
      assert false;
    }
  }
}
