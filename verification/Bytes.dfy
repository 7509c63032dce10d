// Memory as a sequence of bytes, with the two positional readings of a run of bytes.
module Bytes {
  import opened Bits

  type byte = x: nat | x < 256

  /** `(uchar) x` */
  function Uchar(x: int): byte {
    Trunc8(x);
    Trunc(x, 8)
  }

  /** The n bytes at p, least significant byte first. */
  function Le(m: seq<byte>, p: nat, n: nat): (r: nat)
    requires p + n <= |m|
    decreases n
  {
    if n == 0 then 0 else m[p] + 256 * Le(m, p + 1, n - 1)
  }

  /** The n bytes at p, most significant byte first. */
  function Be(m: seq<byte>, p: nat, n: nat): (r: nat)
    requires p + n <= |m|
    decreases n
  {
    if n == 0 then 0 else 256 * Be(m, p, n - 1) + m[p + n - 1]
  }

  /** The n low bytes of v, least significant first; v may be negative. */
  function LeBytes(v: int, n: nat): (bs: seq<byte>)
    ensures |bs| == n
    decreases n
  {
    if n == 0 then [] else [v % 256] + LeBytes(v / 256, n - 1)
  }

  function Min(x: int, y: int): int {
    if x <= y then x else y
  }

  /** m after bs is written at p. */
  function Splice<T>(m: seq<T>, p: nat, bs: seq<T>): (r: seq<T>)
    requires p + |bs| <= |m|
    ensures |r| == |m|
  {
    m[..p] + bs + m[p + |bs|..]
  }

  lemma {:induction false} LeBound(m: seq<byte>, p: nat, n: nat)
    requires p + n <= |m|
    ensures Le(m, p, n) < Pow2(8 * n)
    decreases n
  {
    if n > 0 {
      LeBound(m, p + 1, n - 1);
      Pow2Byte(8 * (n - 1));
    }
  }

  lemma {:induction false} Pow2Byte(k: nat)
    ensures Pow2(k + 8) == 256 * Pow2(k)
  {
    Pow2Add(8, k);
    Pow2Values();
  }

  /** The little-endian readings of the field widths in use. */
  lemma {:induction false} LeUnfold(m: seq<byte>, p: nat)
    ensures p + 2 <= |m| ==> Le(m, p, 2) == 0x100 * m[p + 1] + Le(m, p, 1)
    ensures p + 1 <= |m| ==> Le(m, p, 1) == m[p]
    ensures p + 3 <= |m| ==> Le(m, p, 3) == 0x1_0000 * m[p + 2] + Le(m, p, 2)
    ensures p + 4 <= |m| ==> Le(m, p, 4) == 0x100_0000 * m[p + 3] + Le(m, p, 3)
    ensures p + 5 <= |m| ==> Le(m, p, 5) == 0x1_0000_0000 * m[p + 4] + Le(m, p, 4)
    ensures p + 6 <= |m| ==> Le(m, p, 6) == 0x100_0000_0000 * m[p + 5] + Le(m, p, 5)
    ensures p + 8 <= |m| ==> Le(m, p, 8) == 0x1_0000_0000 * Le(m, p + 4, 4) + Le(m, p, 4)
  {
  }

  lemma {:induction false} BeUnfold(m: seq<byte>, p: nat)
    ensures p + 2 <= |m| ==> Be(m, p, 2) == 0x100 * m[p] + Be(m, p + 1, 1)
    ensures p + 2 <= |m| ==> Be(m, p + 1, 1) == m[p + 1]
    ensures p + 3 <= |m| ==> Be(m, p, 3) == 0x1_0000 * m[p] + Be(m, p + 1, 2)
    ensures p + 4 <= |m| ==> Be(m, p, 4) == 0x100_0000 * m[p] + Be(m, p + 1, 3)
    ensures p + 5 <= |m| ==> Be(m, p, 5) == 0x1_0000_0000 * m[p] + Be(m, p + 1, 4)
    ensures p + 6 <= |m| ==> Be(m, p, 6) == 0x1_0000_0000 * Be(m, p, 2) + Be(m, p + 2, 4)
    ensures p + 7 <= |m| ==> Be(m, p, 7) == 0x1_0000_0000 * Be(m, p, 3) + Be(m, p + 3, 4)
    ensures p + 8 <= |m| ==> Be(m, p, 8) == 0x1_0000_0000 * Be(m, p, 4) + Be(m, p + 4, 4)
  {
  }

  /** A reading depends on the bytes read only. */
  lemma {:induction false} LeSameBytes(m: seq<byte>, p: nat, m': seq<byte>, p': nat, n: nat)
    requires p + n <= |m| && p' + n <= |m'|
    requires m[p..p + n] == m'[p'..p' + n]
    ensures Le(m, p, n) == Le(m', p', n)
    decreases n
  {
    if n > 0 {
      assert m[p] == m[p..p + n][0] == m'[p'];
      assert m[p + 1..p + n] == m[p..p + n][1..] == m'[p' + 1..p' + n];
      LeSameBytes(m, p + 1, m', p' + 1, n - 1);
    }
  }

  lemma {:induction false} BeSameBytes(m: seq<byte>, p: nat, m': seq<byte>, p': nat, n: nat)
    requires p + n <= |m| && p' + n <= |m'|
    requires m[p..p + n] == m'[p'..p' + n]
    ensures Be(m, p, n) == Be(m', p', n)
  {
    if n > 0 {
      assert m[p + n - 1] == m[p..p + n][n - 1] == m'[p' + n - 1];
      assert m[p..p + n - 1] == m[p..p + n][..n - 1];
      assert m'[p'..p' + n - 1] == m'[p'..p' + n][..n - 1];
      BeSameBytes(m, p, m', p', n - 1);
    }
  }

  /** Writing the low n bytes and reading them back is reduction modulo 256^n. */
  lemma {:induction false} LeOfLeBytes(v: int, n: nat)
    ensures Le(LeBytes(v, n), 0, n) == Trunc(v, 8 * n) == v % Pow2(8 * n)
    decreases n
  {
    TruncIsMod(v, 8 * n);
    if n > 0 {
      LeOfLeBytes(v / 256, n - 1);
      LeSameBytes(LeBytes(v, n), 1, LeBytes(v / 256, n - 1), 0, n - 1);
      TruncByte(v, 8 * (n - 1));
    }
  }

  /** A signed load gives back exactly the values in the signed range of n bytes. */
  lemma {:induction false} SignedRoundTripIff(v: int, n: nat)
    requires n > 0
    ensures Signed(Le(LeBytes(v, n), 0, n), 8 * n) == v <==> -(Pow2(8 * n - 1) as int) <= v < Pow2(8 * n - 1)
  {
    LeOfLeBytes(v, n);
    TruncSmall(Trunc(v, 8 * n), 8 * n);
    SignedKeepsIff(v, 8 * n);
  }

  lemma {:induction false} LeBytesCons(b: byte, v: int, n: nat)
    ensures LeBytes(b + 256 * v, n + 1) == [b] + LeBytes(v, n)
  {
    assert (b + 256 * v) % 256 == b && (b + 256 * v) / 256 == v;
  }

  /** Reading n bytes and writing them back restores them. */
  lemma {:induction false} LeBytesOfLe(m: seq<byte>, p: nat, n: nat)
    requires p + n <= |m|
    ensures LeBytes(Le(m, p, n), n) == m[p..p + n]
    decreases n
  {
    if n > 0 {
      LeBytesOfLe(m, p + 1, n - 1);
      LeBytesCons(m[p], Le(m, p + 1, n - 1), n - 1);
      assert m[p..p + n] == [m[p]] + m[p + 1..p + n];
    }
  }

  lemma {:induction false} LeBytesSplit(v: int, i: nat, j: nat)
    ensures LeBytes(v, i + j) == LeBytes(v, i) + LeBytes(Shr(v, 8 * i), j)
    decreases i
  {
    if i > 0 {
      LeBytesSplit(v / 256, i - 1, j);
      TruncByte(v, 8 * (i - 1));
    }
  }

  lemma {:induction false} LeBytesAt(v: int, n: nat, i: nat)
    requires i < n
    ensures LeBytes(v, n)[i] == Uchar(Shr(v, 8 * i))
  {
    LeBytesSplit(v, i, n - i);
    Trunc8(Shr(v, 8 * i));
  }

  /** Bits above the bytes written do not matter. */
  lemma {:induction false} LeBytesTrunc(v: int, w: nat, n: nat)
    requires 8 * n <= w
    ensures LeBytes(Trunc(v, w), n) == LeBytes(v, n)
    decreases n
  {
    if n > 0 {
      TruncByte(v, w - 8);
      LeBytesTrunc(v / 256, w - 8, n - 1);
      LeBytesCons(v % 256, Trunc(v / 256, w - 8), n - 1);
    }
  }

  lemma {:induction false} BeLeadingZero(s: seq<byte>, n: nat)
    requires n <= |s|
    ensures Be([0] + s, 0, n + 1) == Be(s, 0, n)
  {
    if n > 0 {
      BeLeadingZero(s, n - 1);
    } else {
      assert Be([0] + s, 0, 0) == 0;
    }
  }

  lemma {:induction false} SpliceReads(m: seq<byte>, p: nat, bs: seq<byte>, q: nat, n: nat)
    requires p + |bs| <= |m| && q + n <= |m|
    ensures q == p && n == |bs| ==> Le(Splice(m, p, bs), q, n) == Le(bs, 0, n)
    ensures q + n <= p || p + |bs| <= q ==> Le(Splice(m, p, bs), q, n) == Le(m, q, n)
  {
    var r := Splice(m, p, bs);
    if q == p && n == |bs| {
      assert r[q..q + n] == bs[0..n];
      LeSameBytes(r, q, bs, 0, n);
    }
    if q + n <= p || p + |bs| <= q {
      assert r[q..q + n] == m[q..q + n];
      LeSameBytes(r, q, m, q, n);
    }
  }

  lemma {:induction false} SpliceTwice(m: seq<byte>, p: nat, x: seq<byte>, y: seq<byte>)
    requires p + |x| + |y| <= |m|
    ensures Splice(Splice(m, p, x), p + |x|, y) == Splice(m, p, x + y)
  {
  }
}
