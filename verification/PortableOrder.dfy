// byte_order_generic.h: the loads and stores that work one byte at a time.
// `p` is the macro's pointer argument, an index into the memory `m`.
module PortableOrder {
  import opened Bits
  import opened Bytes

  // ---- The shift/or expressions the macros are made of ----

  /** `x | (uintW) y << k`, for an x that ends below bit k */
  function Above(x: nat, y: nat, k: nat, w: nat): (r: nat)
    requires x < Pow2(k)
    requires y * Pow2(k) < Pow2(w)
    ensures r == x + y * Pow2(k)
  {
    OrShl(x, y, k, w);
    Or(x, Shl(y, k, w))
  }

  /** `b0 | b1 << 8` */
  function Pack2(b0: byte, b1: byte): (r: nat)
    ensures r == b0 + 0x100 * b1
  {
    Widths();
    Above(b0, b1, 8, UINT32)
  }

  /** `(uint32) b0 | (uint32) b1 << 8 | (uint32) b2 << 16` */
  function Pack3(b0: byte, b1: byte, b2: byte): (r: nat)
    ensures r == b0 + 0x100 * b1 + 0x1_0000 * b2
  {
    Widths();
    Above(Pack2(b0, b1), b2, 16, UINT32)
  }

  /** `(uint32) b0 | (uint32) b1 << 8 | (uint32) b2 << 16 | (uint32) b3 << 24` */
  function Pack4(b0: byte, b1: byte, b2: byte, b3: byte): (r: nat)
    ensures r == b0 + 0x100 * b1 + 0x1_0000 * b2 + 0x100_0000 * b3
  {
    Widths();
    Above(Pack3(b0, b1, b2), b3, 24, UINT32)
  }

  /** `(ulonglong) low | (ulonglong) high << 32` */
  function Pack64(low: nat, high: nat): (r: nat)
    requires low < 0x1_0000_0000 && high < 0x1_0000_0000
    ensures r == 0x1_0000_0000 * high + low
  {
    Widths();
    Above(low, high, 32, UINT64)
  }

  // ---- Unsigned loads ----

  function Uint2korr(m: seq<byte>, p: nat): (r: nat)
    requires p + 2 <= |m|
    ensures r == Le(m, p, 2)
  {
    LeUnfold(m, p);
    LeBound(m, p, 2);
    TruncSmall(Pack2(m[p], m[p + 1]), UINT16);
    Trunc(Pack2(m[p], m[p + 1]), UINT16)
  }

  function Uint3korr(m: seq<byte>, p: nat): (r: nat)
    requires p + 3 <= |m|
    ensures r == Le(m, p, 3)
  {
    LeUnfold(m, p);
    Pack3(m[p], m[p + 1], m[p + 2])
  }

  function Uint4korr(m: seq<byte>, p: nat): (r: nat)
    requires p + 4 <= |m|
    ensures r == Le(m, p, 4)
  {
    LeUnfold(m, p);
    Pack4(m[p], m[p + 1], m[p + 2], m[p + 3])
  }

  function Uint5korr(m: seq<byte>, p: nat): (r: nat)
    requires p + 5 <= |m|
    ensures r == Le(m, p, 5)
  {
    LeUnfold(m, p);
    Pack64(Pack4(m[p], m[p + 1], m[p + 2], m[p + 3]), m[p + 4])
  }

  function Uint6korr(m: seq<byte>, p: nat): (r: nat)
    requires p + 6 <= |m|
    ensures r == Le(m, p, 6)
  {
    LeUnfold(m, p);
    Widths();
    Above(Pack64(Pack4(m[p], m[p + 1], m[p + 2], m[p + 3]), m[p + 4]), m[p + 5], 40, UINT64)
  }

  function Uint8korr(m: seq<byte>, p: nat): (r: nat)
    requires p + 8 <= |m|
    ensures r == Le(m, p, 8)
  {
    LeUnfold(m, p);
    LeUnfold(m, p + 4);
    Pack64(Pack4(m[p], m[p + 1], m[p + 2], m[p + 3]), Pack4(m[p + 4], m[p + 5], m[p + 6], m[p + 7]))
  }

  // ---- Signed loads ----

  function Sint2korr(m: seq<byte>, p: nat): (r: int)
    requires p + 2 <= |m|
    ensures r == Signed(Le(m, p, 2), UINT16)
  {
    assert Pack2(m[p], m[p + 1]) == Le(m, p, 2) by {
      LeUnfold(m, p);
    }
    Signed(Pack2(m[p], m[p + 1]), UINT16)
  }

  /** The sign is bit 7 of the third byte; a fourth byte of ones is put above it by hand. */
  function Sint3korr(m: seq<byte>, p: nat): (r: int)
    requires p + 3 <= |m|
    ensures r == Signed(Le(m, p, 3), 24)
  {
    SignExtension(m, p);
    if And(m[p + 2], 128) != 0 then Signed(Above4(255, m[p + 2], m[p + 1], m[p]), UINT32)
    else Signed(Above3(m[p + 2], m[p + 1], m[p]), UINT32)
  }

  /** `(uint32) b2 << 16 | (uint32) b1 << 8 | (uint32) b0` */
  function Above3(b2: byte, b1: byte, b0: byte): (r: nat)
    ensures r == 0x1_0000 * b2 + 0x100 * b1 + b0
  {
    ShiftedByte(b2);
    ShiftedByte(b1);
    JoinThree(0x1_0000 * b2, 0x100 * b1, b2, b1, b0);
    Or(Or(Shl(b2, 16, UINT32), Shl(b1, 8, UINT32)), b0)
  }

  /** `(uint32) b3 << 24 | (uint32) b2 << 16 | (uint32) b1 << 8 | (uint32) b0` */
  function Above4(b3: byte, b2: byte, b1: byte, b0: byte): (r: nat)
    ensures r == 0x100_0000 * b3 + 0x1_0000 * b2 + 0x100 * b1 + b0
  {
    ShiftedByte(b3);
    ShiftedByte(b2);
    ShiftedByte(b1);
    JoinFour(0x100_0000 * b3, 0x1_0000 * b2, 0x100 * b1, b3, b2, b1, b0);
    Or(Or(Or(Shl(b3, 24, UINT32), Shl(b2, 16, UINT32)), Shl(b1, 8, UINT32)), b0)
  }

  function Sint4korr(m: seq<byte>, p: nat): (r: int)
    requires p + 4 <= |m|
    ensures r == Signed(Le(m, p, 4), UINT32)
  {
    Signed(Uint4korr(m, p), UINT32)
  }

  function Sint8korr(m: seq<byte>, p: nat): (r: int)
    requires p + 8 <= |m|
    ensures r == Signed(Le(m, p, 8), UINT64)
  {
    Signed(Uint8korr(m, p), UINT64)
  }

  lemma {:induction false} SignExtension(m: seq<byte>, p: nat)
    requires p + 3 <= |m|
    ensures Signed(Le(m, p, 3), 24)
         == if And(m[p + 2], 128) != 0 then Signed(Above4(255, m[p + 2], m[p + 1], m[p]), UINT32)
            else Signed(Above3(m[p + 2], m[p + 1], m[p]), UINT32)
  {
    var x := Le(m, p, 3);
    LeUnfold(m, p);
    assert And(m[p + 2], 128) != 0 <==> x >= 0x80_0000 by {
      AndTestsTopBit(m[p + 2], 7);
    }
    SignedAt24(x);
  }

  lemma {:induction false} SignedAt24(x: nat)
    requires x < 0x100_0000
    ensures Signed(x, 24) == if x >= 0x80_0000 then Signed(0xFF00_0000 + x, UINT32) else Signed(x, UINT32)
  {
    Pow2Values();
    var w24, w32 := 24, UINT32;
    TruncSmall(x, w24);
    TruncSmall(x, w32);
    TruncSmall(0xFF00_0000 + x, w32);
  }

  lemma {:induction false} ShiftedByte(b: nat)
    requires b < 256
    ensures Shl(b, 8, UINT32) == 0x100 * b
    ensures Shl(b, 16, UINT32) == 0x1_0000 * b
    ensures Shl(b, 24, UINT32) == 0x100_0000 * b
  {
    Widths();
    ShlFits(b, 8, UINT32, 0x100);
    ShlFits(b, 16, UINT32, 0x1_0000);
    ShlFits(b, 24, UINT32, 0x100_0000);
  }

  /** Bytes put together from the top down. */
  lemma {:induction false} JoinThree(s2: nat, s1: nat, y: nat, b1: nat, b0: nat)
    requires s2 == 0x1_0000 * y && s1 == 0x100 * b1 && b1 < 256 && b0 < 256
    ensures Or(Or(s2, s1), b0) == s2 + s1 + b0
  {
    JoinBelow(y, 16, s1);
    JoinBelow(0x100 * y + b1, 8, b0);
  }

  lemma {:induction false} JoinFour(s3: nat, s2: nat, s1: nat, b3: nat, b2: nat, b1: nat, b0: nat)
    requires s3 == 0x100_0000 * b3 && s2 == 0x1_0000 * b2 && s1 == 0x100 * b1
    requires b2 < 256 && b1 < 256 && b0 < 256
    ensures Or(Or(Or(s3, s2), s1), b0) == s3 + s2 + s1 + b0
  {
    JoinBelow(b3, 24, s2);
    JoinThree(s3 + s2, s1, 0x100 * b3 + b2, b1, b0);
  }

  lemma {:induction false} JoinBelow(y: nat, k: nat, x: nat)
    requires k == 8 || k == 16 || k == 24
    requires x < if k == 8 then 0x100 else if k == 16 then 0x1_0000 else 0x100_0000
    ensures k == 8 ==> Or(0x100 * y, x) == 0x100 * y + x
    ensures k == 16 ==> Or(0x1_0000 * y, x) == 0x1_0000 * y + x
    ensures k == 24 ==> Or(0x100_0000 * y, x) == 0x100_0000 * y + x
  {
    Widths();
    OrBelow(y, k, x);
  }

  // ---- Stores ----

  lemma {:induction false} ByteByByte(before: seq<byte>, after: seq<byte>, t: nat, a: int, n: nat)
    requires t + n <= |before| == |after|
    requires after[..t] == before[..t] && after[t + n..] == before[t + n..]
    requires forall i :: 0 <= i < n ==> after[t + i] == Uchar(Shr(a, 8 * i))
    ensures after == Splice(before, t, LeBytes(a, n))
  {
    forall i | 0 <= i < n
      ensures after[t + i] == LeBytes(a, n)[i]
    {
      LeBytesAt(a, n, i);
    }
    assert after == after[..t] + after[t..t + n] + after[t + n..];
    assert after[t..t + n] == LeBytes(a, n);
  }

  method Int3store(mem: array<byte>, t: nat, a: int)
    requires t + 3 <= mem.Length
    modifies mem
    ensures mem[..] == Splice(old(mem[..]), t, LeBytes(a, 3))
  {
    mem[t] := Uchar(a);
    mem[t + 1] := Uchar(Shr(a, 8));
    mem[t + 2] := Uchar(Shr(a, 16));
    ByteByByte(old(mem[..]), mem[..], t, a, 3);
  }

  method Int4store(mem: array<byte>, t: nat, a: int)
    requires t + 4 <= mem.Length
    modifies mem
    ensures mem[..] == Splice(old(mem[..]), t, LeBytes(a, 4))
  {
    mem[t] := Uchar(a);
    mem[t + 1] := Uchar(Shr(a, 8));
    mem[t + 2] := Uchar(Shr(a, 16));
    mem[t + 3] := Uchar(Shr(a, 24));
    ByteByByte(old(mem[..]), mem[..], t, a, 4);
  }

  method Int5store(mem: array<byte>, t: nat, a: int)
    requires t + 5 <= mem.Length
    modifies mem
    ensures mem[..] == Splice(old(mem[..]), t, LeBytes(a, 5))
  {
    mem[t] := Uchar(a);
    mem[t + 1] := Uchar(Shr(a, 8));
    mem[t + 2] := Uchar(Shr(a, 16));
    mem[t + 3] := Uchar(Shr(a, 24));
    mem[t + 4] := Uchar(Shr(a, 32));
    ByteByByte(old(mem[..]), mem[..], t, a, 5);
  }

  method Int6store(mem: array<byte>, t: nat, a: int)
    requires t + 6 <= mem.Length
    modifies mem
    ensures mem[..] == Splice(old(mem[..]), t, LeBytes(a, 6))
  {
    mem[t] := Uchar(a);
    mem[t + 1] := Uchar(Shr(a, 8));
    mem[t + 2] := Uchar(Shr(a, 16));
    mem[t + 3] := Uchar(Shr(a, 24));
    mem[t + 4] := Uchar(Shr(a, 32));
    mem[t + 5] := Uchar(Shr(a, 40));
    ByteByByte(old(mem[..]), mem[..], t, a, 6);
  }

  method Int2store(mem: array<byte>, t: nat, a: int)
    requires t + 2 <= mem.Length
    modifies mem
    ensures mem[..] == Splice(old(mem[..]), t, LeBytes(a, 2))
  {
    var temp := Trunc(a, UINT32);
    mem[t] := Uchar(temp);
    mem[t + 1] := Uchar(Shr(temp, 8));
    ByteByByte(old(mem[..]), mem[..], t, temp, 2);
    LeBytesTrunc(a, UINT32, 2);
  }

  method Int8store(mem: array<byte>, t: nat, a: int)
    requires t + 8 <= mem.Length
    modifies mem
    ensures mem[..] == Splice(old(mem[..]), t, LeBytes(a, 8))
  {
    var temp, temp2 := Trunc(a, UINT32), Trunc(Shr(a, 32), UINT32);
    Int4store(mem, t, temp);
    Int4store(mem, t + 4, temp2);
    LeBytesTrunc(a, UINT32, 4);
    LeBytesTrunc(Shr(a, 32), UINT32, 4);
    LeBytesSplit(a, 4, 4);
    SpliceTwice(old(mem[..]), t, LeBytes(temp, 4), LeBytes(temp2, 4));
  }
}
