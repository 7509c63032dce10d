// byte_order_generic_x86_64.h: loads and stores put together from the widest
// machine accesses that fit, and big-endian loads by shift and byte swap. The 2, 4 and
// 8 byte loads, the 3 byte loads and int3store read as in byte_order_generic_x86.h.
module X64Order {
  import opened Bits
  import opened Bytes
  import opened LittleEndianMemory
  import Portable = PortableOrder
  import X86 = X86Order

  function Uint5korr(m: seq<byte>, p: nat): (r: nat)
    requires p + 5 <= |m|
    ensures r == Portable.Uint5korr(m, p)
  {
    LeSplit(m, p, 4, 1);
    Or(LoadWide(m, p, 4), Shl(LoadWide(m, p + 4, 1), 32, UINT64))
  }

  function Uint6korr(m: seq<byte>, p: nat): (r: nat)
    requires p + 6 <= |m|
    ensures r == Portable.Uint6korr(m, p)
  {
    LeSplit(m, p, 4, 2);
    Or(LoadWide(m, p, 4), Shl(LoadWide(m, p + 4, 2), 32, UINT64))
  }

  /** The bytes at p + i, placed above the i bytes at p. */
  lemma {:induction false} LeSplit(m: seq<byte>, p: nat, i: nat, j: nat)
    requires p + i + j <= |m| && i + j <= 8
    ensures Or(Le(m, p, i), Shl(Le(m, p + i, j), 8 * i, UINT64)) == Le(m, p, i + j)
  {
    LeBound(m, p, i);
    LeConcat(m, p, i, j);
    LeBound(m, p, i + j);
    Pow2Monotone(8 * (i + j), UINT64);
    OrShl(Le(m, p, i), Le(m, p + i, j), 8 * i, UINT64);
  }

  lemma {:induction false} Times256(x: nat, q: nat)
    ensures x * (256 * q) == 256 * (x * q)
  {
  }

  lemma {:induction false} LeConcat(m: seq<byte>, p: nat, i: nat, j: nat)
    requires p + i + j <= |m|
    ensures Le(m, p, i + j) == Le(m, p, i) + Le(m, p + i, j) * Pow2(8 * i)
    decreases i
  {
    if i > 0 {
      var high, q := Le(m, p + i, j), Pow2(8 * (i - 1));
      LeConcat(m, p + 1, i - 1, j);
      Pow2Byte(8 * (i - 1));
      Times256(high, q);
    }
  }

  // The 2, 4 and 8 byte stores are those of 32-bit x86.

  method Int2store(mem: array<byte>, t: nat, a: int)
    requires t + 2 <= mem.Length
    modifies mem
    ensures mem[..] == Splice(old(mem[..]), t, LeBytes(a, 2))
  {
    X86.Int2store(mem, t, a);
  }

  method Int4store(mem: array<byte>, t: nat, a: int)
    requires t + 4 <= mem.Length
    modifies mem
    ensures mem[..] == Splice(old(mem[..]), t, LeBytes(a, 4))
  {
    X86.Int4store(mem, t, a);
  }

  method Int8store(mem: array<byte>, t: nat, a: int)
    requires t + 8 <= mem.Length
    modifies mem
    ensures mem[..] == Splice(old(mem[..]), t, LeBytes(a, 8))
  {
    X86.Int8store(mem, t, a);
  }

  method Int5store(mem: array<byte>, t: nat, a: int)
    requires t + 5 <= mem.Length
    modifies mem
    ensures mem[..] == Splice(old(mem[..]), t, LeBytes(a, 5))
  {
    StoreWide(mem, t, Trunc(a, UINT32), 4);
    mem[t + 4] := Uchar(Shr(a, 32));
    LeBytesTrunc(a, UINT32, 4);
    LeBytesSplit(a, 4, 1);
    LeBytesAt(Shr(a, 32), 1, 0);
    SpliceTwice(old(mem[..]), t, LeBytes(a, 4), LeBytes(Shr(a, 32), 1));
  }

  method Int6store(mem: array<byte>, t: nat, a: int)
    requires t + 6 <= mem.Length
    modifies mem
    ensures mem[..] == Splice(old(mem[..]), t, LeBytes(a, 6))
  {
    StoreWide(mem, t, Trunc(a, UINT32), 4);
    StoreWide(mem, t + 4, Trunc(Shr(a, 32), UINT16), 2);
    LeBytesTrunc(a, UINT32, 4);
    LeBytesTrunc(Shr(a, 32), UINT16, 2);
    LeBytesSplit(a, 4, 2);
    SpliceTwice(old(mem[..]), t, LeBytes(a, 4), LeBytes(Shr(a, 32), 2));
  }

  // ---- Big-endian loads by byte swap ----

  /** The `bswapq` instruction: the eight bytes of v in the opposite order. */
  function Bswap64(v: nat): nat {
    Be(LeBytes(v, 8), 0, 8)
  }

  function MiUint5korr(m: seq<byte>, p: nat): (r: nat)
    requires p + 5 <= |m|
    ensures r == Be(m, p, 5)
  {
    SwapShifted(m, p, 5);
    Bswap64(Shl(Uint5korr(m, p), 24, UINT64))
  }

  function MiUint6korr(m: seq<byte>, p: nat): (r: nat)
    requires p + 6 <= |m|
    ensures r == Be(m, p, 6)
  {
    SwapShifted(m, p, 6);
    Bswap64(Shl(Uint6korr(m, p), 16, UINT64))
  }

  function MiUint7korr(m: seq<byte>, p: nat): (r: nat)
    requires p + 7 <= |m|
    ensures r == Be(m, p, 7)
  {
    SwapShifted(m, p, 7);
    Bswap64(Shl(Load7(m, p), 8, UINT64))
  }

  /** `a | b << 32 | c << 48` with a, b and c loads of 4, 2 and 1 bytes */
  function Load7(m: seq<byte>, p: nat): (r: nat)
    requires p + 7 <= |m|
    ensures r == Le(m, p, 7)
  {
    LeSplit(m, p, 6, 1);
    Or(Uint6korr(m, p), Shl(LoadWide(m, p + 6, 1), 48, UINT64))
  }

  function MiUint8korr(m: seq<byte>, p: nat): (r: nat)
    requires p + 8 <= |m|
    ensures r == Be(m, p, 8)
  {
    SwapWhole(m, p, 8);
    Bswap64(LoadWide(m, p, 8))
  }

  /** n bytes loaded, moved to the top of the word and swapped are read most significant first. */
  lemma {:induction false} SwapShifted(m: seq<byte>, p: nat, n: nat)
    requires p + n <= |m| && n <= 8
    ensures Bswap64(Shl(Le(m, p, n), 8 * (8 - n), UINT64)) == Be(m, p, n)
  {
    var v, k := Le(m, p, n), 8 - n;
    LeBound(m, p, n);
    ShlRaises(v, n, k);
    SwapZeros(v, n, k);
    SwapWhole(m, p, n);
  }

  lemma {:induction false} ShlRaises(v: nat, n: nat, k: nat)
    requires v < Pow2(8 * n) && n + k == 8
    ensures Shl(v, 8 * k, UINT64) == Raised(v, k)
  {
    RaisedFits(v, n, k);
    RaisedIsProduct(v, k);
    TruncSmall(Raised(v, k), 8 * (n + k));
  }

  lemma {:induction false} SwapWhole(m: seq<byte>, p: nat, n: nat)
    requires p + n <= |m|
    ensures Be(LeBytes(Le(m, p, n), n), 0, n) == Be(m, p, n)
  {
    LeBytesOfLe(m, p, n);
    BeSameBytes(LeBytes(Le(m, p, n), n), 0, m, p, n);
  }

  /** v with k zero bytes below it */
  function Raised(v: nat, k: nat): nat {
    if k == 0 then v else 256 * Raised(v, k - 1)
  }

  lemma {:induction false} RaisedIsProduct(v: nat, k: nat)
    ensures Raised(v, k) == v * Pow2(8 * k)
  {
    if k > 0 {
      var q := Pow2(8 * (k - 1));
      RaisedIsProduct(v, k - 1);
      Pow2Byte(8 * (k - 1));
      Times256(v, q);
    }
  }

  lemma {:induction false} RaisedFits(v: nat, n: nat, k: nat)
    requires v < Pow2(8 * n)
    ensures Raised(v, k) < Pow2(8 * (n + k))
  {
    if k > 0 {
      RaisedFits(v, n, k - 1);
      Pow2Byte(8 * (n + k - 1));
    }
  }

  lemma {:induction false} SwapZeros(v: nat, n: nat, k: nat)
    ensures Be(LeBytes(Raised(v, k), n + k), 0, n + k) == Be(LeBytes(v, n), 0, n)
    decreases k
  {
    if k > 0 {
      var low := Raised(v, k - 1);
      SwapZeros(v, n, k - 1);
      var j := n + k - 1;
      LeBytesCons(0, low, j);
      assert LeBytes(Raised(v, k), j + 1) == [0] + LeBytes(low, j);
      BeLeadingZero(LeBytes(low, j), j);
    }
  }
}
