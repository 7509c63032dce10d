// byte_order_generic_x86.h: on 32-bit x86 the 2, 4 and 8 byte macros are single
// loads and stores of that width; the others are the portable expressions.
module X86Order {
  import opened Bits
  import opened Bytes
  import opened LittleEndianMemory
  import Portable = PortableOrder

  function Uint2korr(m: seq<byte>, p: nat): nat
    requires p + 2 <= |m|
  {
    LoadWide(m, p, 2)
  }

  function Uint4korr(m: seq<byte>, p: nat): nat
    requires p + 4 <= |m|
  {
    LoadWide(m, p, 4)
  }

  function Uint8korr(m: seq<byte>, p: nat): nat
    requires p + 8 <= |m|
  {
    LoadWide(m, p, 8)
  }

  function Sint2korr(m: seq<byte>, p: nat): int
    requires p + 2 <= |m|
  {
    Signed(LoadWide(m, p, 2), UINT16)
  }

  /** `long` has 32 bits wherever this header is selected. */
  function Sint4korr(m: seq<byte>, p: nat): int
    requires p + 4 <= |m|
  {
    Signed(LoadWide(m, p, 4), UINT32)
  }

  function Sint8korr(m: seq<byte>, p: nat): int
    requires p + 8 <= |m|
  {
    Signed(LoadWide(m, p, 8), UINT64)
  }

  /** Every single-width load gives what the portable expression gives. */
  lemma {:induction false} LoadsAgree(m: seq<byte>, p: nat)
    ensures p + 2 <= |m| ==> Uint2korr(m, p) == Portable.Uint2korr(m, p) && Sint2korr(m, p) == Portable.Sint2korr(m, p)
    ensures p + 4 <= |m| ==> Uint4korr(m, p) == Portable.Uint4korr(m, p) && Sint4korr(m, p) == Portable.Sint4korr(m, p)
    ensures p + 8 <= |m| ==> Uint8korr(m, p) == Portable.Uint8korr(m, p) && Sint8korr(m, p) == Portable.Sint8korr(m, p)
  {
  }

  method Int2store(mem: array<byte>, t: nat, a: int)
    requires t + 2 <= mem.Length
    modifies mem
    ensures mem[..] == Splice(old(mem[..]), t, LeBytes(a, 2))
  {
    StoreWide(mem, t, Trunc(a, UINT16), 2);
    LeBytesTrunc(a, UINT16, 2);
  }

  method Int4store(mem: array<byte>, t: nat, a: int)
    requires t + 4 <= mem.Length
    modifies mem
    ensures mem[..] == Splice(old(mem[..]), t, LeBytes(a, 4))
  {
    StoreWide(mem, t, Trunc(a, UINT32), 4);
    LeBytesTrunc(a, UINT32, 4);
  }

  method Int8store(mem: array<byte>, t: nat, a: int)
    requires t + 8 <= mem.Length
    modifies mem
    ensures mem[..] == Splice(old(mem[..]), t, LeBytes(a, 8))
  {
    StoreWide(mem, t, Trunc(a, UINT64), 8);
    LeBytesTrunc(a, UINT64, 8);
  }

  method Int3store(mem: array<byte>, t: nat, a: int)
    requires t + 3 <= mem.Length
    modifies mem
    ensures mem[..] == Splice(old(mem[..]), t, LeBytes(a, 3))
  {
    mem[t] := Uchar(a);
    mem[t + 1] := Uchar(Shr(Trunc(a, UINT32), 8));
    mem[t + 2] := Uchar(Shr(a, 16));
    LeBytesAt(Trunc(a, UINT32), 2, 1);
    LeBytesTrunc(a, UINT32, 2);
    LeBytesAt(a, 2, 1);
    Portable.ByteByByte(old(mem[..]), mem[..], t, a, 3);
  }

  method Int5store(mem: array<byte>, t: nat, a: int)
    requires t + 5 <= mem.Length
    modifies mem
    ensures mem[..] == Splice(old(mem[..]), t, LeBytes(a, 5))
  {
    mem[t] := Uchar(a);
    mem[t + 1] := Uchar(Shr(a, 8));
    mem[t + 2] := Uchar(Shr(a, 16));
    mem[t + 3] := Uchar(Shr(a, 24));
    mem[t + 4] := Uchar(Shr(a, 32));
    Portable.ByteByByte(old(mem[..]), mem[..], t, a, 5);
  }

  method Int6store(mem: array<byte>, t: nat, a: int)
    requires t + 6 <= mem.Length
    modifies mem
    ensures mem[..] == Splice(old(mem[..]), t, LeBytes(a, 6))
  {
    mem[t] := Uchar(a);
    mem[t + 1] := Uchar(Shr(a, 8));
    mem[t + 2] := Uchar(Shr(a, 16));
    mem[t + 3] := Uchar(Shr(a, 24));
    mem[t + 4] := Uchar(Shr(a, 32));
    mem[t + 5] := Uchar(Shr(a, 40));
    Portable.ByteByByte(old(mem[..]), mem[..], t, a, 6);
  }
}
