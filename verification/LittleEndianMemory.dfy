// The memory model of the architecture headers: a machine word is kept in memory
// least significant byte first, and may be loaded or stored at any address.
module LittleEndianMemory {
  import opened Bits
  import opened Bytes

  /** `*(uintN *) p` */
  function LoadWide(m: seq<byte>, p: nat, n: nat): nat
    requires p + n <= |m|
  {
    Le(m, p, n)
  }

  /** `*(uintN *) p = v` */
  method StoreWide(mem: array<byte>, p: nat, v: nat, n: nat)
    requires p + n <= mem.Length
    modifies mem
    ensures mem[..] == Splice(old(mem[..]), p, LeBytes(v, n))
  {
    var bytes := LeBytes(v, n);
    forall i | 0 <= i < n {
      mem[p + i] := bytes[i];
    }
  }
}
