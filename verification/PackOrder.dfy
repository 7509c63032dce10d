// The high-byte-first macros of mariadb_rpl.h, private/myisampack.h and my_byteorder.h.
module PackOrder {
  import opened Bits
  import opened Bytes
  import opened PortableOrder
  import X64 = X64Order

  function MyisamUint2korr(m: seq<byte>, p: nat): (r: nat)
    requires p + 2 <= |m|
    ensures r == Be(m, p, 2)
  {
    BeUnfold(m, p);
    BeBound2(m, p);
    Trunc(Pack2(m[p + 1], m[p]), UINT16)
  }

  lemma {:induction false} BeBound2(m: seq<byte>, p: nat)
    requires p + 2 <= |m|
    ensures Trunc(Pack2(m[p + 1], m[p]), UINT16) == Pack2(m[p + 1], m[p])
  {
    Widths();
    TruncSmall(Pack2(m[p + 1], m[p]), UINT16);
  }

  function MyisamUint3korr(m: seq<byte>, p: nat): (r: nat)
    requires p + 3 <= |m|
    ensures r == Be(m, p, 3)
  {
    BeUnfold(m, p);
    BeUnfold(m, p + 1);
    Pack3(m[p + 2], m[p + 1], m[p])
  }

  function MyisamUint4korr(m: seq<byte>, p: nat): (r: nat)
    requires p + 4 <= |m|
    ensures r == Be(m, p, 4)
  {
    BeUnfold(m, p);
    BeUnfold(m, p + 1);
    BeUnfold(m, p + 2);
    Pack4(m[p + 3], m[p + 2], m[p + 1], m[p])
  }

  /** int4net, and myisam_sint4korr, which is the same expression. */
  function Int4net(m: seq<byte>, p: nat): (r: int)
    requires p + 4 <= |m|
    ensures r == Signed(Be(m, p, 4), UINT32)
  {
    assert Pack4(m[p + 3], m[p + 2], m[p + 1], m[p]) == MyisamUint4korr(m, p);
    Signed(Pack4(m[p + 3], m[p + 2], m[p + 1], m[p]), UINT32)
  }

  /** No sign byte is put above the three bytes here. */
  function MyisamSint3korr(m: seq<byte>, p: nat): int
    requires p + 3 <= |m|
  {
    Signed(Pack3(m[p + 2], m[p + 1], m[p]), UINT32)
  }

  /** So this macro is a signed load exactly of the fields whose sign bit is clear. */
  lemma {:induction false} MyisamSint3IsSignedIff(m: seq<byte>, p: nat)
    requires p + 3 <= |m|
    ensures MyisamSint3korr(m, p) == Signed(Be(m, p, 3), 24) <==> m[p] < 128
    ensures MyisamSint3korr(m, p) == MyisamUint3korr(m, p)
  {
    var x := MyisamUint3korr(m, p);
    BeUnfold(m, p);
    BeUnfold(m, p + 1);
    Reading24(x);
  }

  lemma {:induction false} Reading24(x: nat)
    requires x < 0x100_0000
    ensures Signed(x, UINT32) == x
    ensures Signed(x, 24) == x <==> x < 0x80_0000
  {
    Pow2Values();
    var w24, w32 := 24, UINT32;
    TruncSmall(x, w24);
    TruncSmall(x, w32);
  }

  // ---- The portable forms of the loads that x86-64 does by byte swap ----

  function MiUint5korr(m: seq<byte>, p: nat): (r: nat)
    requires p + 5 <= |m|
    ensures r == Be(m, p, 5)
  {
    BeTop(m, p, 5);
    Pack64(Pack4(m[p + 4], m[p + 3], m[p + 2], m[p + 1]), m[p])
  }

  function MiUint6korr(m: seq<byte>, p: nat): (r: nat)
    requires p + 6 <= |m|
    ensures r == Be(m, p, 6)
  {
    BeTop(m, p, 6);
    Pack64(Pack4(m[p + 5], m[p + 4], m[p + 3], m[p + 2]), Pack2(m[p + 1], m[p]))
  }

  function MiUint7korr(m: seq<byte>, p: nat): (r: nat)
    requires p + 7 <= |m|
    ensures r == Be(m, p, 7)
  {
    BeTop(m, p, 7);
    Pack64(Pack4(m[p + 6], m[p + 5], m[p + 4], m[p + 3]), Pack3(m[p + 2], m[p + 1], m[p]))
  }

  function MiUint8korr(m: seq<byte>, p: nat): (r: nat)
    requires p + 8 <= |m|
    ensures r == Be(m, p, 8)
  {
    BeTop(m, p, 8);
    Pack64(Pack4(m[p + 7], m[p + 6], m[p + 5], m[p + 4]), Pack4(m[p + 3], m[p + 2], m[p + 1], m[p]))
  }

  /** Shifting the loaded bytes up and swapping them computes what the portable expressions compute. */
  lemma {:induction false} ByteSwapAgrees56(m: seq<byte>, p: nat)
    ensures p + 5 <= |m| ==> X64.MiUint5korr(m, p) == MiUint5korr(m, p)
    ensures p + 6 <= |m| ==> X64.MiUint6korr(m, p) == MiUint6korr(m, p)
  {
  }

  lemma {:induction false} ByteSwapAgrees78(m: seq<byte>, p: nat)
    ensures p + 7 <= |m| ==> X64.MiUint7korr(m, p) == MiUint7korr(m, p)
    ensures p + 8 <= |m| ==> X64.MiUint8korr(m, p) == MiUint8korr(m, p)
  {
  }

  /** The readings of 5 to 8 bytes as a high part over the four low bytes. */
  lemma {:induction false} BeTop(m: seq<byte>, p: nat, n: nat)
    requires 5 <= n <= 8 && p + n <= |m|
    ensures var q := p + n - 4;
            Be(m, p, n) == 0x1_0000_0000 * Be(m, p, n - 4) + Pack4(m[q + 3], m[q + 2], m[q + 1], m[q])
    ensures n == 5 ==> Be(m, p, 1) == m[p]
    ensures n == 6 ==> Be(m, p, 2) == Pack2(m[p + 1], m[p])
    ensures n == 7 ==> Be(m, p, 3) == Pack3(m[p + 2], m[p + 1], m[p])
    ensures n == 8 ==> Be(m, p, 4) == Pack4(m[p + 3], m[p + 2], m[p + 1], m[p])
  {
    var q := p + n - 4;
    assert Be(m, q, 4) == Pack4(m[q + 3], m[q + 2], m[q + 1], m[q]) by {
      assert MyisamUint4korr(m, q) == Be(m, q, 4);
    }
    BeSplit(m, p, n);
    if n == 5 {
      assert Be(m, p, 0) == 0;
    } else if n == 6 {
      BeBound2(m, p);
      assert MyisamUint2korr(m, p) == Be(m, p, 2);
    } else if n == 7 {
      assert MyisamUint3korr(m, p) == Be(m, p, 3);
    } else {
      assert MyisamUint4korr(m, p) == Be(m, p, 4);
    }
  }

  lemma {:induction false} BeSplit(m: seq<byte>, p: nat, n: nat)
    requires 4 <= n && p + n <= |m|
    ensures Be(m, p, n) == 0x1_0000_0000 * Be(m, p, n - 4) + Be(m, p + n - 4, 4)
  {
    var q := p + n - 4;
    assert Be(m, p, n) == 256 * Be(m, p, n - 1) + m[q + 3];
    assert Be(m, p, n - 1) == 256 * Be(m, p, n - 2) + m[q + 2];
    assert Be(m, p, n - 2) == 256 * Be(m, p, n - 3) + m[q + 1];
    assert Be(m, p, n - 3) == 256 * Be(m, p, n - 4) + m[q];
    assert Be(m, q, 4) == 256 * Be(m, q, 3) + m[q + 3];
    assert Be(m, q, 3) == 256 * Be(m, q, 2) + m[q + 2];
    assert Be(m, q, 2) == 256 * Be(m, q, 1) + m[q + 1];
    assert Be(m, q, 1) == 256 * Be(m, q, 0) + m[q];
  }
}
