// The UUID printer of my_sys.h.
module Uuid {
  import opened Bits
  import opened Bytes

  /** The sixteen digits of `_dig_vec_lower` that the printer uses. */
  const DIGITS := "0123456789abcdef"
  const SIZE: nat := 16

  function HexPair(b: byte): (s: string)
    ensures |s| == 2
  {
    [DIGITS[b / 16], DIGITS[b % 16]]
  }

  /** The digits of bytes i to j. */
  function Hex(guid: seq<byte>, i: nat, j: nat): (s: string)
    requires i <= j <= |guid|
    ensures |s| == 2 * (j - i)
    decreases j
  {
    if i == j then "" else Hex(guid, i, j - 1) + HexPair(guid[j - 1])
  }

  /** The text form of section 3 of RFC 4122: groups of 8, 4, 4, 4 and 12 digits. */
  function Text(guid: seq<byte>, separators: bool): (s: string)
    requires |guid| == SIZE
    ensures |s| == if separators then 36 else 32
  {
    if separators then
      Hex(guid, 0, 4) + "-" + Hex(guid, 4, 6) + "-" + Hex(guid, 6, 8) + "-" + Hex(guid, 8, 10) + "-" + Hex(guid, 10, 16)
    else
      Hex(guid, 0, 16)
  }

  // ---- The printer ----

  method MyUuid2Str(guid: seq<byte>, s: array<char>, at: nat, withSeparators: bool)
    requires |guid| == SIZE
    requires at + (if withSeparators then 36 else 32) <= s.Length
    modifies s
    ensures s[..] == Splice(old(s[..]), at, Text(guid, withSeparators))
  {
    ghost var before := s[..];
    var pos, mask := at, 0;
    if withSeparators {
      mask := SeparatorMask();
    }
    for i := 0 to SIZE
      invariant mask == if withSeparators then Shr(680, i) else 0
      invariant pos == at + |Prefix(guid, withSeparators, i)| <= s.Length
      invariant Printed(before, s[..], at, Prefix(guid, withSeparators, i))
    {
      MaskBit(i);
      pos := PutNext(guid, s, pos, withSeparators, i, mask, before, at);
      mask := Shr(mask, 1);
    }
    PrefixIsText(guid, withSeparators);
  }

  /** One round of the loop. */
  method PutNext(guid: seq<byte>, s: array<char>, pos: nat, withSeparators: bool, i: nat, mask: nat,
                 ghost before: string, ghost at: nat) returns (next: nat)
    requires i < |guid| == SIZE && at + (if withSeparators then 36 else 32) <= |before| == s.Length
    requires pos == at + |Prefix(guid, withSeparators, i)|
    requires Printed(before, s[..], at, Prefix(guid, withSeparators, i))
    requires And(mask, 1) != 0 <==> withSeparators && SeparatorAfter(i)
    modifies s
    ensures next == at + |Prefix(guid, withSeparators, i + 1)| <= s.Length
    ensures Printed(before, s[..], at, Prefix(guid, withSeparators, i + 1))
  {
    PrefixFits(guid, withSeparators, i + 1);
    PrintedPiece(before, s[..], at, Prefix(guid, withSeparators, i), Piece(guid, withSeparators, i));
    next := PutByte(s, pos, guid[i], mask);
  }

  /** Two digits, and a dash if the low bit of the mask is set. */
  method PutByte(s: array<char>, pos: nat, b: byte, mask: nat) returns (next: nat)
    requires pos + (if And(mask, 1) != 0 then 3 else 2) <= s.Length
    modifies s
    ensures s[..] == Splice(old(s[..]), pos, if And(mask, 1) != 0 then HexPair(b) + "-" else HexPair(b))
    ensures next == pos + if And(mask, 1) != 0 then 3 else 2
  {
    LowDigits(b);
    next := PutChar(s, pos, DIGITS[Shr(b, 4)]);
    next := PutChar(s, next, DIGITS[And(b, 15)]);
    if And(mask, 1) != 0 {
      next := PutChar(s, next, '-');
    }
  }

  /** `*s++= c` */
  method PutChar(s: array<char>, pos: nat, c: char) returns (next: nat)
    requires pos < s.Length
    modifies s
    ensures s[..] == old(s[..])[pos := c] && next == pos + 1
  {
    s[pos] := c;
    next := pos + 1;
  }

  /** The memory before, with text written at position `at` so far. */
  ghost predicate Printed(before: string, now: string, at: nat, text: string) {
    at + |text| <= |before| && now == Splice(before, at, text)
  }

  lemma {:induction false} PrintedPiece(before: string, now: string, at: nat, text: string, piece: string)
    requires Printed(before, now, at, text)
    requires at + |text| + |piece| <= |before|
    ensures Printed(before, Splice(now, at + |text|, piece), at, text + piece)
  {
  }

  /** `(1 << 3) | (1 << 5) | (1 << 7) | (1 << 9)` */
  method SeparatorMask() returns (mask: nat)
    ensures mask == 680
  {
    var one := 1;
    mask := Or(Shl(one, 3, UINT32), Shl(one, 5, UINT32));
    mask := Or(mask, Shl(one, 7, UINT32));
    mask := Or(mask, Shl(one, 9, UINT32));
    MaskValue(one);
  }

  /** A separator follows the bytes with these indices. */
  predicate SeparatorAfter(i: nat) {
    i == 3 || i == 5 || i == 7 || i == 9
  }

  /** What the loop writes for byte i. */
  function Piece(guid: seq<byte>, separators: bool, i: nat): string
    requires i < |guid|
  {
    if separators && SeparatorAfter(i) then HexPair(guid[i]) + "-" else HexPair(guid[i])
  }

  function Prefix(guid: seq<byte>, separators: bool, i: nat): string
    requires i <= |guid|
  {
    if i == 0 then "" else Prefix(guid, separators, i - 1) + Piece(guid, separators, i - 1)
  }

  lemma {:induction false} PrefixGrows(guid: seq<byte>, separators: bool, i: nat, j: nat)
    requires i <= j <= |guid|
    ensures |Prefix(guid, separators, i)| <= |Prefix(guid, separators, j)|
    decreases j
  {
    if i < j {
      PrefixGrows(guid, separators, i, j - 1);
    }
  }

  lemma {:induction false} PrefixFits(guid: seq<byte>, separators: bool, i: nat)
    requires i <= |guid| == SIZE
    ensures |Prefix(guid, separators, i)| <= if separators then 36 else 32
  {
    PrefixGrows(guid, separators, i, SIZE);
    PrefixIsText(guid, separators);
  }

  lemma {:induction false} MaskValue(one: nat)
    requires one == 1
    ensures Or(Or(Or(Shl(one, 3, UINT32), Shl(one, 5, UINT32)), Shl(one, 7, UINT32)), Shl(one, 9, UINT32)) == 680
  {
    Widths();
    ShlFits(one, 3, UINT32, 8);
    ShlFits(one, 5, UINT32, 32);
    ShlFits(one, 7, UINT32, 128);
    ShlFits(one, 9, UINT32, 512);
    JoinBits(8, 5, 32);
    JoinBits(40, 7, 128);
    JoinBits(168, 9, 512);
  }

  lemma {:induction false} JoinBits(x: nat, k: nat, c: nat)
    requires c == Pow2(k) && x < c
    ensures Or(x, c) == x + c
  {
    OrDisjoint(x, 1, k);
  }

  lemma {:induction false} MaskBit(i: nat)
    requires i < SIZE
    ensures And(Shr(680, i), 1) == if SeparatorAfter(i) then 1 else 0
    ensures And(0, 1) == 0 && Shr(0, 1) == 0
    ensures Shr(Shr(680, i), 1) == Shr(680, i + 1)
  {
    AndKeepsLowBits(Shr(680, i), 1);
    ShrTwice(680, i);
    assert Shr(680, i) % 2 == 1 <==> SeparatorAfter(i) by {
      Trace680(i);
    }
  }

  lemma {:induction false} ShrTwice(x: nat, i: nat)
    ensures Shr(Shr(x, i), 1) == Shr(x, i + 1)
    decreases i
  {
    if i > 0 {
      ShrTwice(x / 2, i - 1);
    }
  }

  lemma {:induction false} Trace680(i: nat)
    requires i < SIZE
    ensures Shr(680, i) == [680, 340, 170, 85, 42, 21, 10, 5, 2, 1, 0, 0, 0, 0, 0, 0][i]
  {
    if i > 0 {
      Trace680(i - 1);
      ShrTwice(680, i - 1);
    }
  }

  lemma {:induction false} LowDigits(b: byte)
    ensures Shr(b, 4) == b / 16 && And(b, 15) == b % 16
  {
    Pow2Values();
    AndKeepsLowBits(b, 4);
    TruncIsMod(b, 4);
    ShrIsDiv(b, 4);
  }

  // ---- The pieces make the groups ----

  /** Bytes that no separator follows are printed as one group. */
  lemma {:induction false} Group(guid: seq<byte>, separators: bool, i: nat, j: nat)
    requires i <= j <= |guid|
    requires forall k :: i <= k < j ==> !separators || !SeparatorAfter(k)
    ensures Prefix(guid, separators, j) == Prefix(guid, separators, i) + Hex(guid, i, j)
    decreases j
  {
    if i < j {
      Group(guid, separators, i, j - 1);
      var x := HexPair(guid[j - 1]);
      assert Piece(guid, separators, j - 1) == x;
      var p, h := Prefix(guid, separators, i), Hex(guid, i, j - 1);
      assert p + h + x == p + (h + x);
    }
  }

  lemma {:induction false} GroupThenDash(guid: seq<byte>, i: nat, j: nat)
    requires i < j <= |guid|
    requires forall k :: i <= k < j - 1 ==> !SeparatorAfter(k)
    requires SeparatorAfter(j - 1)
    ensures Prefix(guid, true, j) == Prefix(guid, true, i) + Hex(guid, i, j) + "-"
  {
    Group(guid, true, i, j - 1);
    var p, h, x := Prefix(guid, true, i), Hex(guid, i, j - 1), HexPair(guid[j - 1]);
    assert Piece(guid, true, j - 1) == x + "-";
    Regroup(p, h, x);
  }

  lemma {:induction false} Regroup(p: string, h: string, x: string)
    ensures p + h + (x + "-") == p + (h + x) + "-"
  {
  }

  lemma {:induction false} PrefixIsText(guid: seq<byte>, separators: bool)
    requires |guid| == SIZE
    ensures Prefix(guid, separators, SIZE) == Text(guid, separators)
  {
    if separators {
      GroupThenDash(guid, 0, 4);
      GroupThenDash(guid, 4, 6);
      GroupThenDash(guid, 6, 8);
      GroupThenDash(guid, 8, 10);
      Group(guid, true, 10, 16);
      assert "" + Hex(guid, 0, 4) == Hex(guid, 0, 4);
    } else {
      Group(guid, false, 0, 16);
      assert "" + Hex(guid, 0, 16) == Hex(guid, 0, 16);
    }
  }

  // ---- Reading the text back ----

  function DigitValue(c: char): (v: nat)
    ensures v < 16
  {
    if '0' <= c <= '9' then c as nat - '0' as nat
    else if 'a' <= c <= 'f' then c as nat - 'a' as nat + 10
    else 0
  }

  function Unhex(s: string): seq<byte> {
    if |s| < 2 then []
    else Unhex(s[..|s| - 2]) + [16 * DigitValue(s[|s| - 2]) + DigitValue(s[|s| - 1])]
  }

  function Undash(s: string): string {
    if s == "" then ""
    else Undash(s[..|s| - 1]) + if s[|s| - 1] == '-' then "" else [s[|s| - 1]]
  }

  lemma {:induction false} DigitOfValue(n: nat)
    requires n < 16
    ensures DigitValue(DIGITS[n]) == n && DIGITS[n] != '-'
  {
  }

  lemma {:induction false} UndashPair(t: string, b: byte)
    ensures Undash(t + HexPair(b)) == Undash(t) + HexPair(b)
  {
    DigitOfValue(b / 16);
    DigitOfValue(b % 16);
    var u := t + [DIGITS[b / 16]];
    assert t + HexPair(b) == u + [DIGITS[b % 16]];
    assert (u + [DIGITS[b % 16]])[..|u|] == u && u[..|t|] == t;
  }

  /** The digits pass, the dash goes. */
  lemma {:induction false} UndashGroup(t: string, guid: seq<byte>, i: nat, j: nat)
    requires i <= j <= |guid|
    ensures Undash(t + Hex(guid, i, j)) == Undash(t) + Hex(guid, i, j)
    ensures Undash(t + Hex(guid, i, j) + "-") == Undash(t) + Hex(guid, i, j)
    decreases j
  {
    var u := t + Hex(guid, i, j);
    assert (u + "-")[..|u|] == u;
    if i == j {
      assert u == t && Undash(t) + "" == Undash(t);
    } else {
      var v, x := t + Hex(guid, i, j - 1), guid[j - 1];
      UndashGroup(t, guid, i, j - 1);
      UndashPair(v, x);
      assert u == v + HexPair(x);
      assert Undash(t) + Hex(guid, i, j - 1) + HexPair(x) == Undash(t) + (Hex(guid, i, j - 1) + HexPair(x));
    }
  }

  lemma {:induction false} UnhexPair(t: string, b: byte)
    ensures Unhex(t + HexPair(b)) == Unhex(t) + [b]
  {
    DigitOfValue(b / 16);
    DigitOfValue(b % 16);
    var u := t + HexPair(b);
    assert u[..|u| - 2] == t && u[|u| - 2] == DIGITS[b / 16] && u[|u| - 1] == DIGITS[b % 16];
  }

  lemma {:induction false} UnhexHex(guid: seq<byte>, j: nat)
    requires j <= |guid|
    ensures Unhex(Hex(guid, 0, j)) == guid[..j]
    decreases j
  {
    if j > 0 {
      UnhexHex(guid, j - 1);
      UnhexPair(Hex(guid, 0, j - 1), guid[j - 1]);
      TakeNext(guid, j);
    }
  }

  lemma {:induction false} TakeNext(guid: seq<byte>, j: nat)
    requires 0 < j <= |guid|
    ensures guid[..j] == guid[..j - 1] + [guid[j - 1]]
  {
  }

  lemma {:induction false} HexConcat(guid: seq<byte>, i: nat, j: nat, k: nat)
    requires i <= j <= k <= |guid|
    ensures Hex(guid, i, k) == Hex(guid, i, j) + Hex(guid, j, k)
    decreases k
  {
    if j < k {
      HexConcat(guid, i, j, k - 1);
      var a, b, x := Hex(guid, i, j), Hex(guid, j, k - 1), HexPair(guid[k - 1]);
      assert a + b + x == a + (b + x);
    }
  }

  /** Dropping the dashes and reading the digits gives back the sixteen bytes. */
  lemma {:induction false} RoundTrip(guid: seq<byte>, separators: bool)
    requires |guid| == SIZE
    ensures Undash(Text(guid, separators)) == Hex(guid, 0, 16)
    ensures Unhex(Undash(Text(guid, separators))) == guid
  {
    assert guid[..16] == guid;
    UnhexHex(guid, 16);
    if separators {
      GroupsUndash(guid);
    } else {
      UndashGroup("", guid, 0, 16);
      assert "" + Hex(guid, 0, 16) == Hex(guid, 0, 16);
    }
  }

  lemma {:induction false} GroupsUndash(guid: seq<byte>)
    requires |guid| == SIZE
    ensures Undash(Text(guid, true)) == Hex(guid, 0, 16)
  {
    var t0 := "";
    var t1 := t0 + Hex(guid, 0, 4) + "-";
    var t2 := t1 + Hex(guid, 4, 6) + "-";
    var t3 := t2 + Hex(guid, 6, 8) + "-";
    var t4 := t3 + Hex(guid, 8, 10) + "-";
    UndashGroup(t0, guid, 0, 4);
    UndashGroup(t1, guid, 4, 6);
    UndashGroup(t2, guid, 6, 8);
    UndashGroup(t3, guid, 8, 10);
    UndashGroup(t4, guid, 10, 16);
    assert t0 + Hex(guid, 0, 4) == Hex(guid, 0, 4);
    HexConcat(guid, 0, 4, 6);
    HexConcat(guid, 0, 6, 8);
    HexConcat(guid, 0, 8, 10);
    HexConcat(guid, 0, 10, 16);
  }

  /** Different identifiers have different texts. */
  lemma {:induction false} Injective(g: seq<byte>, h: seq<byte>, separators: bool)
    requires |g| == |h| == SIZE
    ensures Text(g, separators) == Text(h, separators) <==> g == h
  {
    RoundTrip(g, separators);
    RoundTrip(h, separators);
  }

  lemma {:induction false} HexDigitsOnly(guid: seq<byte>, i: nat, j: nat)
    requires i <= j <= |guid|
    ensures '-' !in Hex(guid, i, j)
    decreases j
  {
    if i < j {
      HexDigitsOnly(guid, i, j - 1);
      DigitOfValue(guid[j - 1] / 16);
      DigitOfValue(guid[j - 1] % 16);
    }
  }

  lemma {:induction false} DashesBetween(a: string, b: string, c: string, d: string, e: string, k: nat)
    requires |a| == 8 && |b| == |c| == |d| == 4 && |e| == 12 && k < 36
    requires '-' !in a && '-' !in b && '-' !in c && '-' !in d && '-' !in e
    ensures (a + "-" + b + "-" + c + "-" + d + "-" + e)[k] == '-' <==> k in {8, 13, 18, 23}
  {
  }

  /** The dashes stand at offsets 8, 13, 18 and 23 and nowhere else. */
  lemma {:induction false} DashPositions(guid: seq<byte>, k: nat)
    requires |guid| == SIZE && k < 36
    ensures Text(guid, true)[k] == '-' <==> k in {8, 13, 18, 23}
  {
    HexDigitsOnly(guid, 0, 4);
    HexDigitsOnly(guid, 4, 6);
    HexDigitsOnly(guid, 6, 8);
    HexDigitsOnly(guid, 8, 10);
    HexDigitsOnly(guid, 10, 16);
    DashesBetween(Hex(guid, 0, 4), Hex(guid, 4, 6), Hex(guid, 6, 8), Hex(guid, 8, 10), Hex(guid, 10, 16), k);
  }
}
