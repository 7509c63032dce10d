// The bounded string copies of m_string.h, on NUL-terminated byte strings in memory.
// A destination is a position `d` in the memory `m`, with `size` bytes of room; a
// source is read only and is given as the bytes from its first one on.
module CString {
  import opened Bytes

  /** The index of the first NUL at or after i, or |s| when there is none. */
  function NulFrom(s: seq<byte>, i: nat): (n: nat)
    requires i <= |s|
    ensures i <= n <= |s|
    decreases |s| - i
  {
    if i == |s| || s[i] == 0 then i else NulFrom(s, i + 1)
  }

  /** The length of a source string. */
  function StrLen(s: seq<byte>): (n: nat)
    ensures n <= |s|
  {
    NulFrom(s, 0)
  }

  /** A source that has its NUL. */
  predicate IsCString(s: seq<byte>) {
    StrLen(s) < |s|
  }

  /** The characters of a source string. */
  function CStr(s: seq<byte>): seq<byte> {
    s[..StrLen(s)]
  }

  /** The characters of the string that starts at d. */
  function TextAt(m: seq<byte>, d: nat): seq<byte>
    requires d <= |m|
  {
    m[d..NulFrom(m, d)]
  }

  function Zeros(n: nat): (z: seq<byte>)
    ensures |z| == n
    ensures forall i :: 0 <= i < n ==> z[i] == 0
  {
    if n == 0 then [] else [0] + Zeros(n - 1)
  }

  /** The memory after the characters t and a NUL are written at d. */
  function PutStr(m: seq<byte>, d: nat, t: seq<byte>): (r: seq<byte>)
    requires d + |t| < |m|
    ensures |r| == |m|
  {
    Splice(m, d, t + [0])
  }

  // ---- What each operation leaves in memory ----

  /** safe_strcpy: the part of the source that leaves room for one NUL, then NULs to the end of the room. */
  function PaddedMemory(m: seq<byte>, d: nat, size: nat, src: seq<byte>): (r: seq<byte>)
    requires 0 < size && d + size <= |m|
    ensures |r| == |m|
  {
    var k := Min(StrLen(src), size - 1);
    Splice(m, d, src[..k] + Zeros(size - k))
  }

  /** safe_strcpy_truncated: the part of the source that leaves room for one NUL, and that NUL. */
  function TruncatedMemory(m: seq<byte>, d: nat, size: nat, src: seq<byte>): (r: seq<byte>)
    requires d + size <= |m|
    ensures |r| == |m|
  {
    if size == 0 then m else PutStr(m, d, src[..Min(StrLen(src), size - 1)])
  }

  /** safe_strcat: the copy continues at the NUL, unless that lies outside the room. */
  function CatMemory(m: seq<byte>, d: nat, size: nat, src: seq<byte>): (r: seq<byte>)
    requires d + size <= |m|
    ensures |r| == |m|
  {
    var e := NulFrom(m, d);
    if e >= d + size then m else TruncatedMemory(m, e, d + size - e, src)
  }

  function CatResult(m: seq<byte>, d: nat, size: nat, src: seq<byte>): int
    requires d + size <= |m|
  {
    if NulFrom(m, d) >= d + size || StrLen(src) >= d + size - NulFrom(m, d) then 1 else 0
  }

  // ---- The code ----

  method Strlen(mem: array<byte>, d: nat) returns (n: nat)
    requires d <= mem.Length && NulFrom(mem[..], d) < mem.Length
    ensures d + n == NulFrom(mem[..], d)
  {
    n := 0;
    while mem[d + n] != 0
      invariant d + n < mem.Length
      invariant NulFrom(mem[..], d) == NulFrom(mem[..], d + n)
      decreases mem.Length - n
    {
      n := n + 1;
    }
  }

  /** Copies up to and including the NUL, but at most n bytes; returns the position of the NUL, or d + n. */
  method Strnmov(mem: array<byte>, d: nat, src: seq<byte>, n: nat) returns (end: nat)
    requires d + n <= mem.Length && IsCString(src)
    modifies mem
    ensures end == d + Min(StrLen(src), n)
    ensures mem[..] == Splice(old(mem[..]), d, src[..Min(StrLen(src) + 1, n)])
  {
    ghost var before := mem[..];
    var i := 0;
    while i < n
      invariant i <= n && i < |src|
      invariant StrLen(src) == NulFrom(src, i)
      invariant mem[..] == Splice(before, d, src[..i])
    {
      CopiesMore(before, mem[..], d, src, i);
      mem[d + i] := src[i];
      if src[i] == 0 {
        return d + i;
      }
      i := i + 1;
    }
    end := d + n;
  }

  /** The C library function, not part of the repository: at most n characters of the source, then
      NULs to make n bytes. */
  method Strncpy(mem: array<byte>, d: nat, src: seq<byte>, n: nat)
    requires d + n <= mem.Length && IsCString(src)
    modifies mem
    ensures var k := Min(StrLen(src), n); mem[..] == Splice(old(mem[..]), d, src[..k] + Zeros(n - k))
  {
    var k := Min(StrLen(src), n);
    var text := src[..k] + Zeros(n - k);
    forall i | 0 <= i < n {
      mem[d + i] := text[i];
    }
  }

  method SafeStrcpy(mem: array<byte>, d: nat, size: nat, src: seq<byte>)
    requires 0 < size && d + size <= mem.Length && IsCString(src)
    modifies mem
    ensures mem[..] == PaddedMemory(old(mem[..]), d, size, src)
  {
    ghost var before := mem[..];
    Strncpy(mem, d, src, size);
    PatchLast(before, d, src[..Min(StrLen(src), size)] + Zeros(size - Min(StrLen(src), size)));
    PaddedPatched(src, size);
    mem[d + size - 1] := 0;
  }

  method SafeStrcpyTruncated(mem: array<byte>, d: nat, size: nat, src: seq<byte>) returns (r: int)
    requires d + size <= mem.Length && IsCString(src)
    modifies mem
    ensures mem[..] == TruncatedMemory(old(mem[..]), d, size, src)
    ensures r == if StrLen(src) >= size then 1 else 0
  {
    ghost var before := mem[..];
    if size == 0 {
      return 1;
    }
    var end := Strnmov(mem, d, src, size);
    if end == d + size {
      PatchLast(before, d, src[..size]);
      assert src[..size][..size - 1] == src[..size - 1];
      mem[d + size - 1] := 0;
      return 1;
    }
    NulFound(src, 0);
    assert src[..StrLen(src) + 1] == src[..StrLen(src)] + [0];
    return 0;
  }

  method SafeStrcat(mem: array<byte>, d: nat, size: nat, src: seq<byte>) returns (r: int)
    requires d + size <= mem.Length && IsCString(src)
    requires NulFrom(mem[..], d) < mem.Length
    modifies mem
    ensures mem[..] == CatMemory(old(mem[..]), d, size, src)
    ensures r == CatResult(old(mem[..]), d, size, src)
  {
    var initLen := Strlen(mem, d);
    if initLen >= size {
      return 1;
    }
    r := SafeStrcpyTruncated(mem, d + initLen, size - initLen, src);
  }

  // ---- Where the writes land ----

  lemma {:induction false} NulFound(s: seq<byte>, i: nat)
    requires i <= |s|
    ensures NulFrom(s, i) < |s| ==> s[NulFrom(s, i)] == 0
    ensures 0 !in s[i..NulFrom(s, i)]
    decreases |s| - i
  {
    if i < |s| && s[i] != 0 {
      NulFound(s, i + 1);
      assert s[i..NulFrom(s, i)] == [s[i]] + s[i + 1..NulFrom(s, i)];
    }
  }

  lemma {:induction false} NulFirst(s: seq<byte>, i: nat, n: nat)
    requires i <= n < |s| && s[n] == 0 && 0 !in s[i..n]
    ensures NulFrom(s, i) == n
    decreases n - i
  {
    if i < n {
      assert s[i] == s[i..n][0];
      assert s[i..n] == [s[i]] + s[i + 1..n];
      NulFirst(s, i + 1, n);
    }
  }

  lemma {:induction false} CopiesMore<T>(before: seq<T>, now: seq<T>, d: nat, src: seq<T>, i: nat)
    requires i < |src| && d + i < |before|
    requires now == Splice(before, d, src[..i])
    ensures now[d + i := src[i]] == Splice(before, d, src[..i + 1])
  {
  }

  lemma {:induction false} PatchLast(before: seq<byte>, d: nat, text: seq<byte>)
    requires d + |text| <= |before| && |text| > 0
    ensures Splice(before, d, text)[d + |text| - 1 := 0] == Splice(before, d, text[..|text| - 1] + [0])
  {
  }

  lemma {:induction false} PaddedPatched(src: seq<byte>, size: nat)
    requires size > 0 && StrLen(src) < |src|
    ensures var k := Min(StrLen(src), size);
            var text := src[..k] + Zeros(size - k);
            text[..size - 1] + [0] == src[..Min(StrLen(src), size - 1)] + Zeros(size - Min(StrLen(src), size - 1))
  {
  }

  // ---- One copy ----

  /** A string put at d is the string found at d. */
  lemma {:induction false} PutThenRead(m: seq<byte>, d: nat, t: seq<byte>)
    requires d + |t| < |m| && 0 !in t
    ensures NulFrom(PutStr(m, d, t), d) == d + |t|
    ensures TextAt(PutStr(m, d, t), d) == t
  {
    var r := PutStr(m, d, t);
    assert r[d..d + |t|] == t;
    NulFirst(r, d, d + |t|);
  }

  lemma {:induction false} SourceHasNoNul(src: seq<byte>, k: nat)
    requires k <= StrLen(src)
    ensures 0 !in src[..k]
  {
    NulFound(src, 0);
    assert src[0..StrLen(src)] == CStr(src);
    assert src[..k] == CStr(src)[..k];
  }

  /** Both copies leave the same C string: as much of the source as leaves room for the NUL. */
  lemma {:induction false} SameText(m: seq<byte>, d: nat, size: nat, src: seq<byte>)
    requires 0 < size && d + size <= |m|
    ensures TextAt(TruncatedMemory(m, d, size, src), d) == CStr(src)[..Min(StrLen(src), size - 1)]
    ensures TextAt(PaddedMemory(m, d, size, src), d) == CStr(src)[..Min(StrLen(src), size - 1)]
  {
    var k := Min(StrLen(src), size - 1);
    var t := src[..k];
    SourceHasNoNul(src, k);
    assert t == CStr(src)[..k];
    PutThenRead(m, d, t);
    var p := PaddedMemory(m, d, size, src);
    assert p[d..d + k] == t && p[d + k] == 0;
    NulFirst(p, d, d + k);
  }

  /** safe_strcpy_truncated zeroes the room only where it was zero already behind the text. */
  lemma {:induction false} PadsIff(m: seq<byte>, d: nat, size: nat, src: seq<byte>)
    requires 0 < size && d + size <= |m|
    ensures TruncatedMemory(m, d, size, src) == PaddedMemory(m, d, size, src)
       <==> forall j :: d + StrLen(src) < j < d + size ==> m[j] == 0
  {
    var k := Min(StrLen(src), size - 1);
    PutByIndex(m, d, src[..k]);
    PadByIndex(m, d, src[..k], size - k);
  }

  lemma {:induction false} PutByIndex(m: seq<byte>, d: nat, t: seq<byte>)
    requires d + |t| < |m|
    ensures var r := PutStr(m, d, t);
            forall j :: 0 <= j < |m| ==> r[j] == if d <= j < d + |t| then t[j - d] else if j == d + |t| then 0 else m[j]
  {
  }

  lemma {:induction false} PadByIndex(m: seq<byte>, d: nat, t: seq<byte>, z: nat)
    requires d + |t| + z <= |m|
    ensures var r := Splice(m, d, t + Zeros(z));
            forall j :: 0 <= j < |m| ==>
              r[j] == if d <= j < d + |t| then t[j - d] else if d + |t| <= j < d + |t| + z then 0 else m[j]
  {
  }

  // ---- Any number of appends ----

  /** The memory after safe_strcat of each source in turn. */
  function CatAll(m: seq<byte>, d: nat, size: nat, srcs: seq<seq<byte>>): (r: seq<byte>)
    requires d + size <= |m|
    ensures |r| == |m|
  {
    if srcs == [] then m else CatMemory(CatAll(m, d, size, srcs[..|srcs| - 1]), d, size, srcs[|srcs| - 1])
  }

  /** The characters t, then those of each source in turn. */
  function Whole(t: seq<byte>, srcs: seq<seq<byte>>): seq<byte> {
    if srcs == [] then t else Whole(t, srcs[..|srcs| - 1]) + CStr(srcs[|srcs| - 1])
  }

  function Take(s: seq<byte>, n: nat): (r: seq<byte>)
    ensures |r| == Min(|s|, n)
  {
    s[..Min(|s|, n)]
  }

  lemma {:induction false} WholeHasNoNul(t: seq<byte>, srcs: seq<seq<byte>>)
    requires 0 !in t
    ensures 0 !in Whole(t, srcs)
  {
    if srcs != [] {
      WholeHasNoNul(t, srcs[..|srcs| - 1]);
      SourceHasNoNul(srcs[|srcs| - 1], StrLen(srcs[|srcs| - 1]));
    }
  }

  lemma {:induction false} PutBehind(m: seq<byte>, d: nat, t: seq<byte>, c: seq<byte>)
    requires d + |t| + |c| < |m|
    ensures PutStr(PutStr(m, d, t), d + |t|, c) == PutStr(m, d, t + c)
  {
  }

  lemma {:induction false} TakeMore(w: seq<byte>, c: seq<byte>, n: nat)
    ensures Take(w + c, n) == Take(w, n) + c[..Min(|c|, n - |Take(w, n)|)]
  {
  }

  lemma {:induction false} AppendStep(m: seq<byte>, d: nat, size: nat, w: seq<byte>, src: seq<byte>)
    requires 0 < size && d + size <= |m| && 0 !in w
    ensures CatMemory(PutStr(m, d, Take(w, size - 1)), d, size, src) == PutStr(m, d, Take(w + CStr(src), size - 1))
  {
    var t := Take(w, size - 1);
    var k := Min(StrLen(src), size - 1 - |t|);
    var now := PutStr(m, d, t);
    PutThenRead(m, d, t);
    assert CatMemory(now, d, size, src) == PutStr(now, d + |t|, src[..k]);
    PutBehind(m, d, t, src[..k]);
    assert CStr(src)[..k] == src[..k];
    assert Take(w + CStr(src), size - 1) == t + src[..k] by {
      TakeMore(w, CStr(src), size - 1);
    }
  }

  /** After any appends to a string in the room at d, the room holds the first size - 1 characters of the
      whole text and one NUL; every other byte of the memory is as it was. */
  lemma {:induction false} AppendAll(m: seq<byte>, d: nat, size: nat, srcs: seq<seq<byte>>)
    requires d + size <= |m| && NulFrom(m, d) < d + size
    ensures CatAll(m, d, size, srcs) == PutStr(m, d, Take(Whole(TextAt(m, d), srcs), size - 1))
  {
    var t := TextAt(m, d);
    NulFound(m, d);
    if srcs == [] {
      assert Take(t, size - 1) == t;
      assert PutStr(m, d, t) == m;
    } else {
      var front := srcs[..|srcs| - 1];
      AppendAll(m, d, size, front);
      WholeHasNoNul(t, front);
      AppendStep(m, d, size, Whole(t, front), srcs[|srcs| - 1]);
    }
  }

  /** So as a C string it is the whole text, cut where it no longer fits; and the i-th append reports
      truncation exactly when its source is longer than the room then left. */
  lemma {:induction false} AppendReports(m: seq<byte>, d: nat, size: nat, srcs: seq<seq<byte>>, src: seq<byte>)
    requires d + size <= |m| && NulFrom(m, d) < d + size
    ensures var w := Whole(TextAt(m, d), srcs);
            && TextAt(CatAll(m, d, size, srcs), d) == Take(w, size - 1)
            && CatResult(CatAll(m, d, size, srcs), d, size, src) ==
               if StrLen(src) > size - 1 - Min(|w|, size - 1) then 1 else 0
  {
    var w := Whole(TextAt(m, d), srcs);
    AppendAll(m, d, size, srcs);
    NulFound(m, d);
    WholeHasNoNul(TextAt(m, d), srcs);
    PutThenRead(m, d, Take(w, size - 1));
  }

  /** Without a NUL in the room nothing is appended, and every append reports it. */
  lemma {:induction false} AppendRefused(m: seq<byte>, d: nat, size: nat, srcs: seq<seq<byte>>, src: seq<byte>)
    requires d + size <= |m| && NulFrom(m, d) >= d + size
    ensures CatAll(m, d, size, srcs) == m
    ensures CatResult(CatAll(m, d, size, srcs), d, size, src) == 1
  {
    if srcs != [] {
      AppendRefused(m, d, size, srcs[..|srcs| - 1], src);
    }
  }

  /** Every byte outside the room is as it was. */
  ghost predicate OnlyRoom(m: seq<byte>, r: seq<byte>, d: nat, size: nat)
    requires d + size <= |m| == |r|
  {
    r[..d] == m[..d] && r[d + size..] == m[d + size..]
  }

  lemma {:induction false} SpliceInRoom(m: seq<byte>, d: nat, size: nat, p: nat, bs: seq<byte>)
    requires d <= p && p + |bs| <= d + size <= |m|
    ensures OnlyRoom(m, Splice(m, p, bs), d, size)
  {
  }

  /** None of the operations writes outside the room, whatever its size and whatever the room holds. */
  lemma {:induction false} WritesStayInRoom(m: seq<byte>, d: nat, size: nat, src: seq<byte>)
    requires d + size <= |m|
    ensures OnlyRoom(m, TruncatedMemory(m, d, size, src), d, size)
    ensures size > 0 ==> OnlyRoom(m, PaddedMemory(m, d, size, src), d, size)
    ensures OnlyRoom(m, CatMemory(m, d, size, src), d, size)
  {
    if size > 0 {
      var k := Min(StrLen(src), size - 1);
      SpliceInRoom(m, d, size, d, src[..k] + [0]);
      SpliceInRoom(m, d, size, d, src[..k] + Zeros(size - k));
      var e := NulFrom(m, d);
      if e < d + size {
        SpliceInRoom(m, d, size, e, src[..Min(StrLen(src), d + size - e - 1)] + [0]);
      }
    }
  }
}
