// Records of fixed-width integers laid back to back in one buffer, as the store and
// load macros are used on them: every field keeps the last value stored in it. The
// macros exist for widths of 2, 3, 4, 5, 6 and 8 bytes; the argument is the same for all.
module Fields {
  import opened Bits
  import opened Bytes

  /** Where field i starts, relative to the first. */
  function Offset(widths: seq<nat>, i: nat): nat
    requires i <= |widths|
    decreases i
  {
    if i == 0 then 0 else Offset(widths, i - 1) + widths[i - 1]
  }

  /** `intNstore(base + offset, value)` into one field. */
  datatype Store = Store(field: nat, value: int)

  function Perform(m: seq<byte>, base: nat, widths: seq<nat>, s: Store): (r: seq<byte>)
    requires s.field < |widths|
    requires base + Offset(widths, |widths|) <= |m|
    ensures |r| == |m|
  {
    OffsetsGrow(widths, s.field + 1, |widths|);
    Splice(m, base + Offset(widths, s.field), LeBytes(s.value, widths[s.field]))
  }

  function PerformAll(m: seq<byte>, base: nat, widths: seq<nat>, stores: seq<Store>): (r: seq<byte>)
    requires forall k :: 0 <= k < |stores| ==> stores[k].field < |widths|
    requires base + Offset(widths, |widths|) <= |m|
    ensures |r| == |m|
  {
    if stores == [] then m
    else Perform(PerformAll(m, base, widths, stores[..|stores| - 1]), base, widths, stores[|stores| - 1])
  }

  /** `uintNkorr(base + offset)` */
  function FieldValue(m: seq<byte>, base: nat, widths: seq<nat>, i: nat): nat
    requires i < |widths|
    requires base + Offset(widths, |widths|) <= |m|
  {
    OffsetsGrow(widths, i + 1, |widths|);
    Le(m, base + Offset(widths, i), widths[i])
  }

  /** What field i must hold after the stores: the last value stored in it, cut to its width, or what it held before. */
  function Expected(before: nat, widths: seq<nat>, stores: seq<Store>, i: nat): nat
    requires i < |widths|
  {
    if stores == [] then before
    else
      var last := stores[|stores| - 1];
      if last.field == i then last.value % Pow2(8 * widths[i])
      else Expected(before, widths, stores[..|stores| - 1], i)
  }

  lemma {:induction false} OffsetsGrow(widths: seq<nat>, i: nat, j: nat)
    requires i <= j <= |widths|
    ensures Offset(widths, i) <= Offset(widths, j)
  {
    if i < j {
      OffsetsGrow(widths, i, j - 1);
    }
  }

  lemma {:induction false} FieldsApart(widths: seq<nat>, i: nat, j: nat)
    requires i < j < |widths|
    ensures Offset(widths, i) + widths[i] <= Offset(widths, j)
    ensures Offset(widths, j) + widths[j] <= Offset(widths, |widths|)
  {
    var n := |widths|;
    assert Offset(widths, i + 1) == Offset(widths, i) + widths[i];
    assert Offset(widths, j + 1) == Offset(widths, j) + widths[j];
    OffsetsGrow(widths, i + 1, j);
    OffsetsGrow(widths, j + 1, n);
  }

  lemma {:induction false} OneStore(m: seq<byte>, base: nat, widths: seq<nat>, s: Store, i: nat)
    requires s.field < |widths| && i < |widths|
    requires base + Offset(widths, |widths|) <= |m|
    ensures FieldValue(Perform(m, base, widths, s), base, widths, i)
         == if i == s.field then s.value % Pow2(8 * widths[i]) else FieldValue(m, base, widths, i)
  {
    OffsetsGrow(widths, i + 1, |widths|);
    OffsetsGrow(widths, s.field + 1, |widths|);
    if i < s.field {
      FieldsApart(widths, i, s.field);
    } else if s.field < i {
      FieldsApart(widths, s.field, i);
    } else {
      LeOfLeBytes(s.value, widths[i]);
    }
    var p, q, bs := base + Offset(widths, s.field), base + Offset(widths, i), LeBytes(s.value, widths[s.field]);
    SpliceReads(m, p, bs, q, widths[i]);
  }

  /** After any stores in any order, every field reads as the last value stored in it modulo 256^N. */
  lemma {:induction false} LastStoreWins(m: seq<byte>, base: nat, widths: seq<nat>, stores: seq<Store>, i: nat)
    requires i < |widths|
    requires forall k :: 0 <= k < |stores| ==> stores[k].field < |widths|
    requires base + Offset(widths, |widths|) <= |m|
    ensures FieldValue(PerformAll(m, base, widths, stores), base, widths, i)
         == Expected(FieldValue(m, base, widths, i), widths, stores, i)
  {
    if stores != [] {
      var earlier := stores[..|stores| - 1];
      LastStoreWins(m, base, widths, earlier, i);
      OneStore(PerformAll(m, base, widths, earlier), base, widths, stores[|stores| - 1], i);
    }
  }

  /** No byte outside the record changes. */
  lemma {:induction false} OutsideUntouched(m: seq<byte>, base: nat, widths: seq<nat>, stores: seq<Store>)
    requires forall k :: 0 <= k < |stores| ==> stores[k].field < |widths|
    requires base + Offset(widths, |widths|) <= |m|
    ensures var r, end := PerformAll(m, base, widths, stores), base + Offset(widths, |widths|);
            r[..base] == m[..base] && r[end..] == m[end..]
  {
    if stores != [] {
      var s := stores[|stores| - 1];
      OutsideUntouched(m, base, widths, stores[..|stores| - 1]);
      OffsetsGrow(widths, s.field + 1, |widths|);
      var end := base + Offset(widths, |widths|);
      var prev := PerformAll(m, base, widths, stores[..|stores| - 1]);
      var r := Perform(prev, base, widths, s);
      assert r[..base] == prev[..base];
      assert r[end..] == prev[end..];
    }
  }

  /** The record written field by field in order. */
  function InOrder(values: seq<int>): seq<Store> {
    seq(|values|, i requires 0 <= i < |values| => Store(i, values[i]))
  }

  /** Loading a record back gives each value modulo 256^N. */
  lemma {:induction false} RecordRoundTrip(m: seq<byte>, base: nat, widths: seq<nat>, values: seq<int>, i: nat)
    requires |values| == |widths| && i < |widths|
    requires base + Offset(widths, |widths|) <= |m|
    ensures FieldValue(PerformAll(m, base, widths, InOrder(values)), base, widths, i) == values[i] % Pow2(8 * widths[i])
  {
    LastStoreWins(m, base, widths, InOrder(values), i);
    OnlyStore(FieldValue(m, base, widths, i), widths, values, i, |values|);
    assert InOrder(values)[..|values|] == InOrder(values);
  }

  lemma {:induction false} OnlyStore(before: nat, widths: seq<nat>, values: seq<int>, i: nat, n: nat)
    requires i < |widths| && i < n <= |values|
    ensures Expected(before, widths, InOrder(values)[..n], i) == values[i] % Pow2(8 * widths[i])
    decreases n
  {
    var stores := InOrder(values);
    assert stores[..n][..n - 1] == stores[..n - 1];
    if i < n - 1 {
      OnlyStore(before, widths, values, i, n - 1);
    }
  }
}
