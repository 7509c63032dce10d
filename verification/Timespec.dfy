// The timespec helpers of my_pthread.h. `time_t` has 64 bits (SIZEOF_TIME_T), and so
// have the nanosecond counts (`ulonglong`); `ulong` is taken at its smallest width, 32.
module Timespec {
  import opened Bits

  const BILLION: nat := 1_000_000_000
  const WORD: nat := 0x1_0000_0000_0000_0000

  datatype Time = Time(sec: int, nsec: int)

  class TimespecVar {
    var tvSec: int
    var tvNsec: int

    function Value(): Time
      reads this
    {
      Time(tvSec, tvNsec)
    }

    /** set_timespec_time_nsec */
    method SetTimeNsec(nsec: nat)
      requires nsec < WORD
      modifies this
      ensures Value() == Split(nsec)
      ensures tvSec * 1_000_000_000 + tvNsec == nsec && 0 <= tvNsec < 1_000_000_000
    {
      CastsKeep(nsec);
      tvSec := Signed(nsec / BILLION, UINT64);
      tvNsec := Trunc(nsec % BILLION, UINT32);
    }

    /** set_timespec_nsec; `micros` is the clock, `my_hrtime_coarse().val` */
    method SetTimespecNsec(micros: nat, nsec: nat)
      modifies this
      ensures Value() == Deadline(micros, nsec)
      ensures tvSec * 1_000_000_000 + tvNsec == (micros * 1000 + nsec) % 0x1_0000_0000_0000_0000
      ensures 0 <= tvNsec < 1_000_000_000
    {
      SetTimeNsec((micros * 1000 + nsec) % WORD);
    }

    /** set_timespec */
    method SetTimespec(micros: nat, sec: nat)
      modifies this
      ensures tvSec * 1_000_000_000 + tvNsec == (micros * 1000 + sec * 1_000_000_000) % 0x1_0000_0000_0000_0000
      ensures 0 <= tvNsec < 1_000_000_000
    {
      SetTimespecNsec(micros, sec * BILLION % WORD);
      SumWraps(micros * 1000, sec * BILLION);
    }
  }

  /** Wrapping one summand first changes nothing. */
  lemma {:induction false} SumWraps(a: nat, b: nat)
    ensures (a + b % WORD) % WORD == (a + b) % WORD
  {
  }

  lemma {:induction false} CastsKeep(nsec: nat)
    requires nsec < WORD
    ensures Signed(nsec / BILLION, UINT64) == nsec / BILLION
    ensures Trunc(nsec % BILLION, UINT32) == nsec % BILLION
  {
    Widths();
    SignedKeepsIff(nsec / BILLION, UINT64);
    assert Pow2(UINT64) == 2 * Pow2(UINT64 - 1);
    TruncSmall(nsec % BILLION, UINT32);
  }

  /** The normalised time of a nanosecond count. */
  function Split(nsec: nat): Time {
    Time(nsec / BILLION, nsec % BILLION)
  }

  /** cmp_timespec */
  function Cmp(t1: Time, t2: Time): int {
    if t1.sec > t2.sec || (t1.sec == t2.sec && t1.nsec > t2.nsec) then 1
    else if t1.sec < t2.sec || (t1.sec == t2.sec && t1.nsec < t2.nsec) then -1
    else 0
  }

  function Sign(x: int): int {
    if x > 0 then 1 else if x < 0 then -1 else 0
  }

  /** Comparing two normalised times compares the counts they were made from. */
  lemma {:induction false} CmpIsSign(a: nat, b: nat)
    ensures Cmp(Split(a), Split(b)) == Sign(a - b)
  {
    assert a == (a / BILLION) * BILLION + a % BILLION;
    assert b == (b / BILLION) * BILLION + b % BILLION;
  }

  /** A total order, normalised or not. */
  lemma {:induction false} CmpIsOrder(s: Time, t: Time, u: Time)
    ensures Cmp(s, t) == -Cmp(t, s)
    ensures Cmp(s, t) == 0 <==> s == t
    ensures Cmp(s, t) <= 0 && Cmp(t, u) <= 0 ==> Cmp(s, u) <= 0
  {
  }

  /** set_timespec_nsec: the time `delta` nanoseconds after a microsecond clock reading, on 64 bits. */
  function Deadline(micros: nat, delta: nat): Time {
    Split((micros * 1000 + delta) % WORD)
  }

  /** Two timeouts taken at one clock reading expire in the order of their lengths exactly when both or
      neither of the 64-bit sums wrap. */
  lemma {:induction false} TimeoutOrderIff(micros: nat, x: nat, y: nat)
    requires x < WORD && y < WORD
    ensures var base := (micros * 1000) % WORD;
            Cmp(Deadline(micros, x), Deadline(micros, y)) == Sign(x - y) <==> (base + x >= WORD <==> base + y >= WORD)
  {
    var base := (micros * 1000) % WORD;
    CmpIsSign((micros * 1000 + x) % WORD, (micros * 1000 + y) % WORD);
    WrapsOnce(micros * 1000, x);
    WrapsOnce(micros * 1000, y);
  }

  lemma {:induction false} WrapsOnce(a: nat, x: nat)
    requires x < WORD
    ensures (a + x) % WORD == if a % WORD + x >= WORD then a % WORD + x - WORD else a % WORD + x
  {
  }
}
