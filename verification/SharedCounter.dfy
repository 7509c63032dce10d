// The counter macros of my_pthread.h as steps of any number of threads. A thread
// runs a list of updates; a schedule says which thread moves next.
module CounterUpdates {
  import opened Bits

  /** thread_safe_increment, _decrement, _add and _sub, and their statistic_ namesakes */
  datatype Update = Increment | Decrement | Add(c: int) | Sub(c: int)

  function Delta(u: Update): int {
    match u
    case Increment => 1
    case Decrement => -1
    case Add(c) => c
    case Sub(c) => -c
  }

  // ---- What a list of updates comes to, kind by kind ----

  function Increments(us: seq<Update>): nat {
    if us == [] then 0 else Increments(us[..|us| - 1]) + if us[|us| - 1].Increment? then 1 else 0
  }

  function Decrements(us: seq<Update>): nat {
    if us == [] then 0 else Decrements(us[..|us| - 1]) + if us[|us| - 1].Decrement? then 1 else 0
  }

  function Added(us: seq<Update>): int {
    if us == [] then 0 else Added(us[..|us| - 1]) + if us[|us| - 1].Add? then us[|us| - 1].c else 0
  }

  function Subtracted(us: seq<Update>): int {
    if us == [] then 0 else Subtracted(us[..|us| - 1]) + if us[|us| - 1].Sub? then us[|us| - 1].c else 0
  }

  /** The increments and all c added, less the decrements and all c subtracted. */
  function Sum(us: seq<Update>): int {
    Increments(us) - Decrements(us) + Added(us) - Subtracted(us)
  }

  lemma {:induction false} SumSnoc(us: seq<Update>, u: Update)
    ensures Sum(us + [u]) == Sum(us) + Delta(u)
  {
    assert (us + [u])[..|us|] == us;
  }

  lemma {:induction false} AddMod(x: int, y: int, modulus: nat)
    requires modulus > 0
    ensures (x % modulus + y) % modulus == (x + y) % modulus
  {
    var q, r := x / modulus, (x % modulus + y) % modulus;
    var p := (x % modulus + y) / modulus;
    assert x + y == q * modulus + (p * modulus + r);
    assert (q + p) * modulus == q * modulus + p * modulus;
    DivModUnique(x + y, modulus, q + p, r);
  }
}

// The form with a mutex: lock, load, store, unlock.
module LockedCounter {
  import opened Bits
  import opened CounterUpdates

  datatype Owner = Free | HeldBy(thread: nat)

  /** Where a thread is within one update. */
  datatype Phase = Outside | Locked | Loaded(value: nat) | Stored

  datatype Thread = Thread(todo: seq<Update>, done: seq<Update>, phase: Phase)

  datatype State = State(counter: nat, owner: Owner, threads: seq<Thread>)

  function Set(s: State, t: nat, th: Thread): State
    requires t < |s.threads|
  {
    s.(threads := s.threads[t := th])
  }

  /** Only the lock can block: a thread with nothing left does not move. */
  predicate Enabled(s: State, t: nat) {
    && t < |s.threads|
    && s.threads[t].todo != []
    && (s.threads[t].phase.Outside? ==> s.owner.Free?)
  }

  /** One step of thread t; `modulus` is the number of values of the counter's type. */
  function Step(s: State, t: nat, modulus: nat): State
    requires Enabled(s, t) && modulus > 0
  {
    var th := s.threads[t];
    match th.phase
    case Outside => Set(s, t, th.(phase := Locked)).(owner := HeldBy(t))
    case Locked => Set(s, t, th.(phase := Loaded(s.counter)))
    case Loaded(v) => Set(s, t, th.(phase := Stored)).(counter := (v + Delta(th.todo[0])) % modulus)
    case Stored => Set(s, t, Thread(th.todo[1..], th.done + [th.todo[0]], Outside)).(owner := Free)
  }

  /** A schedule may name threads that cannot move; then nothing happens. */
  function Run(s: State, schedule: seq<nat>, modulus: nat): State
    requires modulus > 0
  {
    if schedule == [] then s
    else
      var r := Run(s, schedule[..|schedule| - 1], modulus);
      var t := schedule[|schedule| - 1];
      if Enabled(r, t) then Step(r, t, modulus) else r
  }

  predicate Initial(s: State) {
    && s.owner.Free?
    && forall t :: 0 <= t < |s.threads| ==> s.threads[t].done == [] && s.threads[t].phase.Outside?
  }

  predicate AllDone(s: State) {
    forall t :: 0 <= t < |s.threads| ==> s.threads[t].todo == []
  }

  /** The sum of all updates completed, over the first n threads. */
  function Completed(threads: seq<Thread>, n: nat): int
    requires n <= |threads|
  {
    if n == 0 then 0 else Completed(threads, n - 1) + Sum(threads[n - 1].done)
  }

  /** The sum of all updates, completed or not. */
  function Programmed(threads: seq<Thread>, n: nat): int
    requires n <= |threads|
  {
    if n == 0 then 0 else Programmed(threads, n - 1) + Sum(threads[n - 1].done + threads[n - 1].todo)
  }

  // ---- What every step keeps ----

  /** The delta that is stored but whose update has not completed yet. */
  function InFlight(s: State): int {
    if s.owner.HeldBy? && s.owner.thread < |s.threads| && s.threads[s.owner.thread].phase.Stored?
       && s.threads[s.owner.thread].todo != []
    then Delta(s.threads[s.owner.thread].todo[0]) else 0
  }

  ghost predicate MutualExclusion(s: State) {
    forall t :: 0 <= t < |s.threads| ==> (!s.threads[t].phase.Outside? <==> s.owner == HeldBy(t))
  }

  ghost predicate CounterHolds(s: State, start: int, modulus: nat)
    requires modulus > 0
  {
    s.counter == (start + Completed(s.threads, |s.threads|) + InFlight(s)) % modulus
  }

  ghost predicate Inv(s: State, start: int, modulus: nat)
    requires modulus > 0
  {
    && MutualExclusion(s)
    && (s.owner.HeldBy? ==> s.owner.thread < |s.threads|)
    && (forall t :: 0 <= t < |s.threads| && !s.threads[t].phase.Outside? ==> s.threads[t].todo != [])
    && (forall t :: 0 <= t < |s.threads| && s.threads[t].phase.Loaded? ==> s.threads[t].phase.value == s.counter)
    && CounterHolds(s, start, modulus)
  }

  lemma {:induction false} CompletedUpdate(threads: seq<Thread>, t: nat, th: Thread, n: nat)
    requires t < |threads| && n <= |threads|
    ensures Completed(threads[t := th], n) ==
            Completed(threads, n) + if t < n then Sum(th.done) - Sum(threads[t].done) else 0
    decreases n
  {
    if n > 0 {
      CompletedUpdate(threads, t, th, n - 1);
    }
  }

  lemma {:induction false} StepKeepsExclusion(s: State, t: nat, start: int, modulus: nat)
    requires modulus > 0 && Enabled(s, t) && Inv(s, start, modulus)
    ensures var s' := Step(s, t, modulus);
            && MutualExclusion(s')
            && (s'.owner.HeldBy? ==> s'.owner.thread < |s'.threads|)
            && (forall u :: 0 <= u < |s'.threads| && !s'.threads[u].phase.Outside? ==> s'.threads[u].todo != [])
            && (forall u :: 0 <= u < |s'.threads| && s'.threads[u].phase.Loaded? ==>
                  s'.threads[u].phase.value == s'.counter)
  {
  }

  /** Lock and load complete nothing. */
  lemma {:induction false} EnterKeepsCounter(s: State, t: nat, start: int, modulus: nat)
    requires modulus > 0 && Enabled(s, t) && Inv(s, start, modulus)
    requires s.threads[t].phase.Outside? || s.threads[t].phase.Locked?
    ensures CounterHolds(Step(s, t, modulus), start, modulus)
  {
    CompletedUpdate(s.threads, t, Step(s, t, modulus).threads[t], |s.threads|);
  }

  /** After the store the update is in flight. */
  lemma {:induction false} StoreKeepsCounter(s: State, t: nat, start: int, modulus: nat)
    requires modulus > 0 && Enabled(s, t) && Inv(s, start, modulus) && s.threads[t].phase.Loaded?
    ensures CounterHolds(Step(s, t, modulus), start, modulus)
  {
    var s', n, d := Step(s, t, modulus), |s.threads|, Delta(s.threads[t].todo[0]);
    CompletedUpdate(s.threads, t, s'.threads[t], n);
    assert InFlight(s) == 0 && InFlight(s') == d;
    AddMod(start + Completed(s.threads, n), d, modulus);
  }

  /** At the unlock it is completed. */
  lemma {:induction false} UnlockKeepsCounter(s: State, t: nat, start: int, modulus: nat)
    requires modulus > 0 && Enabled(s, t) && Inv(s, start, modulus) && s.threads[t].phase.Stored?
    ensures CounterHolds(Step(s, t, modulus), start, modulus)
  {
    var th, s', n := s.threads[t], Step(s, t, modulus), |s.threads|;
    CompletedUpdate(s.threads, t, s'.threads[t], n);
    SumSnoc(th.done, th.todo[0]);
    assert Completed(s'.threads, n) == Completed(s.threads, n) + InFlight(s);
  }

  lemma {:induction false} StepKeepsCounter(s: State, t: nat, start: int, modulus: nat)
    requires modulus > 0 && Enabled(s, t) && Inv(s, start, modulus)
    ensures CounterHolds(Step(s, t, modulus), start, modulus)
  {
    match s.threads[t].phase {
      case Outside => EnterKeepsCounter(s, t, start, modulus);
      case Locked => EnterKeepsCounter(s, t, start, modulus);
      case Loaded(_) => StoreKeepsCounter(s, t, start, modulus);
      case Stored => UnlockKeepsCounter(s, t, start, modulus);
    }
  }

  lemma {:induction false} StepKeepsInv(s: State, t: nat, start: int, modulus: nat)
    requires modulus > 0 && Enabled(s, t) && Inv(s, start, modulus)
    ensures Inv(Step(s, t, modulus), start, modulus)
  {
    StepKeepsExclusion(s, t, start, modulus);
    StepKeepsCounter(s, t, start, modulus);
  }

  lemma {:induction false} RunKeepsInv(s: State, schedule: seq<nat>, modulus: nat)
    requires modulus > 0 && Initial(s) && s.counter < modulus
    ensures Inv(Run(s, schedule, modulus), s.counter, modulus)
  {
    if schedule == [] {
      NothingCompleted(s.threads, |s.threads|);
      DivModUnique(s.counter, modulus, 0, s.counter);
    } else {
      var r := Run(s, schedule[..|schedule| - 1], modulus);
      var t := schedule[|schedule| - 1];
      RunKeepsInv(s, schedule[..|schedule| - 1], modulus);
      if Enabled(r, t) {
        StepKeepsInv(r, t, s.counter, modulus);
      }
    }
  }

  lemma {:induction false} NothingCompleted(threads: seq<Thread>, n: nat)
    requires n <= |threads|
    requires forall t :: 0 <= t < |threads| ==> threads[t].done == []
    ensures Completed(threads, n) == 0
  {
    if n > 0 {
      NothingCompleted(threads, n - 1);
    }
  }

  /** In every interleaving, whenever the mutex is free the counter is its start value plus all completed
      updates, modulo the word size; and never is more than one thread between lock and unlock. */
  lemma {:induction false} CounterIsExact(s: State, schedule: seq<nat>, modulus: nat)
    requires modulus > 0 && Initial(s) && s.counter < modulus
    ensures var r := Run(s, schedule, modulus);
            && MutualExclusion(r)
            && (r.owner.Free? ==> r.counter == (s.counter + Completed(r.threads, |r.threads|)) % modulus)
  {
    RunKeepsInv(s, schedule, modulus);
  }

  // ---- Programs are neither lost nor repeated ----

  ghost predicate SamePrograms(s: State, r: State) {
    && |r.threads| == |s.threads|
    && forall t :: 0 <= t < |s.threads| ==>
         r.threads[t].done + r.threads[t].todo == s.threads[t].done + s.threads[t].todo
  }

  lemma {:induction false} RunKeepsPrograms(s: State, schedule: seq<nat>, modulus: nat)
    requires modulus > 0
    ensures SamePrograms(s, Run(s, schedule, modulus))
  {
    if schedule != [] {
      var r := Run(s, schedule[..|schedule| - 1], modulus);
      var t := schedule[|schedule| - 1];
      RunKeepsPrograms(s, schedule[..|schedule| - 1], modulus);
      if Enabled(r, t) {
        var th := r.threads[t];
        assert th.done + [th.todo[0]] + th.todo[1..] == th.done + th.todo;
      }
    }
  }

  lemma {:induction false} SameProgramsSameSum(a: seq<Thread>, b: seq<Thread>, n: nat)
    requires n <= |a| == |b|
    requires forall t :: 0 <= t < |a| ==> b[t].done + b[t].todo == a[t].done + a[t].todo
    ensures Programmed(a, n) == Programmed(b, n)
  {
    if n > 0 {
      SameProgramsSameSum(a, b, n - 1);
    }
  }

  lemma {:induction false} AllCompleted(threads: seq<Thread>, n: nat)
    requires n <= |threads|
    requires forall t :: 0 <= t < |threads| ==> threads[t].todo == []
    ensures Completed(threads, n) == Programmed(threads, n)
  {
    if n > 0 {
      AllCompleted(threads, n - 1);
      assert threads[n - 1].done + threads[n - 1].todo == threads[n - 1].done;
    }
  }

  /** Every schedule that finishes all programs ends with the same counter: no update is lost. */
  lemma {:induction false} EveryFinishIsTheSame(s: State, schedule: seq<nat>, modulus: nat)
    requires modulus > 0 && Initial(s) && s.counter < modulus
    requires AllDone(Run(s, schedule, modulus))
    ensures Run(s, schedule, modulus).counter == (s.counter + Programmed(s.threads, |s.threads|)) % modulus
  {
    var r := Run(s, schedule, modulus);
    RunKeepsInv(s, schedule, modulus);
    RunKeepsPrograms(s, schedule, modulus);
    SameProgramsSameSum(s.threads, r.threads, |s.threads|);
    AllCompleted(r.threads, |r.threads|);
  }

  // ---- No deadlock ----

  function Remaining(th: Thread): int {
    4 * |th.todo| - (match th.phase case Outside => 0 case Locked => 1 case Loaded(_) => 2 case Stored => 3)
  }

  /** The number of steps still to be taken. */
  function Measure(threads: seq<Thread>, n: nat): int
    requires n <= |threads|
  {
    if n == 0 then 0 else Measure(threads, n - 1) + Remaining(threads[n - 1])
  }

  lemma {:induction false} MeasureUpdate(threads: seq<Thread>, t: nat, th: Thread, n: nat)
    requires t < |threads| && n <= |threads|
    ensures Measure(threads[t := th], n) ==
            Measure(threads, n) + if t < n then Remaining(th) - Remaining(threads[t]) else 0
    decreases n
  {
    if n > 0 {
      MeasureUpdate(threads, t, th, n - 1);
    }
  }

  lemma {:induction false} MeasureNonNegative(threads: seq<Thread>, n: nat)
    requires n <= |threads|
    requires forall t :: 0 <= t < |threads| && !threads[t].phase.Outside? ==> threads[t].todo != []
    ensures 0 <= Measure(threads, n)
  {
    if n > 0 {
      MeasureNonNegative(threads, n - 1);
    }
  }

  /** While work is left some thread can move, and each move brings the end one step nearer. */
  lemma {:induction false} Progress(s: State, start: int, modulus: nat)
    requires modulus > 0 && Inv(s, start, modulus)
    ensures AllDone(s) <==> !exists t: nat :: Enabled(s, t)
    ensures forall t: nat :: Enabled(s, t) ==>
              0 <= Measure(Step(s, t, modulus).threads, |s.threads|) == Measure(s.threads, |s.threads|) - 1
  {
    if !AllDone(s) {
      var t: nat :| t < |s.threads| && s.threads[t].todo != [];
      assert Enabled(s, if s.owner.HeldBy? then s.owner.thread else t);
    }
    forall t: nat | Enabled(s, t)
      ensures 0 <= Measure(Step(s, t, modulus).threads, |s.threads|) == Measure(s.threads, |s.threads|) - 1
    {
      var s' := Step(s, t, modulus);
      MeasureUpdate(s.threads, t, s'.threads[t], |s.threads|);
      StepKeepsExclusion(s, t, start, modulus);
      MeasureNonNegative(s'.threads, |s.threads|);
    }
  }

  lemma {:induction false} RunConcat(s: State, a: seq<nat>, b: seq<nat>, modulus: nat)
    requires modulus > 0
    ensures Run(s, a + b, modulus) == Run(Run(s, a, modulus), b, modulus)
  {
    if b == [] {
      assert a + b == a;
    } else {
      RunConcat(s, a, b[..|b| - 1], modulus);
      assert (a + b)[..|a + b| - 1] == a + b[..|b| - 1];
    }
  }

  /** From every state a run can reach, all programs can still be finished. */
  lemma {:induction false} CanFinish(s: State, start: int, modulus: nat) returns (schedule: seq<nat>)
    requires modulus > 0 && Inv(s, start, modulus)
    ensures AllDone(Run(s, schedule, modulus))
    decreases Measure(s.threads, |s.threads|)
  {
    Progress(s, start, modulus);
    if AllDone(s) {
      schedule := [];
    } else {
      var t: nat :| Enabled(s, t);
      StepKeepsInv(s, t, start, modulus);
      var rest := CanFinish(Step(s, t, modulus), start, modulus);
      schedule := [t] + rest;
      assert Run(s, [t], modulus) == Step(s, t, modulus) by {
        assert [t][..0] == [];
      }
      RunConcat(s, [t], rest, modulus);
    }
  }
}

// The statistic_ form without SAFE_STATISTICS: a load and a store, no mutex.
module StatisticCounter {
  import opened Bits
  import opened CounterUpdates

  /** Between its load and its store a thread holds the value it read; `at` is how many stores came before. */
  datatype Phase = Idle | Loaded(value: nat, at: nat)

  datatype Thread = Thread(todo: seq<Update>, phase: Phase)

  /** An update that was stored, and how many stores came before its load. */
  datatype Store = Store(update: Update, at: nat)

  /** `stored` records the history of the run, in the order of the stores. */
  datatype State = State(counter: nat, threads: seq<Thread>, stored: seq<Store>)

  predicate Enabled(s: State, t: nat) {
    t < |s.threads| && s.threads[t].todo != []
  }

  function Step(s: State, t: nat, modulus: nat): State
    requires Enabled(s, t) && modulus > 0
  {
    var th := s.threads[t];
    match th.phase
    case Idle => s.(threads := s.threads[t := th.(phase := Loaded(s.counter, |s.stored|))])
    case Loaded(v, at) => State((v + Delta(th.todo[0])) % modulus, s.threads[t := Thread(th.todo[1..], Idle)],
                                s.stored + [Store(th.todo[0], at)])
  }

  /** A thread with nothing left does not move. */
  function Move(s: State, t: nat, modulus: nat): State
    requires modulus > 0
  {
    if Enabled(s, t) then Step(s, t, modulus) else s
  }

  function Run(s: State, schedule: seq<nat>, modulus: nat): State
    requires modulus > 0
  {
    if schedule == [] then s
    else Move(Run(s, schedule[..|schedule| - 1], modulus), schedule[|schedule| - 1], modulus)
  }

  predicate Initial(s: State) {
    && s.stored == []
    && forall t :: 0 <= t < |s.threads| ==> s.threads[t].phase.Idle?
  }

  // ---- Which of the stored updates the counter contains ----

  /** No store follows fewer stores than its load. */
  ghost predicate Chained(us: seq<Store>) {
    forall i :: 0 <= i < |us| ==> us[i].at <= i
  }

  function Forgotten(n: nat): (r: seq<bool>)
    ensures |r| == n
  {
    seq(n, _ => false)
  }

  /** The last store counts, with whatever counted when its thread loaded; the stores in between do not. */
  ghost function Kept(us: seq<Store>): (r: seq<bool>)
    requires Chained(us)
    ensures |r| == |us|
  {
    if us == [] then []
    else
      var last := us[|us| - 1];
      Kept(us[..last.at]) + Forgotten(|us| - 1 - last.at) + [true]
  }

  /** The sum of the updates that are kept. */
  function SumKept(us: seq<Store>, kept: seq<bool>): int
    requires |us| == |kept|
  {
    if us == [] then 0
    else SumKept(us[..|us| - 1], kept[..|us| - 1]) + if kept[|us| - 1] then Delta(us[|us| - 1].update) else 0
  }

  /** The updates that are kept, in the order of their stores. */
  function Selected(us: seq<Store>, kept: seq<bool>): seq<Update>
    requires |us| == |kept|
  {
    if us == [] then []
    else Selected(us[..|us| - 1], kept[..|us| - 1]) + if kept[|us| - 1] then [us[|us| - 1].update] else []
  }

  lemma {:induction false} SumOfSelected(us: seq<Store>, kept: seq<bool>)
    requires |us| == |kept|
    ensures SumKept(us, kept) == Sum(Selected(us, kept))
  {
    if us != [] {
      var n := |us| - 1;
      var before := Selected(us[..n], kept[..n]);
      SumOfSelected(us[..n], kept[..n]);
      SumSnoc(before, us[n].update);
      assert before + [] == before;
    }
  }

  /** The value is the start value plus the updates that the stores have kept. */
  ghost predicate Counts(value: nat, us: seq<Store>, start: nat, modulus: nat)
    requires modulus > 0 && Chained(us)
  {
    value == (start + SumKept(us, Kept(us))) % modulus
  }

  ghost predicate LoadCounts(s: State, v: nat, at: nat, start: nat, modulus: nat)
    requires modulus > 0 && Chained(s.stored)
  {
    at <= |s.stored| && Counts(v, s.stored[..at], start, modulus)
  }

  ghost predicate Inv(s: State, start: nat, modulus: nat)
    requires modulus > 0
  {
    && Chained(s.stored)
    && Counts(s.counter, s.stored, start, modulus)
    && forall t :: 0 <= t < |s.threads| && s.threads[t].phase.Loaded? ==>
         LoadCounts(s, s.threads[t].phase.value, s.threads[t].phase.at, start, modulus)
  }

  lemma {:induction false} SumKeptSnoc(us: seq<Store>, kept: seq<bool>, u: Store, b: bool)
    requires |us| == |kept|
    ensures SumKept(us + [u], kept + [b]) == SumKept(us, kept) + if b then Delta(u.update) else 0
  {
    assert (us + [u])[..|us|] == us && (kept + [b])[..|us|] == kept;
  }

  /** Updates that are not kept add nothing. */
  lemma {:induction false} SumForgotten(us: seq<Store>, at: nat, kept: seq<bool>)
    requires at <= |us| && |kept| == at
    ensures SumKept(us, kept + Forgotten(|us| - at)) == SumKept(us[..at], kept)
  {
    if at == |us| {
      assert us[..at] == us && kept + Forgotten(0) == kept;
    } else {
      var front := us[..|us| - 1];
      SumForgotten(front, at, kept);
      assert front[..at] == us[..at];
      assert (kept + Forgotten(|us| - at))[..|us| - 1] == kept + Forgotten(|front| - at);
    }
  }

  lemma {:induction false} KeptSnoc(us: seq<Store>, u: Store)
    requires Chained(us) && u.at <= |us|
    ensures Chained(us + [u])
    ensures Kept(us + [u]) == Kept(us[..u.at]) + Forgotten(|us| - u.at) + [true]
  {
    assert (us + [u])[..u.at] == us[..u.at];
  }

  lemma {:induction false} StoredSum(us: seq<Store>, u: Store)
    requires Chained(us) && u.at <= |us|
    ensures Chained(us + [u])
    ensures SumKept(us + [u], Kept(us + [u])) == SumKept(us[..u.at], Kept(us[..u.at])) + Delta(u.update)
  {
    var before := Kept(us[..u.at]);
    KeptSnoc(us, u);
    SumKeptSnoc(us, before + Forgotten(|us| - u.at), u, true);
    SumForgotten(us, u.at, before);
  }

  lemma {:induction false} StoreCounts(us: seq<Store>, u: Store, v: nat, start: nat, modulus: nat)
    requires modulus > 0 && Chained(us) && u.at <= |us| && Counts(v, us[..u.at], start, modulus)
    ensures Chained(us + [u]) && Counts((v + Delta(u.update)) % modulus, us + [u], start, modulus)
  {
    StoredSum(us, u);
    var before, after := SumKept(us[..u.at], Kept(us[..u.at])), SumKept(us + [u], Kept(us + [u]));
    AddsToValue(v, start + before, Delta(u.update), start + after, modulus);
  }

  lemma {:induction false} AddsToValue(v: nat, x: int, d: int, y: int, modulus: nat)
    requires modulus > 0 && v == x % modulus && y == x + d
    ensures (v + d) % modulus == y % modulus
  {
    AddMod(x, d, modulus);
  }

  lemma {:induction false} StepKeepsInv(s: State, t: nat, start: nat, modulus: nat)
    requires modulus > 0 && Enabled(s, t) && Inv(s, start, modulus)
    ensures Inv(Step(s, t, modulus), start, modulus)
  {
    var s' := Step(s, t, modulus);
    match s.threads[t].phase {
      case Idle =>
        assert s.stored[..|s.stored|] == s.stored;
        assert LoadCounts(s', s.counter, |s.stored|, start, modulus);
      case Loaded(v, at) =>
        assert LoadCounts(s, v, at, start, modulus);
        StoreCounts(s.stored, Store(s.threads[t].todo[0], at), v, start, modulus);
    }
    forall p | 0 <= p < |s'.threads| && s'.threads[p].phase.Loaded? && p != t
      ensures LoadCounts(s', s'.threads[p].phase.value, s'.threads[p].phase.at, start, modulus)
    {
      var v, at := s.threads[p].phase.value, s.threads[p].phase.at;
      assert LoadCounts(s, v, at, start, modulus);
      assert s'.stored[..at] == s.stored[..at];
    }
  }

  lemma {:induction false} RunKeepsInv(s: State, schedule: seq<nat>, modulus: nat)
    requires Initial(s) && s.counter < modulus
    ensures Inv(Run(s, schedule, modulus), s.counter, modulus)
  {
    if schedule == [] {
      DivModUnique(s.counter, modulus, 0, s.counter);
    } else {
      var r := Run(s, schedule[..|schedule| - 1], modulus);
      var t := schedule[|schedule| - 1];
      RunKeepsInv(s, schedule[..|schedule| - 1], modulus);
      if Enabled(r, t) {
        StepKeepsInv(r, t, s.counter, modulus);
      }
    }
  }

  // ---- Which updates are kept, store by store ----

  /** Store j loaded what store i had just left in the counter. */
  predicate LoadedFrom(us: seq<Store>, j: nat, i: nat)
    requires j < |us|
  {
    us[j].at == i + 1
  }

  /** A store is kept exactly when it is the last one, or a store that is kept loaded what it left. */
  lemma {:induction false} KeptIff(us: seq<Store>, i: nat)
    requires Chained(us) && i < |us|
    ensures Kept(us)[i] <==> i == |us| - 1 || exists j :: i < j < |us| && LoadedFrom(us, j, i) && Kept(us)[j]
    decreases |us|
  {
    var n := |us| - 1;
    var at := us[n].at;
    KeptParts(us);
    if i < at {
      var front := us[..at];
      KeptIff(front, i);
      if i == at - 1 {
        assert LoadedFrom(us, n, i) && Kept(us)[n];
      }
      forall j | i < j < at
        ensures LoadedFrom(front, j, i) && Kept(front)[j] <==> LoadedFrom(us, j, i) && Kept(us)[j]
      {
      }
    }
  }

  lemma {:induction false} KeptParts(us: seq<Store>)
    requires Chained(us) && us != []
    ensures var n, at := |us| - 1, us[|us| - 1].at;
            && (forall k :: 0 <= k < at ==> Kept(us)[k] == Kept(us[..at])[k])
            && (forall k :: at <= k < n ==> !Kept(us)[k])
            && Kept(us)[n]
  {
  }

  ghost predicate AllKept(kept: seq<bool>) {
    forall i :: 0 <= i < |kept| ==> kept[i]
  }

  /** No store went over a value newer than the one it had loaded. */
  ghost predicate NoneStale(us: seq<Store>) {
    forall i :: 0 <= i < |us| ==> us[i].at == i
  }

  lemma {:induction false} AllKeptIff(us: seq<Store>)
    requires Chained(us)
    ensures AllKept(Kept(us)) <==> NoneStale(us)
  {
    if us != [] {
      var n := |us| - 1;
      KeptParts(us);
      if us[n].at == n {
        AllKeptIff(us[..n]);
        OneMoreKept(us);
      } else {
        assert !Kept(us)[us[n].at];
      }
    }
  }

  lemma {:induction false} OneMoreKept(us: seq<Store>)
    requires Chained(us) && us != [] && us[|us| - 1].at == |us| - 1
    ensures AllKept(Kept(us)) <==> AllKept(Kept(us[..|us| - 1]))
    ensures NoneStale(us) <==> NoneStale(us[..|us| - 1])
  {
    var n := |us| - 1;
    KeptParts(us);
    forall i | 0 <= i < n
      ensures us[..n][i] == us[i]
    {
    }
  }

  /** In every interleaving of any updates the counter is its start value plus the updates that the stores have
      kept, modulo the word size. The last one stored is always among them, and all of them are exactly when none
      was stored over a value newer than the one it had loaded. */
  lemma {:induction false} SomeUpdatesCounted(s: State, schedule: seq<nat>, modulus: nat)
    requires Initial(s) && s.counter < modulus
    ensures var r := Run(s, schedule, modulus);
            && Chained(r.stored)
            && r.counter == (s.counter + Sum(Selected(r.stored, Kept(r.stored)))) % modulus
            && (r.stored != [] ==> Kept(r.stored)[|r.stored| - 1])
            && (AllKept(Kept(r.stored)) <==> NoneStale(r.stored))
  {
    RunKeepsInv(s, schedule, modulus);
    AllKeptIff(Run(s, schedule, modulus).stored);
    SumOfSelected(Run(s, schedule, modulus).stored, Kept(Run(s, schedule, modulus).stored));
  }

  // ---- Increments only ----

  ghost predicate OnlyIncrements(us: seq<Update>) {
    forall i :: 0 <= i < |us| ==> us[i].Increment?
  }

  ghost predicate IncrementsStored(us: seq<Store>) {
    forall i :: 0 <= i < |us| ==> us[i].update.Increment?
  }

  lemma {:induction false} StoredAreIncrements(s: State, schedule: seq<nat>, modulus: nat)
    requires modulus > 0 && IncrementsStored(s.stored)
    requires forall t :: 0 <= t < |s.threads| ==> OnlyIncrements(s.threads[t].todo)
    ensures var r := Run(s, schedule, modulus);
            IncrementsStored(r.stored) && forall t :: 0 <= t < |r.threads| ==> OnlyIncrements(r.threads[t].todo)
  {
    if schedule != [] {
      StoredAreIncrements(s, schedule[..|schedule| - 1], modulus);
    }
  }

  lemma {:induction false} AllKeptSnoc(kept: seq<bool>, b: bool)
    ensures AllKept(kept + [b]) <==> AllKept(kept) && b
  {
    forall i | 0 <= i < |kept|
      ensures (kept + [b])[i] == kept[i]
    {
    }
    assert (kept + [b])[|kept|] == b;
  }

  lemma {:induction false} KeptIncrements(us: seq<Store>, kept: seq<bool>)
    requires |us| == |kept| && IncrementsStored(us)
    ensures 0 <= SumKept(us, kept) <= |us|
    ensures SumKept(us, kept) == |us| <==> AllKept(kept)
    ensures us != [] && kept[|us| - 1] ==> SumKept(us, kept) >= 1
  {
    if us != [] {
      var n := |us| - 1;
      KeptIncrements(us[..n], kept[..n]);
      AllKeptSnoc(kept[..n], kept[n]);
      assert kept[..n] + [kept[n]] == kept;
    }
  }

  lemma {:induction false} ModAtMost(x: nat, modulus: nat)
    requires modulus > 0
    ensures x % modulus <= x
  {
  }

  /** In every interleaving of increments the counter has counted n of the stores made, modulo the word size: at
      least one if there were any, and all of them exactly when none went over a value newer than the one it had
      loaded. So the counter never exceeds the start value plus the number of stores. */
  lemma {:induction false} IncrementsCounted(s: State, schedule: seq<nat>, modulus: nat) returns (n: nat)
    requires Initial(s) && s.counter < modulus
    requires forall t :: 0 <= t < |s.threads| ==> OnlyIncrements(s.threads[t].todo)
    ensures var r := Run(s, schedule, modulus);
            && r.counter == (s.counter + n) % modulus
            && r.counter <= s.counter + |r.stored|
            && n <= |r.stored|
            && (r.stored != [] ==> n >= 1)
            && (n == |r.stored| <==> NoneStale(r.stored))
  {
    var r := Run(s, schedule, modulus);
    SomeUpdatesCounted(s, schedule, modulus);
    StoredAreIncrements(s, schedule, modulus);
    KeptIncrements(r.stored, Kept(r.stored));
    SumOfSelected(r.stored, Kept(r.stored));
    n := SumKept(r.stored, Kept(r.stored));
    ModAtMost(s.counter + n, modulus);
  }

  lemma {:induction false} RunMore(s: State, schedule: seq<nat>, t: nat, modulus: nat)
    requires modulus > 0
    ensures Run(s, schedule + [t], modulus) == Move(Run(s, schedule, modulus), t, modulus)
  {
    assert (schedule + [t])[..|schedule|] == schedule;
  }

  lemma {:induction false} FourMoves(s: State, a: nat, b: nat, c: nat, d: nat, modulus: nat)
    requires modulus > 0
    ensures Run(s, [a, b, c, d], modulus) ==
            Move(Move(Move(Move(s, a, modulus), b, modulus), c, modulus), d, modulus)
  {
    RunMore(s, [], a, modulus);
    RunMore(s, [a], b, modulus);
    RunMore(s, [a, b], c, modulus);
    RunMore(s, [a, b, c], d, modulus);
    assert [] + [a] == [a] && [a] + [b] == [a, b] && [a, b] + [c] == [a, b, c] && [a, b, c] + [d] == [a, b, c, d];
  }

  lemma {:induction false} BothStore(s: State, a: Update, b: Update, modulus: nat)
    requires modulus > 0 && s.stored == []
    requires s.threads == [Thread([a], Loaded(s.counter, 0)), Thread([b], Loaded(s.counter, 0))]
    ensures var r := Move(Move(s, 0, modulus), 1, modulus);
            r.stored == [Store(a, 0), Store(b, 0)] && r.counter == (s.counter + Sum([b])) % modulus
  {
    SumSnoc([], b);
    assert [] + [b] == [b];
    assert [] + [Store(a, 0)] == [Store(a, 0)] && [Store(a, 0)] + [Store(b, 0)] == [Store(a, 0), Store(b, 0)];
  }

  /** Some run loses an update, whatever the two updates are: two threads load, then both store. */
  lemma {:induction false} UpdateLost(start: nat, a: Update, b: Update, modulus: nat)
    requires start < modulus
    ensures var r := Run(State(start, [Thread([a], Idle), Thread([b], Idle)], []), [0, 1, 0, 1], modulus);
            r.stored == [Store(a, 0), Store(b, 0)] && r.counter == (start + Sum([b])) % modulus
  {
    var s, loaded := State(start, [Thread([a], Idle), Thread([b], Idle)], []), Loaded(start, 0);
    FourMoves(s, 0, 1, 0, 1, modulus);
    BothStore(State(start, [Thread([a], loaded), Thread([b], loaded)], []), a, b, modulus);
  }
}

// The Windows form: one atomic addition to the `long` at the counter's address, which has 32 bits there.
module InterlockedCounter {
  import opened CounterUpdates

  const LONG: nat := 0x1_0000_0000
  const WIDE: nat := 0x1_0000_0000_0000_0000

  /** InterlockedIncrement, -Decrement or -ExchangeAdd on `(long*) &V`, for a 64-bit V. */
  function Apply(v: nat, u: Update): (r: nat)
    requires v < WIDE
    ensures r < WIDE
  {
    v / LONG * LONG + (v % LONG + Delta(u)) % LONG
  }

  function ApplyAll(v: nat, us: seq<Update>): (r: nat)
    requires v < WIDE
    ensures r < WIDE
  {
    if us == [] then v else Apply(ApplyAll(v, us[..|us| - 1]), us[|us| - 1])
  }

  /** Updates by any threads in any order: the low half counts them modulo 2^32, the high half stays. */
  lemma {:induction false} LowHalfCounts(v: nat, us: seq<Update>)
    requires v < WIDE
    ensures ApplyAll(v, us) % 0x1_0000_0000 == (v + Sum(us)) % 0x1_0000_0000
    ensures ApplyAll(v, us) / 0x1_0000_0000 == v / 0x1_0000_0000
  {
    if us != [] {
      var w, u := ApplyAll(v, us[..|us| - 1]), us[|us| - 1];
      LowHalfCounts(v, us[..|us| - 1]);
      OneApply(w, Delta(u), v + Sum(us[..|us| - 1]));
      SumSnoc(us[..|us| - 1], u);
      assert us[..|us| - 1] + [u] == us;
    }
  }

  lemma {:induction false} OneApply(w: nat, d: int, sum: int)
    requires w % LONG == sum % LONG
    ensures (w / LONG * LONG + (w % LONG + d) % LONG) % LONG == (sum + d) % LONG
    ensures (w / LONG * LONG + (w % LONG + d) % LONG) / LONG == w / LONG
  {
    assert (w % LONG + d) % LONG == (sum + d) % LONG;
  }

  /** So a 64-bit counter is updated as the mutex form updates it exactly when the 64-bit sum keeps its high half. */
  lemma {:induction false} WideCounterIff(v: nat, us: seq<Update>)
    requires v < 0x1_0000_0000_0000_0000
    ensures var sum := (v + Sum(us)) % 0x1_0000_0000_0000_0000;
            ApplyAll(v, us) == sum <==> sum / 0x1_0000_0000 == v / 0x1_0000_0000
  {
    LowHalfCounts(v, us);
    var x, y := ApplyAll(v, us), (v + Sum(us)) % WIDE;
    assert y % LONG == (v + Sum(us)) % LONG;
    assert x == x / LONG * LONG + x % LONG && y == y / LONG * LONG + y % LONG;
  }
}
