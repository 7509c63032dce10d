// When UnregisterClass is called, and whether windows of the class then still exist.
module WindowRelease {
  import opened WindowModel
  import opened WindowRuns
  import opened WindowDangling
  import opened WindowHandles

  /** The class was unregistered while a window existed. */
  predicate IsEarly<O>(e: Event<O>) {
    e.UnregisterCall? && e.windows != {}
  }

  ghost predicate EarlyIn<O>(log: seq<Event<O>>) {
    exists i :: 0 <= i < |log| && IsEarly(log[i])
  }

  function Unregisters<O>(log: seq<Event<O>>): nat {
    if log == [] then 0 else Unregisters(log[..|log| - 1]) + if log[|log| - 1].UnregisterCall? then 1 else 0
  }

  lemma {:induction false} OneMore<O>(log: seq<Event<O>>, e: Event<O>)
    ensures EarlyIn(log + [e]) <==> EarlyIn(log) || IsEarly(e)
    ensures Unregisters(log + [e]) == Unregisters(log) + if e.UnregisterCall? then 1 else 0
  {
    assert (log + [e])[..|log|] == log && (log + [e])[|log|] == e;
    forall i | 0 <= i < |log|
      ensures (log + [e])[i] == log[i]
    {
    }
  }

  /** The log went on with n calls to UnregisterClass, one of them early exactly when `early` says so. */
  ghost predicate Went<O>(log: seq<Event<O>>, log': seq<Event<O>>, n: nat, early: bool) {
    && Unregisters(log') == Unregisters(log) + n
    && (EarlyIn(log') <==> EarlyIn(log) || early)
  }

  lemma {:induction false} QuietLog<O>(log: seq<Event<O>>, e: Event<O>)
    requires !e.UnregisterCall?
    ensures Went(log, log + [e], 0, false)
  {
    OneMore(log, e);
  }

  /** WM_DESTROY unregisters the class when no object is live, and its own window exists then. */
  lemma {:induction false} WmDestroyWent<O>(w: World<O>, o: O)
    requires o in w.objs
    ensures Went(w.log, AfterWmDestroy(w, o).log, if w.count == 0 then 1 else 0, w.count == 0 && w.userData.Keys != {})
  {
    var e := UnregisterCall(w.live, w.userData.Keys);
    var log1 := if w.count == 0 then w.log + [e] else w.log;
    OneMore(w.log, e);
    OneMore(log1, QuitCall);
    WmDestroyLog(w, o, log1);
  }

  lemma {:induction false} WmDestroyLog<O>(w: World<O>, o: O, log1: seq<Event<O>>)
    requires o in w.objs
    requires log1 == if w.count == 0 then w.log + [UnregisterCall(w.live, w.userData.Keys)] else w.log
    ensures AfterWmDestroy(w, o).log == if w.objs[o].quitOnClose then log1 + [QuitCall] else log1
  {
    assert w.log + [] == w.log && log1 + [] == log1;
  }

  /** DestroyWindow of a window whose object, if it has one, exists. */
  lemma {:induction false} DestroyWindowWent<O>(w: World<O>, h: Hwnd, ok: bool)
    requires h in w.userData ==> w.userData[h] in w.objs || w.count != 0
    ensures var gone := ok && h in w.userData;
            && Went(w.log, DestroyWindow(w, h, ok).log, if gone && w.count == 0 then 1 else 0, gone && w.count == 0)
            && DestroyWindow(w, h, ok).count == w.count
            && DestroyWindow(w, h, ok).live == w.live
            && DestroyWindow(w, h, ok).userData == if gone then w.userData - {h} else w.userData
  {
    DestroyWindowClosed(w, h, ok);
    if ok && h in w.userData && w.userData[h] in w.objs {
      WmDestroyWent(w, w.userData[h]);
    }
  }

  /** The destroyed window is one of those that exist at the first of two calls. */
  lemma {:induction false} DestroyWent<O>(w: World<O>, o: O, ok: bool)
    requires OwnHandle(w, o) && NULL !in w.userData
    ensures var gone := ok && w.objs[o].handle in w.userData;
            Went(w.log, Destroy(w, o, ok).log, if w.count != 0 then 0 else if gone then 2 else 1,
                 w.count == 0 && w.userData != map[])
  {
    var h := w.objs[o].handle;
    if h == NULL {
      DestroyEndsWent(w);
    } else {
      var w0 := Log(w, DestroyCall(h));
      var w1 := DestroyWindow(w0, h, ok);
      QuietLog(w.log, DestroyCall(h));
      DestroyWindowWent(w0, h, ok);
      DestroyEndsWent(SetHandle(w1, o, NULL));
    }
  }

  /** The end of Destroy: the class goes when no object is live. */
  lemma {:induction false} DestroyEndsWent<O>(w: World<O>)
    ensures var log' := if w.count == 0 then w.log + [UnregisterCall(w.live, w.userData.Keys)] else w.log;
            Went(w.log, log', if w.count == 0 then 1 else 0, w.count == 0 && w.userData != map[])
  {
    OneMore(w.log, UnregisterCall(w.live, w.userData.Keys));
    assert w.userData.Keys == {} <==> w.userData == map[];
  }

  /** With an object live nothing is unregistered. */
  lemma {:induction false} QuietDestroy<O>(w: World<O>, o: O, ok: bool)
    requires o in w.objs && w.count != 0
    ensures Went(w.log, Destroy(w, o, ok).log, 0, false)
    ensures Destroy(w, o, ok).count == w.count
  {
    var h := w.objs[o].handle;
    if h != NULL {
      QuietLog(w.log, DestroyCall(h));
      DestroyWindowWent(Log(w, DestroyCall(h)), h, ok);
    }
  }

  lemma {:induction false} QuietCreate<O>(w: World<O>, o: O, creation: Creation, ok: bool)
    requires o in w.objs && w.count != 0
    ensures Went(w.log, Create(w, o, creation, ok).log, 0, false)
  {
    QuietDestroy(w, o, ok);
    var w1 := Destroy(w, o, ok).(registered := true);
    QuietLog(w1.log, CreateCall(true));
    if creation.Torn? {
      var w3 := NcCreate(Log(w1, CreateCall(true)), o, creation.h);
      WmDestroyClosed(w3, o, ok);
      WmDestroyWent(w3, o);
    }
  }

  lemma {:induction false} QuietMessage<O>(w: World<O>, h: Hwnd, msg: Message, ok: bool)
    requires Inv(w)
    ensures Went(w.log, WndProc(w, h, msg, ok).log, 0, false)
  {
    if h in w.userData && w.userData[h] in w.objs {
      var o := w.userData[h];
      assert o in w.live && w.count != 0;
      match msg {
        case WmDestroy =>
          WmDestroyClosed(w, o, ok);
          WmDestroyWent(w, o);
        case WmClose => DestroyWindowWent(w, w.objs[o].handle, ok);
        case _ =>
      }
    }
  }

  /** Deletion of the last object while a window exists. */
  predicate DeletesTooSoon<O(==)>(w: World<O>, op: Op<O>) {
    op.OpDelete? && w.live == {op.o} && w.userData != map[]
  }

  predicate DeletesLast<O(==)>(w: World<O>, op: Op<O>) {
    op.OpDelete? && w.live == {op.o}
  }

  /** Twice when an operation deletes the last object together with its window, once when it deletes the last object
      otherwise, and else never. */
  function UnregistersBy<O(==)>(w: World<O>, op: Op<O>): nat {
    if !DeletesLast(w, op) then 0
    else if op.ok && op.o in w.objs && w.objs[op.o].handle in w.userData then 2
    else 1
  }

  lemma {:induction false} DeleteWent<O>(w: World<O>, o: O, ok: bool)
    requires Inv(w) && o in w.live && OwnHandle(w, o)
    ensures var op := OpDelete(o, ok);
            Went(w.log, Delete(w, o, ok).log, UnregistersBy(w, op), DeletesTooSoon(w, op))
  {
    var w1 := w.(live := w.live - {o}, count := w.count - 1);
    assert w1.count == |w1.live|;
    assert w1.live == {} <==> w.live == {o};
    assert OwnHandle(w1, o);
    DestroyWent(w1, o, ok);
  }

  /** For every operation in every state that a run can reach: how often it calls UnregisterClass, and when it does
      so while a window exists. */
  lemma {:induction false} StepWent<O>(w: World<O>, op: Op<O>, dropped: set<Hwnd>)
    requires Inv(w) && HandlesKnown(w, dropped) && Enabled(w, op)
    ensures Went(w.log, Step(w, op).log, UnregistersBy(w, op), DeletesTooSoon(w, op))
  {
    match op {
      case OpNew(o) =>
      case OpDelete(o, ok) => DeleteWent(w, o, ok);
      case OpCreate(o, c, ok) => QuietCreate(w, o, c, ok);
      case OpDestroy(o, ok) => QuietDestroy(w, o, ok);
      case OpSetQuitOnClose(o, quit) =>
      case OpSetChildContent(o, content) =>
      case OpSend(h, msg, ok) => QuietMessage(w, h, msg, ok);
      case OpSystemDestroy(h) => QuietMessage(w, h, WmDestroy, true);
    }
  }

  // ---- Runs ----

  /** Operation k of the run was possible and deleted the last object while a window existed. */
  predicate TooSoonAt<O(==)>(ops: seq<Op<O>>, k: nat)
    requires k < |ops|
  {
    var r := Run(Start<O>(), ops[..k]);
    Enabled(r, ops[k]) && DeletesTooSoon(r, ops[k])
  }

  lemma {:induction false} LastStepWent<O>(ops: seq<Op<O>>)
    requires ops != []
    ensures var n := |ops| - 1;
            EarlyIn(Run(Start<O>(), ops).log) <==> EarlyIn(Run(Start<O>(), ops[..n]).log) || TooSoonAt(ops, n)
  {
    var front := ops[..|ops| - 1];
    var r := Run(Start<O>(), front);
    if Enabled(r, ops[|ops| - 1]) {
      RunKeeps(front);
      RunKnown(front);
      StepWent(r, ops[|ops| - 1], DroppedIn(front));
    }
  }

  ghost predicate TooSoonIn<O>(ops: seq<Op<O>>) {
    exists k :: 0 <= k < |ops| && TooSoonAt(ops, k)
  }

  lemma {:induction false} LaterOrBefore<O>(ops: seq<Op<O>>)
    requires ops != []
    ensures TooSoonIn(ops) <==> TooSoonIn(ops[..|ops| - 1]) || TooSoonAt(ops, |ops| - 1)
  {
    var n := |ops| - 1;
    forall k | 0 <= k < n
      ensures TooSoonAt(ops[..n], k) <==> TooSoonAt(ops, k)
    {
      assert ops[..n][..k] == ops[..k];
    }
  }

  /** UnregisterClass must be called only when no window exists. A run keeps to this exactly when it never deletes
      its last object while a window exists. */
  lemma {:induction false} EarlyIff<O>(ops: seq<Op<O>>)
    ensures EarlyIn(Run(Start<O>(), ops).log) <==> TooSoonIn(ops)
  {
    if ops != [] {
      EarlyIff(ops[..|ops| - 1]);
      LastStepWent(ops);
      LaterOrBefore(ops);
    }
  }

  /** While no window is forgotten or dropped, GetHandle of the last object tells whether its deletion is too soon. */
  lemma {:induction false} LastHandleTells<O>(ops: seq<Op<O>>, o: O, ok: bool)
    requires !ForgottenIn(Start<O>(), ops) && DroppedIn(ops) == {}
    ensures var w := Run(Start<O>(), ops);
            w.live == {o} ==> o in w.objs && (DeletesTooSoon(w, OpDelete(o, ok)) <==> w.objs[o].handle != NULL)
  {
    RunKeeps(ops);
    RunKnown(ops);
    RunNoDangling(ops);
    var w := Run(Start<O>(), ops);
    if w.live == {o} && w.userData != map[] {
      var h :| h in w.userData;
      assert w.userData[h] in w.live;
    }
  }
}
