// Whether a message can reach an object that is gone: which runs of windows are safe
// from it, and what makes the others unsafe.
module WindowDangling {
  import opened WindowModel
  import opened WindowRuns

  /** Every window that exists belongs to a live object that holds its handle. */
  ghost predicate NoDangling<O>(w: World<O>) {
    && !w.fault
    && forall h :: h in w.userData ==>
         w.userData[h] in w.live && w.userData[h] in w.objs && w.objs[w.userData[h]].handle == h
  }

  /** A failing DestroyWindow makes the object drop the handle of a window that goes on existing. */
  predicate LosesWindow<O(==)>(w: World<O>, o: O, ok: bool) {
    !ok && o in w.objs && w.objs[o].handle in w.userData
  }

  /** An object forgets its window: DestroyWindow fails on it, or a WM_DESTROY reaches it from nowhere. */
  predicate Forgets<O(==)>(w: World<O>, op: Op<O>) {
    match op
    case OpDelete(o, ok) => LosesWindow(w, o, ok)
    case OpCreate(o, _, ok) => LosesWindow(w, o, ok)
    case OpDestroy(o, ok) => LosesWindow(w, o, ok)
    case OpSend(h, msg, _) => msg == WmDestroy && h in w.userData
    case _ => false
  }

  /** Some operation of the run, where it was possible, made an object forget its window. */
  predicate ForgottenIn<O(==)>(w: World<O>, ops: seq<Op<O>>) {
    ops != [] &&
    var r, op := Run(w, ops[..|ops| - 1]), ops[|ops| - 1];
    ForgottenIn(w, ops[..|ops| - 1]) || (Enabled(r, op) && Forgets(r, op))
  }

  // ---- What Destroy does to the windows ----

  lemma {:induction false} DestroyWindowNoDangling<O>(w: World<O>, h: Hwnd)
    requires Inv(w) && NoDangling(w)
    ensures NoDangling(DestroyWindow(w, h, true))
    ensures DestroyWindow(w, h, true).userData == w.userData - {h}
  {
    DestroyWindowClosed(w, h, true);
    if h !in w.userData {
      assert w.userData - {h} == w.userData;
    }
  }

  ghost predicate OwnersHoldHandles<O>(w: World<O>) {
    forall h :: h in w.userData ==> w.userData[h] in w.objs && w.objs[w.userData[h]].handle == h
  }

  /** Exactly the window whose handle the object holds goes. */
  ghost predicate OnlyOwnWindowGone<O>(w: World<O>, o: O, r: World<O>)
    requires o in w.objs
  {
    && r.fault == w.fault
    && r.userData == w.userData - {w.objs[o].handle}
    && r.objs == w.objs[o := w.objs[o].(handle := NULL)]
  }

  lemma {:induction false} NothingToDestroy<O>(w: World<O>, o: O, ok: bool)
    requires o in w.objs && w.objs[o].handle == NULL && NULL !in w.userData
    ensures OnlyOwnWindowGone(w, o, Destroy(w, o, ok))
  {
    assert w.userData - {NULL} == w.userData;
    assert w.objs == w.objs[o := w.objs[o].(handle := NULL)];
  }

  lemma {:induction false} HeldWindowGone<O>(w: World<O>, o: O, ok: bool)
    requires HandlesSound(w, NULL) && OwnersHoldHandles(w) && o in w.objs && w.objs[o].handle != NULL
    requires !LosesWindow(w, o, ok)
    ensures OnlyOwnWindowGone(w, o, Destroy(w, o, ok))
  {
    HolderIsOwner(w, o);
    var w1 := OwnWindowGone(w, o, w.objs[o].handle, ok);
    DestroyEnds(w, o, ok, w1);
  }

  /** Whatever DestroyWindow did to its object, the object then drops its handle. */
  lemma {:induction false} DestroyEnds<O>(w: World<O>, o: O, ok: bool, w1: World<O>)
    requires o in w.objs && w.objs[o].handle != NULL
    requires w1 == DestroyWindow(Log(w, DestroyCall(w.objs[o].handle)), w.objs[o].handle, ok)
    requires w1.objs == w.objs || w1.objs == w.objs[o := w.objs[o].(handle := NULL)]
    ensures var r := Destroy(w, o, ok);
            && r.fault == w1.fault && r.userData == w1.userData
            && r.objs == w.objs[o := w.objs[o].(handle := NULL)]
  {
    Unnamed(w1.objs, w.objs, o);
    IdleDestroy(SetHandle(w1, o, NULL), o, ok);
    assert Destroy(w, o, ok) == Destroy(SetHandle(w1, o, NULL), o, ok);
  }

  lemma {:induction false} DestroyLoses<O>(w: World<O>, o: O)
    requires o in w.objs && w.objs[o].handle != NULL
    ensures var r := Destroy(w, o, false);
            && r.fault == w.fault && r.userData == w.userData
            && r.objs == w.objs[o := w.objs[o].(handle := NULL)]
  {
    DestroyEnds(w, o, false, Log(w, DestroyCall(w.objs[o].handle)));
  }

  lemma {:induction false} IdleDestroy<O>(w: World<O>, o: O, ok: bool)
    requires o in w.objs && w.objs[o].handle == NULL
    ensures var r := Destroy(w, o, ok);
            r.objs == w.objs && r.userData == w.userData && r.fault == w.fault
  {
  }

  lemma {:induction false} Unnamed<O>(a: map<O, Fields>, b: map<O, Fields>, o: O)
    requires o in b && (a == b || a == b[o := b[o].(handle := NULL)])
    ensures a[o := a[o].(handle := NULL)] == b[o := b[o].(handle := NULL)]
  {
  }

  lemma {:induction false} DestroyWindows<O>(w: World<O>, o: O, ok: bool)
    requires HandlesSound(w, NULL) && OwnersHoldHandles(w) && o in w.objs && !LosesWindow(w, o, ok)
    ensures OnlyOwnWindowGone(w, o, Destroy(w, o, ok))
  {
    if w.objs[o].handle == NULL {
      NothingToDestroy(w, o, ok);
    } else {
      HeldWindowGone(w, o, ok);
    }
  }

  lemma {:induction false} OwnWindowGone<O>(w: World<O>, o: O, h: Hwnd, ok: bool) returns (w1: World<O>)
    requires o in w.objs && (h in w.userData ==> ok && w.userData[h] == o)
    ensures w1 == DestroyWindow(Log(w, DestroyCall(h)), h, ok)
    ensures w1.fault == w.fault && w1.userData == w.userData - {h} && w1.objs.Keys == w.objs.Keys
    ensures w1.objs == w.objs || w1.objs == w.objs[o := w.objs[o].(handle := NULL)]
  {
    w1 := DestroyWindow(Log(w, DestroyCall(h)), h, ok);
    DestroyWindowClosed(Log(w, DestroyCall(h)), h, ok);
    if h !in w.userData {
      assert w.userData - {h} == w.userData;
    }
  }

  lemma {:induction false} HolderIsOwner<O>(w: World<O>, o: O)
    requires OwnersHoldHandles(w) && HandlesSound(w, NULL) && o in w.objs && w.objs[o].handle != NULL
    ensures w.objs[o].handle in w.userData ==> w.userData[w.objs[o].handle] == o
  {
  }

  // ---- Steps that forget no window ----

  lemma {:induction false} CreateNoDangling<O>(w: World<O>, o: O, creation: Creation, ok: bool)
    requires Inv(w) && NoDangling(w) && o in w.live && !LosesWindow(w, o, ok)
    requires creation.NoWindow? || (creation.h != NULL && creation.h !in w.issued)
    ensures NoDangling(Create(w, o, creation, ok))
  {
    DestroyWindows(w, o, ok);
    DestroyKeeps(w, o, ok);
    var w1 := Destroy(w, o, ok);
    assert NoDangling(w1);
    if !creation.NoWindow? {
      NcCreateNoDangling(Log(w1.(registered := true), CreateCall(true)), o, creation.h);
    }
  }

  lemma {:induction false} NcCreateNoDangling<O>(w: World<O>, o: O, h: Hwnd)
    requires NoDangling(w) && w.live <= w.objs.Keys && o in w.live && w.objs[o].handle == NULL
    requires h !in w.userData && NULL !in w.userData
    ensures var w3 := NcCreate(w, o, h);
            && NoDangling(w3)
            && NoDangling(w3.(userData := w3.userData - {h}))
            && NoDangling(AfterWmDestroy(w3, o).(userData := w3.userData - {h}))
            && (forall ok :: WndProc(w3, h, WmDestroy, ok) == AfterWmDestroy(w3, o))
  {
    var w3 := NcCreate(w, o, h);
    forall ok
      ensures WndProc(w3, h, WmDestroy, ok) == AfterWmDestroy(w3, o)
    {
      WmDestroyClosed(w3, o, ok);
    }
  }

  lemma {:induction false} DeleteNoDangling<O>(w: World<O>, o: O, ok: bool)
    requires Inv(w) && NoDangling(w) && o in w.live && !LosesWindow(w, o, ok)
    ensures NoDangling(Delete(w, o, ok))
  {
    var w1 := w.(live := w.live - {o}, count := w.count - 1);
    assert Core(w1, NULL);
    DestroyWindows(w1, o, ok);
    DestroyKeeps(w1, o, ok);
  }

  lemma {:induction false} MessageNoDangling<O>(w: World<O>, h: Hwnd, msg: Message, ok: bool)
    requires Inv(w) && NoDangling(w) && (msg == WmDestroy ==> h !in w.userData)
    ensures NoDangling(WndProc(w, h, msg, ok))
  {
    if msg == WmClose && h in w.userData && ok {
      DestroyWindowNoDangling(w, w.objs[w.userData[h]].handle);
    }
  }

  lemma {:induction false} StepNoDangling<O>(w: World<O>, op: Op<O>)
    requires Inv(w) && NoDangling(w) && Enabled(w, op) && !Forgets(w, op)
    ensures NoDangling(Step(w, op))
  {
    match op {
      case OpNew(o) =>
      case OpDelete(o, ok) => DeleteNoDangling(w, o, ok);
      case OpCreate(o, c, ok) => CreateNoDangling(w, o, c, ok);
      case OpDestroy(o, ok) => DestroyWindows(w, o, ok); DestroyKeeps(w, o, ok);
      case OpSetQuitOnClose(o, quit) =>
      case OpSetChildContent(o, content) =>
      case OpSend(h, msg, ok) => MessageNoDangling(w, h, msg, ok);
      case OpSystemDestroy(h) => DestroyWindowNoDangling(w, h);
    }
  }

  lemma {:induction false} RunNoDanglingFrom<O>(w: World<O>, ops: seq<Op<O>>)
    requires Inv(w) && NoDangling(w) && !ForgottenIn(w, ops)
    ensures NoDangling(Run(w, ops))
  {
    if ops != [] {
      var r := Run(w, ops[..|ops| - 1]);
      RunNoDanglingFrom(w, ops[..|ops| - 1]);
      RunKeepsFrom(w, ops[..|ops| - 1]);
      if Enabled(r, ops[|ops| - 1]) {
        StepNoDangling(r, ops[|ops| - 1]);
      }
    }
  }

  /** While no object forgets its window, no message is ever dispatched to an object that is gone. */
  lemma {:induction false} RunNoDangling<O>(ops: seq<Op<O>>)
    requires !ForgottenIn(Start<O>(), ops)
    ensures NoDangling(Run(Start<O>(), ops))
  {
    RunNoDanglingFrom(Start<O>(), ops);
  }

  // ---- Steps that forget a window ----

  lemma {:induction false} SpuriousDestroyDangles<O>(w: World<O>, h: Hwnd, ok: bool)
    requires HandlesSound(w, NULL) && NoDangling(w) && h in w.userData
    ensures !NoDangling(WndProc(w, h, WmDestroy, ok))
  {
    var r := WndProc(w, h, WmDestroy, ok);
    WmDestroyClosed(w, w.userData[h], ok);
    assert h in r.userData && r.objs[r.userData[h]].handle == NULL;
  }

  lemma {:induction false} FailedDestroyDangles<O>(w: World<O>, o: O)
    requires HandlesSound(w, NULL) && NoDangling(w) && LosesWindow(w, o, false)
    ensures var r, h := Destroy(w, o, false), w.objs[o].handle;
            h in r.userData && r.userData[h] == o && o in r.objs && r.objs[o].handle == NULL && h != NULL
  {
    assert w.objs[o].handle in w.issued;
    DestroyLoses(w, o);
  }

  lemma {:induction false} FailedCreateDangles<O>(w: World<O>, o: O, creation: Creation)
    requires Inv(w) && NoDangling(w) && LosesWindow(w, o, false)
    requires creation.NoWindow? || (creation.h != NULL && creation.h !in w.issued)
    ensures !NoDangling(Create(w, o, creation, false))
  {
    FailedDestroyDangles(w, o);
    DestroyKeeps(w, o, false);
    var h, r := w.objs[o].handle, Create(w, o, creation, false);
    if creation.Torn? {
      var w2 := Log(Destroy(w, o, false).(registered := true), CreateCall(true));
      WmDestroyClosed(NcCreate(w2, o, creation.h), o, false);
    }
    assert h in r.userData && r.userData[h] == o && r.objs[o].handle != h;
  }

  lemma {:induction false} FailedDeleteDangles<O>(w: World<O>, o: O)
    requires Inv(w) && NoDangling(w) && LosesWindow(w, o, false)
    ensures !NoDangling(Delete(w, o, false))
  {
    var w1 := w.(live := w.live - {o}, count := w.count - 1);
    assert w.objs[o].handle in w.issued;
    DestroyLoses(w1, o);
    var h, r := w.objs[o].handle, Delete(w, o, false);
    assert h in r.userData && r.userData[h] == o && o !in r.objs;
  }

  lemma {:induction false} ForgettingDangles<O>(w: World<O>, op: Op<O>)
    requires Inv(w) && NoDangling(w) && Enabled(w, op) && Forgets(w, op)
    ensures !NoDangling(Step(w, op))
  {
    match op {
      case OpDelete(o, _) => FailedDeleteDangles(w, o);
      case OpCreate(o, c, _) => FailedCreateDangles(w, o, c);
      case OpDestroy(o, _) =>
        FailedDestroyDangles(w, o);
        assert w.objs[o].handle in Step(w, op).userData;
      case OpSend(h, _, ok) => SpuriousDestroyDangles(w, h, ok);
    }
  }

  lemma {:induction false} FirstForgotten<O>(w: World<O>, ops: seq<Op<O>>) returns (k: nat)
    requires Inv(w) && NoDangling(w) && ForgottenIn(w, ops)
    ensures k <= |ops| && !NoDangling(Run(w, ops[..k]))
  {
    var n := |ops| - 1;
    if ForgottenIn(w, ops[..n]) {
      k := FirstForgotten(w, ops[..n]);
      assert ops[..n][..k] == ops[..k];
    } else {
      RunNoDanglingFrom(w, ops[..n]);
      RunKeepsFrom(w, ops[..n]);
      ForgettingDangles(Run(w, ops[..n]), ops[n]);
      k := n + 1;
      assert ops[..k] == ops;
    }
  }

  lemma {:induction false} ForgottenGrows<O>(w: World<O>, ops: seq<Op<O>>, k: nat)
    requires k <= |ops| && ForgottenIn(w, ops[..k])
    ensures ForgottenIn(w, ops)
    decreases |ops|
  {
    if k == |ops| {
      assert ops[..k] == ops;
    } else {
      var front := ops[..|ops| - 1];
      assert front[..k] == ops[..k];
      ForgottenGrows(w, front, k);
    }
  }

  /** In a run every window belongs, at every moment, to a live object that holds its handle, exactly when no
      object of the run forgot its window. */
  lemma {:induction false} NeverDanglesIff<O>(ops: seq<Op<O>>)
    ensures (forall k :: 0 <= k <= |ops| ==> NoDangling(Run(Start<O>(), ops[..k]))) <==> !ForgottenIn(Start<O>(), ops)
  {
    if ForgottenIn(Start<O>(), ops) {
      var k := FirstForgotten(Start<O>(), ops);
    } else {
      forall k | 0 <= k <= |ops|
        ensures NoDangling(Run(Start<O>(), ops[..k]))
      {
        if ForgottenIn(Start<O>(), ops[..k]) {
          ForgottenGrows(Start<O>(), ops, k);
        }
        RunNoDangling(ops[..k]);
      }
    }
  }

  // ---- Where a dangling window leads ----

  /** A window is left pointing at a deleted object exactly when, before, one pointed at it that its handle did
      not name, or the handle's own window survived a failing DestroyWindow. */
  lemma {:induction false} DeleteDanglesIff<O>(w: World<O>, o: O, ok: bool)
    requires Inv(w) && o in w.live
    ensures (exists h :: h in Delete(w, o, ok).userData && Delete(w, o, ok).userData[h] == o)
       <==> (exists h :: h in w.userData && w.userData[h] == o && !(ok && h == w.objs[o].handle))
  {
    var w1 := w.(live := w.live - {o}, count := w.count - 1);
    var h := w.objs[o].handle;
    var u := Delete(w, o, ok).userData;
    if h == NULL {
      assert u == w.userData;
    } else {
      DestroyWindowClosed(Log(w1, DestroyCall(h)), h, ok);
      assert u == if ok then w.userData - {h} else w.userData;
    }
    assert NULL !in w.userData;
    forall k
      ensures (k in u && u[k] == o) <==> (k in w.userData && w.userData[k] == o && !(ok && k == h))
    {
    }
  }

  function After<O(==)>(w: World<O>, op: Op<O>): World<O> {
    if Enabled(w, op) then Step(w, op) else w
  }

  /** However a run goes on, unless an object forgets its window no message reaches an object that is gone. */
  ghost predicate Safe<O(!new)>(w: World<O>) {
    forall ops :: !ForgottenIn(w, ops) ==> !Run(w, ops).fault
  }

  lemma {:induction false} OneStep<O>(w: World<O>, a: Op<O>)
    ensures Run(w, [a]) == After(w, a)
    ensures ForgottenIn(w, [a]) <==> Enabled(w, a) && Forgets(w, a)
  {
    assert [a][..0] == [];
  }

  lemma {:induction false} TwoSteps<O>(w: World<O>, a: Op<O>, b: Op<O>)
    ensures Run(w, [a, b]) == After(After(w, a), b)
    ensures ForgottenIn(w, [a, b]) <==> ForgottenIn(w, [a]) || (Enabled(After(w, a), b) && Forgets(After(w, a), b))
  {
    OneStep(w, a);
    assert [a, b][..1] == [a];
  }

  /** Deleting the object, if it still exists, and then sending the window any message. */
  lemma {:induction false} DanglingFaults<O>(w: World<O>) returns (ops: seq<Op<O>>)
    requires Inv(w) && !NoDangling(w)
    ensures !ForgottenIn(w, ops) && Run(w, ops).fault
  {
    ops := [];
    if !w.fault {
      var h :| h in w.userData
            && !(w.userData[h] in w.live && w.userData[h] in w.objs && w.objs[w.userData[h]].handle == h);
      var o := w.userData[h];
      if o !in w.objs {
        ops := [OpSend(h, WmOther, true)];
        OneStep(w, ops[0]);
      } else {
        ops := DeletedThenFaults(w, o, h);
      }
    }
  }

  lemma {:induction false} DeletedThenFaults<O>(w: World<O>, o: O, h: Hwnd) returns (ops: seq<Op<O>>)
    requires Inv(w) && !w.fault && o in w.live && h in w.userData && w.userData[h] == o && w.objs[o].handle != h
    ensures !ForgottenIn(w, ops) && Run(w, ops).fault
  {
    var a := OpDelete(o, true);
    var w1 := Delete(w, o, true);
    OneStep(w, a);
    ops := [a];
    if !w1.fault {
      DeleteDanglesIff(w, o, true);
      var k :| k in w1.userData && w1.userData[k] == o;
      var b := OpSend(k, WmOther, true);
      TwoSteps(w, a, b);
      ops := [a, b];
    }
  }

  /** So a state is safe exactly when every window belongs to a live object that holds its handle. */
  lemma {:induction false} SafeIff<O(!new)>(w: World<O>)
    requires Inv(w)
    ensures Safe(w) <==> NoDangling(w)
  {
    if NoDangling(w) {
      forall ops | !ForgottenIn(w, ops)
        ensures !Run(w, ops).fault
      {
        RunNoDanglingFrom(w, ops);
      }
    } else {
      var ops := DanglingFaults(w);
    }
  }

  /** And a run is safe all the way exactly when no object of the run forgot its window. */
  lemma {:induction false} RunSafeIff<O(!new)>(ops: seq<Op<O>>)
    ensures (forall k :: 0 <= k <= |ops| ==> Safe(Run(Start<O>(), ops[..k]))) <==> !ForgottenIn(Start<O>(), ops)
  {
    NeverDanglesIff(ops);
    forall k | 0 <= k <= |ops|
      ensures Safe(Run(Start<O>(), ops[..k])) <==> NoDangling(Run(Start<O>(), ops[..k]))
    {
      RunKeeps(ops[..k]);
      SafeIff(Run(Start<O>(), ops[..k]));
    }
  }

  /** A WM_DESTROY that does not destroy its window makes the object forget it: the object can then be deleted
      while the window lives on, and the next message goes to an object that is gone. */
  lemma {:induction false} SpuriousDestroyFaults<O>(o: O, h: Hwnd)
    requires h != NULL
    ensures Run(Start<O>(), [OpNew(o), OpCreate(o, Created(h), true), OpSend(h, WmDestroy, true),
                             OpDelete(o, true), OpSend(h, WmOther, true)]).fault
  {
    var w0 := Start<O>();
    FiveSteps(w0, OpNew(o), OpCreate(o, Created(h), true), OpSend(h, WmDestroy, true), OpDelete(o, true),
              OpSend(h, WmOther, true));
    CreatedOnce(o, h);
    ForgottenThenDeleted(Create(New(w0, o), o, Created(h), true), o, h);
  }

  lemma {:induction false} FiveSteps<O>(w: World<O>, a: Op<O>, b: Op<O>, c: Op<O>, d: Op<O>, e: Op<O>)
    ensures Run(w, [a, b, c, d, e]) == After(After(After(After(After(w, a), b), c), d), e)
  {
    var ops := [a, b, c, d, e];
    assert ops[..4] == [a, b, c, d] && [a, b, c, d][..3] == [a, b, c];
    assert [a, b, c][..2] == [a, b] && [a, b][..1] == [a] && [a][..0] == [];
    assert Run(w, []) == w;
    assert Run(w, [a]) == After(w, a);
    assert Run(w, [a, b]) == After(After(w, a), b);
    assert Run(w, [a, b, c]) == After(After(After(w, a), b), c);
    assert Run(w, [a, b, c, d]) == After(After(After(After(w, a), b), c), d);
  }

  ghost predicate OneWindow<O>(w: World<O>, o: O, h: Hwnd) {
    w.userData == map[h := o] && w.live == {o} && w.objs == map[o := Fields(h, NULL, false)] && w.count == 1 && !w.fault
  }

  lemma {:induction false} CreatedOnce<O>(o: O, h: Hwnd)
    requires h != NULL
    ensures OneWindow(Create(New(Start<O>(), o), o, Created(h), true), o, h)
  {
  }

  lemma {:induction false} ForgottenThenDeleted<O>(w: World<O>, o: O, h: Hwnd)
    requires OneWindow(w, o, h) && h != NULL
    ensures var r := Delete(WndProc(w, h, WmDestroy, true), o, true);
            r.userData == map[h := o] && r.objs == map[] && !r.fault
  {
    WmDestroyClosed(w, o, true);
  }
}
