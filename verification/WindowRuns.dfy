// What every run of any number of windows keeps.
module WindowRuns {
  import opened WindowModel

  /** How often Destroy has passed the handle h to DestroyWindow. */
  function Calls<O(==)>(log: seq<Event<O>>, h: Hwnd): nat {
    if log == [] then 0
    else Calls(log[..|log| - 1], h) + if log[|log| - 1] == DestroyCall(h) then 1 else 0
  }

  /** UnregisterClass was called only with no live object, CreateWindow only with the class registered. */
  ghost predicate Orderly<O>(log: seq<Event<O>>) {
    forall i :: 0 <= i < |log| ==>
      (log[i].UnregisterCall? ==> log[i].live == {}) && (log[i].CreateCall? ==> log[i].registered)
  }

  /** Handles held are real ones, not passed to DestroyWindow yet (x excepted), and held by one object each. */
  ghost predicate HandlesSound<O>(w: World<O>, x: Hwnd) {
    && NULL !in w.issued
    && w.userData.Keys <= w.issued
    && (forall o :: o in w.objs && w.objs[o].handle != NULL ==>
          w.objs[o].handle in w.issued && (w.objs[o].handle == x || Calls(w.log, w.objs[o].handle) == 0))
    && (forall o, p :: o in w.objs && p in w.objs && o != p && w.objs[o].handle != NULL ==>
          w.objs[o].handle != w.objs[p].handle)
    && (forall h :: Calls(w.log, h) <= 1 && (Calls(w.log, h) > 0 ==> h in w.issued))
  }

  ghost predicate GlobalsSound<O>(w: World<O>) {
    && w.live <= w.objs.Keys
    && w.count == |w.live|
    && (forall o :: o in w.live && w.objs[o].handle != NULL ==> w.registered)
    && Orderly(w.log)
  }

  ghost predicate Core<O>(w: World<O>, x: Hwnd) {
    HandlesSound(w, x) && GlobalsSound(w)
  }

  /** Between operations every object is live, and without any the class is not registered. */
  ghost predicate Inv<O>(w: World<O>) {
    Core(w, NULL) && w.objs.Keys == w.live && (w.live == {} ==> !w.registered)
  }

  lemma {:induction false} CallsAfter<O>(log: seq<Event<O>>, e: Event<O>, h: Hwnd)
    ensures Calls(log + [e], h) == Calls(log, h) + if e == DestroyCall(h) then 1 else 0
  {
    assert (log + [e])[..|log|] == log;
  }

  lemma {:induction false} LogKeeps<O>(w: World<O>, e: Event<O>, x: Hwnd)
    requires Core(w, x)
    requires !e.DestroyCall?
    requires e.UnregisterCall? ==> e.live == {}
    requires e.CreateCall? ==> e.registered
    ensures Core(Log(w, e), x)
  {
    forall h
      ensures Calls(w.log + [e], h) == Calls(w.log, h)
    {
      CallsAfter(w.log, e, h);
    }
  }

  lemma {:induction false} DropHandleKeeps<O>(w: World<O>, o: O, x: Hwnd)
    requires Core(w, x) && o in w.objs
    ensures Core(SetHandle(w, o, NULL), x)
  {
  }

  /** Destroy of an object that holds no handle. */
  lemma {:induction false} IdleDestroyKeeps<O>(w: World<O>, o: O, ok: bool, x: Hwnd)
    requires Core(w, x) && o in w.objs && w.objs[o].handle == NULL
    ensures Core(Destroy(w, o, ok), x)
    ensures Destroy(w, o, ok).live == w.live && Destroy(w, o, ok).issued == w.issued
    ensures Destroy(w, o, ok).objs == w.objs
    ensures w.live == {} ==> !Destroy(w, o, ok).registered
  {
    if w.count == 0 {
      assert w.live == {};
      LogKeeps(w, UnregisterCall(w.live, w.userData.Keys), x);
    }
  }

  lemma {:induction false} WmDestroyKeeps<O>(w: World<O>, o: O, ok: bool, x: Hwnd)
    requires Core(w, x) && o in w.objs
    ensures var r := MessageHandler(w, o, WmDestroy, ok);
            && Core(r, x)
            && r.live == w.live && r.issued == w.issued
            && r.objs == w.objs[o := w.objs[o].(handle := NULL)]
  {
    var w0 := SetHandle(w, o, NULL);
    DropHandleKeeps(w, o, x);
    IdleDestroyKeeps(w0, o, ok, x);
    LogKeeps(Destroy(w0, o, ok), QuitCall, x);
  }

  lemma {:induction false} DestroyWindowKeeps<O>(w: World<O>, h: Hwnd, ok: bool, x: Hwnd)
    requires Core(w, x)
    ensures var r := DestroyWindow(w, h, ok);
            && Core(r, x)
            && r.live == w.live && r.issued == w.issued
            && (forall o :: o in w.objs ==> r.objs[o] == w.objs[o] || r.objs[o] == w.objs[o].(handle := NULL))
  {
    if ok && h in w.userData && w.userData[h] in w.objs {
      WmDestroyKeeps(w, w.userData[h], ok, x);
    }
  }

  lemma {:induction false} CallCounts<O>(log: seq<Event<O>>, h: Hwnd)
    ensures forall k :: Calls(log + [DestroyCall(h)], k) == Calls(log, k) + if k == h then 1 else 0
  {
    forall k
      ensures Calls(log + [DestroyCall(h)], k) == Calls(log, k) + if k == h then 1 else 0
    {
      CallsAfter(log, DestroyCall(h), k);
    }
  }

  lemma {:induction false} CallKeepsHandles<O>(w: World<O>, o: O)
    requires HandlesSound(w, NULL) && o in w.objs && w.objs[o].handle != NULL
    ensures HandlesSound(Log(w, DestroyCall(w.objs[o].handle)), w.objs[o].handle)
  {
    CallCounts(w.log, w.objs[o].handle);
  }

  lemma {:induction false} CallKeeps<O>(w: World<O>, o: O)
    requires Core(w, NULL) && o in w.objs && w.objs[o].handle != NULL
    ensures Core(Log(w, DestroyCall(w.objs[o].handle)), w.objs[o].handle)
  {
    CallKeepsHandles(w, o);
    assert GlobalsSound(Log(w, DestroyCall(w.objs[o].handle)));
  }

  /** With the one holder of x gone, the exception for x is not needed any more. */
  lemma {:induction false} ExceptionEnds<O>(w: World<O>, x: Hwnd)
    requires Core(w, x)
    requires forall o :: o in w.objs ==> w.objs[o].handle != x
    ensures Core(w, NULL)
  {
  }

  /** Destroy keeps the invariant, and leaves its object without a handle. */
  lemma {:induction false} DestroyKeeps<O>(w: World<O>, o: O, ok: bool)
    requires Core(w, NULL) && o in w.objs
    ensures var r := Destroy(w, o, ok);
            && Core(r, NULL)
            && r.live == w.live && r.issued == w.issued
            && r.objs[o].handle == NULL
            && (w.live == {} ==> !r.registered)
  {
    var h := w.objs[o].handle;
    if h == NULL {
      IdleDestroyKeeps(w, o, ok, NULL);
    } else {
      var w0 := Log(w, DestroyCall(h));
      var w1 := DestroyWindow(w0, h, ok);
      var w2 := SetHandle(w1, o, NULL);
      CallKeeps(w, o);
      DestroyWindowKeeps(w0, h, ok, h);
      DropHandleKeeps(w1, o, h);
      ExceptionEnds(w2, h);
      IdleDestroyKeeps(w2, o, ok, NULL);
      assert Destroy(w, o, ok) == Destroy(w2, o, ok);
    }
  }

  lemma {:induction false} NewKeeps<O>(w: World<O>, o: O)
    requires Inv(w) && o !in w.objs
    ensures Inv(New(w, o))
  {
  }

  lemma {:induction false} DeleteKeeps<O>(w: World<O>, o: O, ok: bool)
    requires Inv(w) && o in w.live
    ensures Inv(Delete(w, o, ok))
  {
    var w1 := w.(live := w.live - {o}, count := w.count - 1);
    assert Core(w1, NULL);
    DestroyKeeps(w1, o, ok);
    var w2 := Destroy(w1, o, ok);
    assert w2.objs.Keys == w.live;
  }

  lemma {:induction false} NcCreateKeeps<O>(w: World<O>, o: O, h: Hwnd)
    requires Inv(w) && o in w.objs && w.objs[o].handle == NULL && w.registered
    requires h != NULL && h !in w.issued
    ensures Inv(NcCreate(w, o, h))
    ensures NcCreate(w, o, h).userData == w.userData[h := o]
  {
    assert Calls(w.log, h) == 0;
  }

  lemma {:induction false} GoneKeeps<O>(w: World<O>, h: Hwnd)
    requires Inv(w)
    ensures Inv(w.(userData := w.userData - {h}))
  {
  }

  /** A new window stays, or is dropped without or with WM_DESTROY. */
  lemma {:induction false} NewWindowKeeps<O>(w: World<O>, o: O, h: Hwnd, ok: bool)
    requires Inv(w) && o in w.objs && w.objs[o].handle == NULL && w.registered
    requires h != NULL && h !in w.issued
    ensures var w3 := NcCreate(w, o, h);
            && Inv(w3)
            && Inv(w3.(userData := w3.userData - {h}))
            && (var w4 := WndProc(w3, h, WmDestroy, ok); Inv(w4.(userData := w4.userData - {h})))
  {
    var w3 := NcCreate(w, o, h);
    NcCreateKeeps(w, o, h);
    GoneKeeps(w3, h);
    WmDestroyKeeps(w3, o, ok, NULL);
    GoneKeeps(MessageHandler(w3, o, WmDestroy, ok), h);
  }

  lemma {:induction false} CreateKeeps<O>(w: World<O>, o: O, creation: Creation, ok: bool)
    requires Inv(w) && o in w.live
    requires creation.NoWindow? || (creation.h != NULL && creation.h !in w.issued)
    ensures Inv(Create(w, o, creation, ok))
  {
    DestroyKeeps(w, o, ok);
    var w1 := Destroy(w, o, ok).(registered := true);
    assert Inv(w1);
    LogKeeps(w1, CreateCall(w1.registered), NULL);
    if !creation.NoWindow? {
      NewWindowKeeps(Log(w1, CreateCall(w1.registered)), o, creation.h, ok);
    }
  }

  lemma {:induction false} WndProcKeeps<O>(w: World<O>, h: Hwnd, msg: Message, ok: bool)
    requires Inv(w)
    ensures Inv(WndProc(w, h, msg, ok))
  {
    if h in w.userData && w.userData[h] in w.objs {
      var o := w.userData[h];
      match msg {
        case WmDestroy => WmDestroyKeeps(w, o, ok, NULL);
        case WmClose => DestroyWindowKeeps(w, w.objs[o].handle, ok, NULL);
        case _ =>
      }
    }
  }

  lemma {:induction false} OtherFieldKeeps<O>(w: World<O>, o: O, f: Fields)
    requires Inv(w) && o in w.objs && f.handle == w.objs[o].handle
    ensures Inv(w.(objs := w.objs[o := f]))
  {
  }

  lemma {:induction false} StepKeeps<O>(w: World<O>, op: Op<O>)
    requires Inv(w) && Enabled(w, op)
    ensures Inv(Step(w, op))
  {
    match op {
      case OpNew(o) => NewKeeps(w, o);
      case OpDelete(o, ok) => DeleteKeeps(w, o, ok);
      case OpCreate(o, c, ok) => CreateKeeps(w, o, c, ok);
      case OpDestroy(o, ok) => DestroyKeeps(w, o, ok);
      case OpSetQuitOnClose(o, quit) => OtherFieldKeeps(w, o, w.objs[o].(quitOnClose := quit));
      case OpSetChildContent(o, content) => OtherFieldKeeps(w, o, w.objs[o].(child := content));
      case OpSend(h, msg, ok) => WndProcKeeps(w, h, msg, ok);
      case OpSystemDestroy(h) => DestroyWindowKeeps(w, h, true, NULL);
    }
  }

  lemma {:induction false} RunKeepsFrom<O>(w: World<O>, ops: seq<Op<O>>)
    requires Inv(w)
    ensures Inv(Run(w, ops))
  {
    if ops != [] {
      RunKeepsFrom(w, ops[..|ops| - 1]);
      var r := Run(w, ops[..|ops| - 1]);
      if Enabled(r, ops[|ops| - 1]) {
        StepKeeps(r, ops[|ops| - 1]);
      }
    }
  }

  lemma {:induction false} RunKeeps<O>(ops: seq<Op<O>>)
    ensures Inv(Run(Start<O>(), ops))
  {
    RunKeepsFrom(Start<O>(), ops);
  }

  /** Whatever programs and system do, in any order: Destroy passes each handle to DestroyWindow at most once;
      the window count is the number of live objects; the class is unregistered only when there are none, and
      with the last one; and it is registered at every CreateWindow and whenever an object holds a handle. */
  lemma {:induction false} EveryRun<O>(ops: seq<Op<O>>)
    ensures var w := Run(Start<O>(), ops);
            && (forall h :: Calls(w.log, h) <= 1)
            && w.count == |w.live|
            && Orderly(w.log)
            && (w.live == {} ==> !w.registered)
            && (forall o :: o in w.objs && w.objs[o].handle != NULL ==> w.registered)
  {
    RunKeeps(ops);
  }
}
