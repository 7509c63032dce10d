// What the handle of an object says about its window.
module WindowHandles {
  import opened WindowModel
  import opened WindowRuns
  import opened WindowDangling

  /** The handles of the windows that the system dropped half made, in the operations that were possible. */
  function DroppedIn<O(==)>(ops: seq<Op<O>>): set<Hwnd> {
    if ops == [] then {}
    else
      var op := ops[|ops| - 1];
      DroppedIn(ops[..|ops| - 1]) + if Enabled(Run(Start<O>(), ops[..|ops| - 1]), op) then DroppedBy(op) else {}
  }

  function DroppedBy<O>(op: Op<O>): set<Hwnd> {
    if op.OpCreate? && op.creation.Dropped? then {op.creation.h} else {}
  }

  /** A window with handle h exists and belongs to o. */
  predicate NamesWindow<O(==)>(w: World<O>, o: O, h: Hwnd) {
    h in w.userData && w.userData[h] == o
  }

  /** The handle of an object names its own window if any. */
  predicate OwnHandle<O(==)>(w: World<O>, o: O) {
    o in w.objs && (w.objs[o].handle in w.userData ==> w.userData[w.objs[o].handle] == o)
  }

  /** A handle held names a window of its holder exactly when it is not in `dropped`. */
  ghost predicate HandlesKnown<O>(w: World<O>, dropped: set<Hwnd>) {
    && dropped <= w.issued
    && dropped !! w.userData.Keys
    && forall o :: o in w.objs && w.objs[o].handle != NULL && w.objs[o].handle !in dropped ==>
         NamesWindow(w, o, w.objs[o].handle)
  }

  /** DestroyWindow takes the handle from the object whose window goes, if that window had one. */
  lemma {:induction false} DestroyWindowKnown<O>(w: World<O>, h: Hwnd, ok: bool, dropped: set<Hwnd>)
    requires HandlesKnown(w, dropped)
    ensures HandlesKnown(DestroyWindow(w, h, ok), dropped)
    ensures DestroyWindow(w, h, ok).issued == w.issued
  {
    DestroyWindowClosed(w, h, ok);
  }

  lemma {:induction false} WmDestroyKnown<O>(w: World<O>, o: O, ok: bool, dropped: set<Hwnd>)
    requires HandlesKnown(w, dropped) && o in w.objs
    ensures HandlesKnown(MessageHandler(w, o, WmDestroy, ok), dropped)
  {
    WmDestroyClosed(w, o, ok);
  }

  lemma {:induction false} ClearKnown<O>(w: World<O>, o: O, dropped: set<Hwnd>)
    requires HandlesKnown(w, dropped) && o in w.objs
    ensures HandlesKnown(SetHandle(w, o, NULL), dropped)
  {
  }

  /** Destroy, whether DestroyWindow succeeds or not. */
  lemma {:induction false} DestroyKnown<O>(w: World<O>, o: O, ok: bool, dropped: set<Hwnd>)
    requires HandlesKnown(w, dropped) && o in w.objs
    ensures HandlesKnown(Destroy(w, o, ok), dropped)
  {
    var h := w.objs[o].handle;
    if h != NULL {
      var w0 := Log(w, DestroyCall(h));
      DestroyWindowKnown(w0, h, ok, dropped);
      ClearKnown(DestroyWindow(w0, h, ok), o, dropped);
    }
  }

  /** A new window is known by its handle; once dropped, its handle is one of those dropped. */
  lemma {:induction false} NcCreateKnown<O>(w: World<O>, o: O, h: Hwnd, dropped: set<Hwnd>)
    requires HandlesKnown(w, dropped) && o in w.objs && h !in w.issued && w.userData.Keys <= w.issued
    ensures var w3 := NcCreate(w, o, h);
            && HandlesKnown(w3, dropped)
            && HandlesKnown(w3.(userData := w3.userData - {h}), dropped + {h})
            && HandlesKnown(AfterWmDestroy(w3, o).(userData := w3.userData - {h}), dropped)
  {
  }

  lemma {:induction false} CreateKnown<O>(w: World<O>, o: O, creation: Creation, ok: bool, dropped: set<Hwnd>)
    requires Inv(w) && HandlesKnown(w, dropped) && o in w.live
    requires creation.NoWindow? || (creation.h != NULL && creation.h !in w.issued)
    ensures HandlesKnown(Create(w, o, creation, ok), dropped + DroppedBy(OpCreate(o, creation, ok)))
  {
    DestroyKnown(w, o, ok, dropped);
    DestroyKeeps(w, o, ok);
    if !creation.NoWindow? {
      var w2 := Log(Destroy(w, o, ok).(registered := true), CreateCall(true));
      NcCreateKnown(w2, o, creation.h, dropped);
      WmDestroyClosed(NcCreate(w2, o, creation.h), o, ok);
    }
  }

  lemma {:induction false} WndProcKnown<O>(w: World<O>, h: Hwnd, msg: Message, ok: bool, dropped: set<Hwnd>)
    requires HandlesKnown(w, dropped)
    ensures HandlesKnown(WndProc(w, h, msg, ok), dropped)
  {
    if h in w.userData && w.userData[h] in w.objs {
      var o := w.userData[h];
      match msg {
        case WmDestroy => WmDestroyKnown(w, o, ok, dropped);
        case WmClose => DestroyWindowKnown(w, w.objs[o].handle, ok, dropped);
        case _ =>
      }
    }
  }

  lemma {:induction false} DeleteKnown<O>(w: World<O>, o: O, ok: bool, dropped: set<Hwnd>)
    requires HandlesKnown(w, dropped) && o in w.objs
    ensures HandlesKnown(Delete(w, o, ok), dropped)
  {
    DestroyKnown(w.(live := w.live - {o}, count := w.count - 1), o, ok, dropped);
  }

  lemma {:induction false} OtherStepKnown<O>(w: World<O>, op: Op<O>, dropped: set<Hwnd>)
    requires HandlesKnown(w, dropped) && Enabled(w, op) && !op.OpCreate?
    ensures HandlesKnown(Step(w, op), dropped)
  {
    match op {
      case OpNew(o) =>
      case OpDelete(o, ok) => DeleteKnown(w, o, ok, dropped);
      case OpDestroy(o, ok) => DestroyKnown(w, o, ok, dropped);
      case OpSetQuitOnClose(o, quit) =>
      case OpSetChildContent(o, content) =>
      case OpSend(h, msg, ok) => WndProcKnown(w, h, msg, ok, dropped);
      case OpSystemDestroy(h) => DestroyWindowKnown(w, h, true, dropped);
    }
  }

  lemma {:induction false} NothingDropped<O>(op: Op<O>, dropped: set<Hwnd>)
    requires !op.OpCreate?
    ensures dropped + DroppedBy(op) == dropped
  {
  }

  lemma {:induction false} StepKnown<O>(w: World<O>, op: Op<O>, dropped: set<Hwnd>)
    requires Inv(w) && HandlesKnown(w, dropped) && Enabled(w, op)
    ensures HandlesKnown(Step(w, op), dropped + DroppedBy(op))
  {
    if op.OpCreate? {
      CreateKnown(w, op.o, op.creation, op.ok, dropped);
    } else {
      OtherStepKnown(w, op, dropped);
      NothingDropped(op, dropped);
    }
  }

  lemma {:induction false} RunKnown<O>(ops: seq<Op<O>>)
    ensures HandlesKnown(Run(Start<O>(), ops), DroppedIn(ops))
  {
    if ops != [] {
      var front := ops[..|ops| - 1];
      var r := Run(Start<O>(), front);
      RunKnown(front);
      RunKeeps(front);
      if Enabled(r, ops[|ops| - 1]) {
        StepKnown(r, ops[|ops| - 1], DroppedIn(front));
      }
    }
  }

  /** In every run, spurious WM_DESTROY and failing DestroyWindow included, a handle names a window of its holder
      exactly when the system did not drop that window half made. */
  lemma {:induction false} HandleNamesWindowIff<O>(ops: seq<Op<O>>, o: O)
    ensures var w := Run(Start<O>(), ops);
            o in w.objs && w.objs[o].handle != NULL ==>
              (NamesWindow(w, o, w.objs[o].handle) <==> w.objs[o].handle !in DroppedIn(ops))
  {
    RunKnown(ops);
  }

  ghost predicate HandlesNameWindows<O>(w: World<O>) {
    forall o :: o in w.objs && w.objs[o].handle != NULL ==> NamesWindow(w, o, w.objs[o].handle)
  }

  lemma {:induction false} DroppedGrows<O>(ops: seq<Op<O>>, k: nat)
    requires k <= |ops|
    ensures DroppedIn(ops[..k]) <= DroppedIn(ops)
    decreases |ops|
  {
    if k == |ops| {
      assert ops[..k] == ops;
    } else {
      var front := ops[..|ops| - 1];
      DroppedGrows(front, k);
      assert front[..k] == ops[..k];
    }
  }

  /** A dropped window leaves its handle behind: it is set by WM_NCCREATE and nothing clears it. */
  lemma {:induction false} DropLeavesHandle<O>(w: World<O>, o: O, h: Hwnd, ok: bool)
    requires o in w.objs && h != NULL
    ensures !HandlesNameWindows(Create(w, o, Dropped(h), ok))
  {
    var r := Create(w, o, Dropped(h), ok);
    assert r.objs[o].handle == h && h !in r.userData;
  }

  lemma {:induction false} FirstDrop<O>(ops: seq<Op<O>>) returns (k: nat)
    requires DroppedIn(ops) != {}
    ensures k <= |ops| && !HandlesNameWindows(Run(Start<O>(), ops[..k]))
  {
    var n := |ops| - 1;
    var r := Run(Start<O>(), ops[..n]);
    if DroppedIn(ops[..n]) != {} {
      k := FirstDrop(ops[..n]);
      assert ops[..n][..k] == ops[..k];
    } else {
      DropLeavesHandle(r, ops[n].o, ops[n].creation.h, ops[n].ok);
      k := n + 1;
      assert ops[..k] == ops;
    }
  }

  /** Every state of a run has only handles that name windows exactly when no creation of the run was dropped. */
  lemma {:induction false} NoStaleHandleIff<O>(ops: seq<Op<O>>)
    ensures (forall k :: 0 <= k <= |ops| ==> HandlesNameWindows(Run(Start<O>(), ops[..k]))) <==> DroppedIn(ops) == {}
  {
    if DroppedIn(ops) == {} {
      forall k | 0 <= k <= |ops|
        ensures HandlesNameWindows(Run(Start<O>(), ops[..k]))
      {
        DroppedGrows(ops, k);
        RunKnown(ops[..k]);
      }
    } else {
      var k := FirstDrop(ops);
    }
  }

  /** GetHandle promises nullptr once the window is gone. In every run of any system this holds for an object
      exactly when its handle is not that of a dropped window. While no object forgets its window, nullptr also
      means that the object has no window. */
  lemma {:induction false} HandleTellsWindow<O>(ops: seq<Op<O>>, o: O)
    ensures var w := Run(Start<O>(), ops);
            o in w.objs && (forall h :: !NamesWindow(w, o, h)) ==>
              (w.objs[o].handle == NULL <==> w.objs[o].handle !in DroppedIn(ops))
    ensures var w := Run(Start<O>(), ops);
            !ForgottenIn(Start<O>(), ops) && o in w.objs && w.objs[o].handle == NULL ==>
              forall h :: !NamesWindow(w, o, h)
  {
    RunKnown(ops);
    RunKeeps(ops);
    if !ForgottenIn(Start<O>(), ops) {
      RunNoDangling(ops);
    }
  }
}
