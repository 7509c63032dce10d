// What every operation does to the whole state, and what it leaves alone.
module WindowEffects {
  import opened WindowModel
  import opened WindowRuns
  import opened WindowHandles

  /** The window of o goes when the system destroys it on request. */
  predicate Gone<O(==)>(w: World<O>, o: O, ok: bool)
    requires o in w.objs
  {
    ok && w.objs[o].handle in w.userData
  }

  function Windows<O(==)>(w: World<O>, o: O, ok: bool): map<Hwnd, O>
    requires o in w.objs
  {
    if Gone(w, o, ok) then w.userData - {w.objs[o].handle} else w.userData
  }

  function Holding<O(==)>(w: World<O>, o: O, h: Hwnd): map<O, Fields>
    requires o in w.objs
  {
    w.objs[o := Fields(h, w.objs[o].child, w.objs[o].quitOnClose)]
  }

  function Unnamed<O(==)>(w: World<O>, o: O): map<O, Fields>
    requires o in w.objs
  {
    Holding(w, o, NULL)
  }

  /** PostQuitMessage is called for a window whose object asks for it. */
  function Quit<O(==)>(w: World<O>, o: O): seq<Event<O>>
    requires o in w.objs
  {
    if w.objs[o].quitOnClose then [QuitCall] else []
  }

  function QuitIfGone<O(==)>(w: World<O>, o: O, ok: bool): seq<Event<O>>
    requires o in w.objs
  {
    if Gone(w, o, ok) then Quit(w, o) else []
  }

  function Asked<O(==)>(w: World<O>, o: O): seq<Event<O>>
    requires o in w.objs
  {
    if w.objs[o].handle != NULL then [DestroyCall(w.objs[o].handle)] else []
  }

  /** The state between Destroy and the creation of a new window. */
  function AfterDestroy<O(==)>(w: World<O>, o: O, ok: bool): World<O>
    requires o in w.objs
  {
    w.(objs := Unnamed(w, o), userData := Windows(w, o, ok), log := w.log + Asked(w, o) + QuitIfGone(w, o, ok))
  }

  // ---- Messages ----

  lemma {:induction false} LiveNotEmpty<O>(w: World<O>, o: O)
    requires Inv(w) && o in w.objs
    ensures w.count != 0
  {
    assert o in w.live;
  }

  lemma {:induction false} MessageDestroys<O>(w: World<O>, o: O, ok: bool)
    requires o in w.objs && w.count != 0
    ensures MessageHandler(w, o, WmDestroy, ok) == w.(objs := Unnamed(w, o), log := w.log + Quit(w, o))
  {
    WmDestroyClosed(w, o, ok);
    assert w.log + [] == w.log;
  }

  lemma {:induction false} SystemDestroys<O>(w: World<O>, h: Hwnd, o: O)
    requires w.count != 0 && NamesWindow(w, o, h) && o in w.objs
    ensures DestroyWindow(w, h, true) ==
            w.(objs := Unnamed(w, o), userData := w.userData - {h}, log := w.log + Quit(w, o))
  {
    MessageDestroys(w, o, true);
  }

  /** The system destroys a window, whether its object still knows it or not. */
  lemma {:induction false} SystemDestroyEffect<O>(w: World<O>, h: Hwnd, o: O)
    requires Inv(w) && !w.fault && NamesWindow(w, o, h) && o in w.objs
    ensures Enabled(w, OpSystemDestroy(h))
    ensures Step(w, OpSystemDestroy(h)) ==
            w.(objs := Unnamed(w, o), userData := w.userData - {h}, log := w.log + Quit(w, o))
  {
    LiveNotEmpty(w, o);
    SystemDestroys(w, h, o);
  }

  /** A WM_DESTROY out of nowhere: the object drops its handle and the window stays. */
  lemma {:induction false} DestroyMessageEffect<O>(w: World<O>, h: Hwnd, o: O, ok: bool)
    requires Inv(w) && NamesWindow(w, o, h) && o in w.objs
    ensures WndProc(w, h, WmDestroy, ok) == w.(objs := Unnamed(w, o), log := w.log + Quit(w, o))
  {
    LiveNotEmpty(w, o);
    MessageDestroys(w, o, ok);
  }

  /** Closing a window: the window that its object's handle names is destroyed if the system agrees, the handle is
      cleared, and the program is asked to quit if the object says so. Otherwise nothing changes. */
  lemma {:induction false} CloseEffect<O>(w: World<O>, h: Hwnd, o: O, ok: bool)
    requires Inv(w) && NamesWindow(w, o, h) && OwnHandle(w, o)
    ensures WndProc(w, h, WmClose, ok) ==
            if Gone(w, o, ok) then
              w.(objs := Unnamed(w, o), userData := w.userData - {w.objs[o].handle}, log := w.log + Quit(w, o))
            else w
  {
    LiveNotEmpty(w, o);
    if Gone(w, o, ok) {
      SystemDestroys(w, w.objs[o].handle, o);
    }
  }

  /** So a window that its object knows is closed exactly when the system agrees. */
  lemma {:induction false} ClosedIff<O>(w: World<O>, h: Hwnd, o: O, ok: bool)
    requires Inv(w) && NamesWindow(w, o, h) && o in w.objs && w.objs[o].handle == h
    ensures var r := WndProc(w, h, WmClose, ok);
            && (h !in r.userData <==> ok)
            && (r.objs[o].handle == NULL <==> ok)
            && r.log == w.log + (if ok && w.objs[o].quitOnClose then [QuitCall] else [])
  {
    CloseEffect(w, h, o, ok);
    assert h in w.issued && h != NULL;
    assert w.log + [] == w.log;
  }

  /** Every other message leaves the state alone, unless it reaches an object that is gone. */
  lemma {:induction false} OtherMessageEffect<O>(w: World<O>, h: Hwnd, msg: Message, ok: bool)
    requires msg != WmDestroy && msg != WmClose
    ensures WndProc(w, h, msg, ok) == if h in w.userData && w.userData[h] !in w.objs then w.(fault := true) else w
  {
  }

  // ---- Operations of the program ----

  lemma {:induction false} DestroyEffect<O>(w: World<O>, o: O, ok: bool)
    requires Inv(w) && OwnHandle(w, o)
    ensures Destroy(w, o, ok) == AfterDestroy(w, o, ok)
  {
    LiveNotEmpty(w, o);
    EarlierDestroy(w, o, ok);
  }

  lemma {:induction false} DestroyOfHandle<O>(w: World<O>, o: O, ok: bool)
    requires w.count != 0 && OwnHandle(w, o) && w.objs[o].handle != NULL
    ensures Destroy(w, o, ok) == AfterDestroy(w, o, ok)
  {
    var h := w.objs[o].handle;
    var w0 := Log(w, DestroyCall(h));
    if Gone(w, o, ok) {
      SystemDestroys(w0, h, o);
      assert Unnamed(w0, o)[o := Unnamed(w0, o)[o].(handle := NULL)] == Unnamed(w, o);
    } else {
      assert w.log + [DestroyCall(h)] + [] == w.log + [DestroyCall(h)];
    }
  }

  /** What CreateWindow makes of an object that holds no handle. */
  function AfterCreation<O(==)>(w: World<O>, o: O, creation: Creation): World<O>
    requires o in w.objs
  {
    var log' := w.log + [CreateCall(true)];
    match creation
    case NoWindow => w.(registered := true, log := log')
    case Created(h) => w.(registered := true, log := log', issued := w.issued + {h},
                          userData := w.userData[h := o], objs := Holding(w, o, h))
    case Dropped(h) => w.(registered := true, log := log', issued := w.issued + {h}, objs := Holding(w, o, h))
    case Torn(h) => w.(registered := true, log := log' + Quit(w, o), issued := w.issued + {h})
  }

  lemma {:induction false} CreationEffect<O>(w: World<O>, o: O, creation: Creation, ok: bool)
    requires o in w.objs && w.objs[o].handle == NULL && w.count != 0
    requires creation.NoWindow? || creation.h !in w.userData
    ensures CreateWindow(w.(registered := true), o, creation, ok) == AfterCreation(w, o, creation)
  {
    var w2 := Log(w.(registered := true), CreateCall(true));
    if !creation.NoWindow? {
      assert w.userData[creation.h := o] - {creation.h} == w.userData;
      if creation.Torn? {
        var w3 := NcCreate(w2, o, creation.h);
        MessageDestroys(w3, o, ok);
        assert Unnamed(w3, o) == w.objs;
      }
    }
  }

  /** Create destroys the old window, registers the class and asks for a new window: in each outcome the whole state. */
  lemma {:induction false} CreateEffect<O>(w: World<O>, o: O, creation: Creation, ok: bool)
    requires Inv(w) && OwnHandle(w, o)
    requires creation.NoWindow? || (creation.h != NULL && creation.h !in w.issued)
    ensures Create(w, o, creation, ok) == AfterCreation(AfterDestroy(w, o, ok), o, creation)
  {
    DestroyEffect(w, o, ok);
    LiveNotEmpty(w, o);
    CreationEffect(AfterDestroy(w, o, ok), o, creation, ok);
  }

  /** With the last object the class goes, first from inside the WM_DESTROY of the object's own window. */
  function Unregistered<O>(last: bool, windows: set<Hwnd>): seq<Event<O>> {
    if last then [UnregisterCall({}, windows)] else []
  }

  function DeleteLog<O(==)>(w: World<O>, o: O, ok: bool): seq<Event<O>>
    requires o in w.objs
  {
    var last := w.live == {o};
    w.log + Asked(w, o) + Unregistered(Gone(w, o, ok) && last, w.userData.Keys) + QuitIfGone(w, o, ok)
          + Unregistered(last, Windows(w, o, ok).Keys)
  }

  lemma {:induction false} EmptyParts<T>(a: seq<T>, b: seq<T>, c: seq<T>)
    ensures a + b + [] + c + [] == a + b + c
  {
  }

  lemma {:induction false} EarlierDestroy<O>(w: World<O>, o: O, ok: bool)
    requires w.count != 0 && OwnHandle(w, o) && NULL !in w.userData
    ensures Destroy(w, o, ok) == AfterDestroy(w, o, ok)
  {
    if w.objs[o].handle == NULL {
      assert Unnamed(w, o) == w.objs;
      assert w.log + [] + [] == w.log;
    } else {
      DestroyOfHandle(w, o, ok);
    }
  }

  /** Deleting an object: its window goes with it if the system agrees, and with the last object the class. */
  lemma {:induction false} DeleteEffect<O>(w: World<O>, o: O, ok: bool)
    requires Inv(w) && OwnHandle(w, o)
    ensures var r := Delete(w, o, ok);
            && r.objs == w.objs - {o} && r.live == w.live - {o} && r.count == w.count - 1
            && r.userData == Windows(w, o, ok) && r.issued == w.issued && r.fault == w.fault
            && r.registered == (w.registered && w.live != {o})
            && r.log == DeleteLog(w, o, ok)
  {
    var w1 := w.(live := w.live - {o}, count := w.count - 1);
    assert o in w.live && w1.count == |w1.live|;
    assert w1.live == {} <==> w.live == {o};
    if w.live == {o} {
      LastDestroy(w1, o, ok);
    } else {
      EarlierDestroy(w1, o, ok);
      EmptyParts(w.log, Asked(w, o), QuitIfGone(w, o, ok));
    }
    WithoutUnnamed(w, o);
  }

  lemma {:induction false} WithoutUnnamed<O>(w: World<O>, o: O)
    requires o in w.objs
    ensures Unnamed(w, o) - {o} == w.objs - {o}
  {
  }

  /** Deleting the last object together with its window: the class is unregistered first from inside the window's
      own WM_DESTROY, when the window still exists, and then again. */
  lemma {:induction false} LastDelete<O>(w: World<O>, o: O)
    requires Inv(w) && w.live == {o} && NamesWindow(w, o, w.objs[o].handle)
    ensures var r, h := Delete(w, o, true), w.objs[o].handle;
            && r.log == w.log + [DestroyCall(h), UnregisterCall({}, w.userData.Keys)]
                      + (if w.objs[o].quitOnClose then [QuitCall] else [])
                      + [UnregisterCall({}, w.userData.Keys - {h})]
            && r.userData == w.userData - {h} && r.objs == map[] && r.count == 0 && !r.registered
  {
    var h := w.objs[o].handle;
    assert h in w.issued;
    DeleteEffect(w, o, true);
    assert w.registered;
  }

  lemma {:induction false} LastDestroy<O>(w: World<O>, o: O, ok: bool)
    requires OwnHandle(w, o) && w.live == {} && w.count == 0 && NULL !in w.userData
    ensures var r := Destroy(w, o, ok);
            && r == w.(objs := Unnamed(w, o), userData := Windows(w, o, ok), registered := false, log := r.log)
            && r.log == w.log + Asked(w, o) + Unregistered(Gone(w, o, ok), w.userData.Keys) + QuitIfGone(w, o, ok)
                      + Unregistered(true, Windows(w, o, ok).Keys)
  {
    var h := w.objs[o].handle;
    if h == NULL {
      assert Unnamed(w, o) == w.objs;
      assert w.log + [] + [] + [] == w.log;
    } else if Gone(w, o, ok) {
      var w0 := Log(w, DestroyCall(h));
      DestroyWindowClosed(w0, h, ok);
      assert Unnamed(w, o)[o := Unnamed(w, o)[o].(handle := NULL)] == Unnamed(w, o);
    } else {
      assert w.log + [DestroyCall(h)] + [] + [] == w.log + [DestroyCall(h)];
    }
  }

  /** Until a message reaches an object that is gone, a program can use its objects in any way. */
  lemma {:induction false} AnyUsePossible<O>(w: World<O>, o: O, h: Hwnd, ok: bool)
    requires Inv(w) && !w.fault
    ensures o in w.live || Enabled(w, OpNew(o))
    ensures o in w.live ==> Enabled(w, OpDelete(o, ok)) && Enabled(w, OpDestroy(o, ok))
    ensures o in w.live ==> Enabled(w, OpSetQuitOnClose(o, ok)) && Enabled(w, OpSetChildContent(o, h))
    ensures o in w.live ==> Enabled(w, OpCreate(o, NoWindow, ok))
    ensures o in w.live && h != NULL && h !in w.issued ==>
              forall c :: c in {Created(h), Dropped(h), Torn(h)} ==> Enabled(w, OpCreate(o, c, ok))
    ensures forall msg :: Enabled(w, OpSend(h, msg, ok))
  {
  }

  // ---- What an object was last told ----

  /** The quit-on-close flag that the operations executed call for: the last one set since the object was made. */
  function QuitAsked<O(==)>(ops: seq<Op<O>>, o: O): bool {
    if ops == [] then false
    else
      var front, op := ops[..|ops| - 1], ops[|ops| - 1];
      if !Enabled(Run(Start<O>(), front), op) then QuitAsked(front, o)
      else if op == OpNew(o) then false
      else if op.OpSetQuitOnClose? && op.o == o then op.quit
      else QuitAsked(front, o)
  }

  /** The child window last given to the object since it was made. */
  function ChildGiven<O(==)>(ops: seq<Op<O>>, o: O): Hwnd {
    if ops == [] then NULL
    else
      var front, op := ops[..|ops| - 1], ops[|ops| - 1];
      if !Enabled(Run(Start<O>(), front), op) then ChildGiven(front, o)
      else if op == OpNew(o) then NULL
      else if op.OpSetChildContent? && op.o == o then op.content
      else ChildGiven(front, o)
  }

  ghost predicate SameSettings<O>(w: World<O>, r: World<O>) {
    && r.objs.Keys <= w.objs.Keys
    && forall o :: o in r.objs ==>
         r.objs[o].quitOnClose == w.objs[o].quitOnClose && r.objs[o].child == w.objs[o].child
  }

  lemma {:induction false} DestroyWindowSettings<O>(w: World<O>, h: Hwnd, ok: bool)
    ensures SameSettings(w, DestroyWindow(w, h, ok))
  {
    DestroyWindowClosed(w, h, ok);
  }

  lemma {:induction false} DestroySettings<O>(w: World<O>, o: O, ok: bool)
    requires o in w.objs
    ensures SameSettings(w, Destroy(w, o, ok))
  {
    var h := w.objs[o].handle;
    if h != NULL {
      DestroyWindowSettings(Log(w, DestroyCall(h)), h, ok);
    }
  }

  lemma {:induction false} MessageSettings<O>(w: World<O>, h: Hwnd, msg: Message, ok: bool)
    ensures SameSettings(w, WndProc(w, h, msg, ok))
  {
    if h in w.userData && w.userData[h] in w.objs {
      var o := w.userData[h];
      WmDestroyClosed(w, o, ok);
      DestroyWindowSettings(w, w.objs[o].handle, ok);
    }
  }

  lemma {:induction false} CreateSettings<O>(w: World<O>, o: O, creation: Creation, ok: bool)
    requires o in w.objs
    ensures SameSettings(w, Create(w, o, creation, ok))
  {
    DestroySettings(w, o, ok);
    if creation.Torn? {
      var w2 := Log(Destroy(w, o, ok).(registered := true), CreateCall(true));
      WmDestroyClosed(NcCreate(w2, o, creation.h), o, ok);
    }
  }

  lemma {:induction false} StepSettings<O>(w: World<O>, op: Op<O>)
    requires Enabled(w, op) && !op.OpNew? && !op.OpSetQuitOnClose? && !op.OpSetChildContent?
    ensures SameSettings(w, Step(w, op))
  {
    match op {
      case OpDelete(o, ok) => DestroySettings(w.(live := w.live - {o}, count := w.count - 1), o, ok);
      case OpCreate(o, c, ok) => CreateSettings(w, o, c, ok);
      case OpDestroy(o, ok) => DestroySettings(w, o, ok);
      case OpSend(h, msg, ok) => MessageSettings(w, h, msg, ok);
      case OpSystemDestroy(h) => DestroyWindowSettings(w, h, true);
    }
  }

  /** In every run each object has the settings it was last given, whatever happened to its windows. */
  lemma {:induction false} LastSettingHolds<O>(ops: seq<Op<O>>, o: O)
    ensures var w := Run(Start<O>(), ops);
            o in w.objs ==> w.objs[o].quitOnClose == QuitAsked(ops, o) && w.objs[o].child == ChildGiven(ops, o)
  {
    if ops != [] {
      var front, op := ops[..|ops| - 1], ops[|ops| - 1];
      var w := Run(Start<O>(), front);
      LastSettingHolds(front, o);
      if Enabled(w, op) && !op.OpNew? && !op.OpSetQuitOnClose? && !op.OpSetChildContent? {
        StepSettings(w, op);
      }
    }
  }
}
