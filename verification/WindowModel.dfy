// What the window code of win32_window.cpp does to the state it shares, as functions
// on values. `O` identifies a Win32Window object. The operating system is an
// environment: it issues handles, delivers messages and may refuse requests.
module WindowModel {

  type Hwnd = nat
  const NULL: Hwnd := 0

  datatype Message = WmDestroy | WmClose | WmSize | WmActivate | WmDpiChanged | WmColorizationChanged | WmOther

  /** What an observer outside sees: DestroyWindow called by Destroy, CreateWindow called (and whether
      class_registered_ held), UnregisterClass called (and which objects were live and which windows existed),
      PostQuitMessage called. */
  datatype Event<!O(==)> =
    | DestroyCall(h: Hwnd)
    | CreateCall(registered: bool)
    | UnregisterCall(live: set<O>, windows: set<Hwnd>)
    | QuitCall

  /** The fields of one object. */
  datatype Fields = Fields(handle: Hwnd, child: Hwnd, quitOnClose: bool)

  datatype World<!O(==)> = World(
    objs: map<O, Fields>,       // the objects whose storage exists
    live: set<O>,               // those constructed whose destructor has not begun
    count: int,                 // g_active_window_count
    registered: bool,           // class_registered_
    userData: map<Hwnd, O>,     // GWLP_USERDATA of every window that exists
    issued: set<Hwnd>,          // every handle CreateWindow ever made
    fault: bool,                // a message was dispatched to an object that is gone
    log: seq<Event<O>>)

  /** What CreateWindow does: no window at all; WM_NCCREATE delivered and the window then dropped, without or
      with WM_DESTROY; or a window. */
  datatype Creation = NoWindow | Dropped(h: Hwnd) | Torn(h: Hwnd) | Created(h: Hwnd)

  function SetHandle<O(==)>(w: World<O>, o: O, h: Hwnd): World<O>
    requires o in w.objs
  {
    w.(objs := w.objs[o := w.objs[o].(handle := h)])
  }

  function Log<O(==)>(w: World<O>, e: Event<O>): World<O> {
    w.(log := w.log + [e])
  }

  // ---- The re-entrant chain ----

  /** Win32Window::Destroy. `ok` says whether DestroyWindow succeeds. */
  function Destroy<O(==)>(w: World<O>, o: O, ok: bool): (r: World<O>)
    requires o in w.objs
    ensures r.objs.Keys == w.objs.Keys
    decreases if w.objs[o].handle != NULL then 1 else 0, 0
  {
    var h := w.objs[o].handle;
    var w1 := if h != NULL then SetHandle(DestroyWindow(Log(w, DestroyCall(h)), h, ok), o, NULL) else w;
    if w1.count == 0 then Log(w1, UnregisterCall(w1.live, w1.userData.Keys)).(registered := false) else w1
  }

  /** The DestroyWindow of the system: WM_DESTROY is delivered before the call returns, then the window is gone. */
  function DestroyWindow<O(==)>(w: World<O>, h: Hwnd, ok: bool): (r: World<O>)
    ensures r.objs.Keys == w.objs.Keys
    decreases 0, 3
  {
    if ok && h in w.userData then
      var w1 := WndProc(w, h, WmDestroy, ok);
      w1.(userData := w1.userData - {h})
    else w
  }

  /** Win32Window::WndProc for every message but WM_NCCREATE. Without user data DefWindowProc gets the message. */
  function WndProc<O(==)>(w: World<O>, h: Hwnd, msg: Message, ok: bool): (r: World<O>)
    ensures r.objs.Keys == w.objs.Keys
    decreases if msg.WmClose? then 2 else 0, 2
  {
    if h !in w.userData then w
    else
      var o := w.userData[h];
      if o in w.objs then MessageHandler(w, o, msg, ok) else w.(fault := true)
  }

  /** Win32Window::MessageHandler. Only WM_DESTROY and, by its default handling, WM_CLOSE change the state. */
  function MessageHandler<O(==)>(w: World<O>, o: O, msg: Message, ok: bool): (r: World<O>)
    requires o in w.objs
    ensures r.objs.Keys == w.objs.Keys
    decreases if msg.WmClose? then 2 else 0, 1
  {
    match msg
    case WmDestroy =>
      var w1 := Destroy(SetHandle(w, o, NULL), o, ok);
      if w1.objs[o].quitOnClose then Log(w1, QuitCall) else w1
    case WmClose => DestroyWindow(w, w.objs[o].handle, ok)
    case _ => w
  }

  // ---- The other operations ----

  function New<O(==)>(w: World<O>, o: O): World<O> {
    w.(objs := w.objs[o := Fields(NULL, NULL, false)], live := w.live + {o}, count := w.count + 1)
  }

  function Delete<O(==)>(w: World<O>, o: O, ok: bool): World<O>
    requires o in w.objs
  {
    var w1 := Destroy(w.(live := w.live - {o}, count := w.count - 1), o, ok);
    w1.(objs := w1.objs - {o})
  }

  /** A window comes into being with WM_NCCREATE: its user data and the object's handle are set. */
  function NcCreate<O(==)>(w: World<O>, o: O, h: Hwnd): (r: World<O>)
    requires o in w.objs
    ensures r.objs.Keys == w.objs.Keys
  {
    SetHandle(w.(userData := w.userData[h := o], issued := w.issued + {h}), o, h)
  }

  /** The CreateWindow of the system. */
  function CreateWindow<O(==)>(w: World<O>, o: O, creation: Creation, ok: bool): World<O>
    requires o in w.objs
  {
    var w2 := Log(w, CreateCall(w.registered));
    match creation
    case NoWindow => w2
    case Dropped(h) => var w3 := NcCreate(w2, o, h); w3.(userData := w3.userData - {h})
    case Torn(h) => var w3 := WndProc(NcCreate(w2, o, h), h, WmDestroy, ok); w3.(userData := w3.userData - {h})
    case Created(h) => NcCreate(w2, o, h)
  }

  function Create<O(==)>(w: World<O>, o: O, creation: Creation, ok: bool): World<O>
    requires o in w.objs
  {
    CreateWindow(Destroy(w, o, ok).(registered := true), o, creation, ok)
  }

  function SetQuitOnClose<O(==)>(w: World<O>, o: O, quit: bool): World<O>
    requires o in w.objs
  {
    w.(objs := w.objs[o := w.objs[o].(quitOnClose := quit)])
  }

  function SetChildContent<O(==)>(w: World<O>, o: O, content: Hwnd): World<O>
    requires o in w.objs
  {
    w.(objs := w.objs[o := w.objs[o].(child := content)])
  }

  // ---- Runs ----

  datatype Op<!O(==)> =
    | OpNew(o: O)
    | OpDelete(o: O, ok: bool)
    | OpCreate(o: O, creation: Creation, ok: bool)
    | OpDestroy(o: O, ok: bool)
    | OpSetQuitOnClose(o: O, quit: bool)
    | OpSetChildContent(o: O, content: Hwnd)
    | OpSend(h: Hwnd, msg: Message, ok: bool)   // any message to any window, spurious ones included
    | OpSystemDestroy(h: Hwnd)                  // the system destroys a window

  /** Handles are never issued twice, programs use live objects only, the system destroys windows that exist. */
  predicate Enabled<O(==)>(w: World<O>, op: Op<O>) {
    && !w.fault
    && match op
       case OpNew(o) => o !in w.objs
       case OpDelete(o, _) => o in w.live && o in w.objs
       case OpCreate(o, c, _) => o in w.live && o in w.objs && (c.NoWindow? || (c.h != NULL && c.h !in w.issued))
       case OpDestroy(o, _) => o in w.live && o in w.objs
       case OpSetQuitOnClose(o, _) => o in w.live && o in w.objs
       case OpSetChildContent(o, _) => o in w.live && o in w.objs
       case OpSend(_, _, _) => true
       case OpSystemDestroy(h) => h in w.userData
  }

  function Step<O(==)>(w: World<O>, op: Op<O>): World<O>
    requires Enabled(w, op)
  {
    match op
    case OpNew(o) => New(w, o)
    case OpDelete(o, ok) => Delete(w, o, ok)
    case OpCreate(o, c, ok) => Create(w, o, c, ok)
    case OpDestroy(o, ok) => Destroy(w, o, ok)
    case OpSetQuitOnClose(o, quit) => SetQuitOnClose(w, o, quit)
    case OpSetChildContent(o, content) => SetChildContent(w, o, content)
    case OpSend(h, msg, ok) => WndProc(w, h, msg, ok)
    case OpSystemDestroy(h) => DestroyWindow(w, h, true)
  }

  /** An operation that is not possible is passed over. */
  function Run<O(==)>(w: World<O>, ops: seq<Op<O>>): World<O> {
    if ops == [] then w
    else
      var r := Run(w, ops[..|ops| - 1]);
      if Enabled(r, ops[|ops| - 1]) then Step(r, ops[|ops| - 1]) else r
  }

  function Start<O(==)>(): World<O> {
    World(map[], {}, 0, false, map[], {}, false, [])
  }

  // ---- The chain in closed form ----

  /** What one WM_DESTROY does to its object and the globals: the inner Destroy finds no handle. */
  function AfterWmDestroy<O(==)>(w: World<O>, o: O): World<O>
    requires o in w.objs
  {
    SetHandle(w, o, NULL).(
      registered := w.registered && w.count != 0,
      log := w.log + (if w.count == 0 then [UnregisterCall(w.live, w.userData.Keys)] else [])
                   + (if w.objs[o].quitOnClose then [QuitCall] else []))
  }

  lemma {:induction false} WmDestroyClosed<O>(w: World<O>, o: O, ok: bool)
    requires o in w.objs
    ensures MessageHandler(w, o, WmDestroy, ok) == AfterWmDestroy(w, o)
  {
  }

  /** What a successful DestroyWindow does to a window whose object exists. */
  lemma {:induction false} DestroyWindowClosed<O>(w: World<O>, h: Hwnd, ok: bool)
    ensures DestroyWindow(w, h, ok) ==
            if !ok || h !in w.userData then w
            else if w.userData[h] !in w.objs then w.(fault := true, userData := w.userData - {h})
            else AfterWmDestroy(w, w.userData[h]).(userData := w.userData - {h})
  {
    if ok && h in w.userData && w.userData[h] in w.objs {
      WmDestroyClosed(w, w.userData[h], ok);
    }
  }
}
