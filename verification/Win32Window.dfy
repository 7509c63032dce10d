// The classes of win32_window.cpp. Every method is proved to do to the shared state
// what its namesake in WindowModel does to the value of that state.
module Win32Windows {
  import opened WindowModel
  import M = WindowModel

  /** The globals of the file, the window registrations of the system, and a record of what was called. */
  class Process {
    var activeWindowCount: int              // g_active_window_count
    var classRegistered: bool               // WindowClassRegistrar::class_registered_
    var userData: map<Hwnd, Win32Window>    // GWLP_USERDATA
    var storage: set<Win32Window>           // the objects that exist
    var issued: set<Hwnd>
    var fault: bool
    ghost var live: set<Win32Window>
    ghost var log: seq<Event<Win32Window>>

    ghost function State(): World<Win32Window>
      reads this, storage
    {
      World(map o | o in storage :: o.State(), live, activeWindowCount, classRegistered, userData, issued, fault, log)
    }

    constructor ()
      ensures State() == Start()
    {
      activeWindowCount, classRegistered, userData, storage, issued, fault := 0, false, map[], {}, {}, false;
      live, log := {}, [];
    }

    /** WindowClassRegistrar::GetWindowClass */
    method GetWindowClass()
      modifies this`classRegistered
      ensures State() == old(State()).(registered := true)
    {
      if !classRegistered {
        classRegistered := true;
      }
    }

    /** WindowClassRegistrar::UnregisterWindowClass */
    method UnregisterWindowClass()
      modifies this`classRegistered, this`log
      ensures State() == Log(old(State()), UnregisterCall(live, userData.Keys)).(registered := false)
    {
      Record(UnregisterCall(live, userData.Keys));
      classRegistered := false;
    }

    method PostQuitMessage()
      modifies this`log
      ensures State() == Log(old(State()), QuitCall)
    {
      Record(QuitCall);
    }

    ghost method Record(e: Event<Win32Window>)
      modifies this`log
      ensures State() == Log(old(State()), e)
    {
      log := log + [e];
    }

    /** A window is gone. */
    method DropWindow(h: Hwnd)
      modifies this`userData
      ensures State() == old(State()).(userData := old(userData) - {h})
      ensures userData == old(userData) - {h}
    {
      userData := userData - {h};
    }

    /** The CreateWindow of the system, which delivers WM_NCCREATE before it returns. */
    method CreateWindow(that: Win32Window, creation: Creation, ok: bool) returns (h: Hwnd)
      requires that in storage
      requires creation.NoWindow? || creation.h != NULL
      modifies this, storage
      ensures storage == old(storage)
      ensures State() == M.CreateWindow(old(State()), that, creation, ok)
      ensures h == if creation.Created? then creation.h else NULL
    {
      Record(CreateCall(classRegistered));
      if creation.NoWindow? {
        return NULL;
      }
      Win32Window.WndProcNcCreate(this, creation.h, that);
      if creation.Created? {
        return creation.h;
      }
      if creation.Torn? {
        Win32Window.WndProc(this, creation.h, WmDestroy, ok);
      }
      DropWindow(creation.h);
      return NULL;
    }

    /** The DestroyWindow of the system. */
    method DestroyWindow(h: Hwnd, ok: bool)
      modifies this, storage
      ensures storage == old(storage)
      ensures State() == M.DestroyWindow(old(State()), h, ok)
      decreases 0, 3
    {
      if ok && h in userData {
        Win32Window.WndProc(this, h, WmDestroy, ok);
        DropWindow(h);
      }
    }

    /** Any operation on objects that exist does what it does in a run. */
    method Perform(op: Op<Win32Window>)
      requires !op.OpNew? && M.Enabled(State(), op)
      modifies this, storage
      ensures State() == M.Step(old(State()), op)
    {
      match op {
        case OpDelete(o, ok) => o.Delete(this, ok);
        case OpCreate(o, creation, ok) => var success := o.Create(this, creation, ok);
        case OpDestroy(o, ok) => o.Destroy(this, ok);
        case OpSetQuitOnClose(o, quit) => o.SetQuitOnClose(this, quit);
        case OpSetChildContent(o, content) => o.SetChildContent(this, content);
        case OpSend(h, msg, ok) => Win32Window.WndProc(this, h, msg, ok);
        case OpSystemDestroy(h) => DestroyWindow(h, true);
      }
    }
  }

  class Win32Window {
    var windowHandle: Hwnd
    var childContent: Hwnd
    var quitOnClose: bool

    function State(): Fields
      reads this
    {
      Fields(windowHandle, childContent, quitOnClose)
    }

    constructor (p: Process)
      modifies p
      ensures p.storage == old(p.storage) + {this}
      ensures p.State() == M.New(old(p.State()), this)
    {
      windowHandle, childContent, quitOnClose := NULL, NULL, false;
      new;
      p.storage, p.live := p.storage + {this}, p.live + {this};
      p.activeWindowCount := p.activeWindowCount + 1;
      assert forall o :: o in old(p.storage) ==> o.State() == old(o.State());
    }

    /** ~Win32Window */
    method Delete(p: Process, ok: bool)
      requires this in p.storage
      modifies p, p.storage
      ensures p.storage == old(p.storage) - {this}
      ensures p.State() == M.Delete(old(p.State()), this, ok)
    {
      p.live := p.live - {this};
      p.activeWindowCount := p.activeWindowCount - 1;
      assert p.State() == old(p.State()).(live := old(p.live) - {this}, count := old(p.activeWindowCount) - 1);
      Destroy(p, ok);
      ghost var w1 := p.State();
      p.storage := p.storage - {this};
      assert p.State().objs == w1.objs - {this};
    }

    /** `window_handle_ = h` */
    method SetHandle(p: Process, h: Hwnd)
      requires this in p.storage
      modifies this`windowHandle
      ensures p.State() == M.SetHandle(old(p.State()), this, h)
      ensures windowHandle == h
    {
      windowHandle := h;
    }

    method Create(p: Process, creation: Creation, ok: bool) returns (success: bool)
      requires this in p.storage
      requires creation.NoWindow? || creation.h != NULL
      modifies p, p.storage
      ensures p.storage == old(p.storage)
      ensures p.State() == M.Create(old(p.State()), this, creation, ok)
      ensures success <==> creation.Created?
    {
      Destroy(p, ok);
      p.GetWindowClass();
      var window := p.CreateWindow(this, creation, ok);
      if window == NULL {
        return false;
      }
      return OnCreate();
    }

    /** No-op; provided for subclasses. */
    function OnCreate(): bool {
      true
    }

    /** The WM_NCCREATE branch of WndProc. */
    static method WndProcNcCreate(p: Process, window: Hwnd, that: Win32Window)
      requires that in p.storage
      modifies p, that
      ensures p.storage == old(p.storage)
      ensures p.State() == M.NcCreate(old(p.State()), that, window)
    {
      p.userData := p.userData[window := that];
      p.issued := p.issued + {window};
      that.SetHandle(p, window);
    }

    /** WndProc for every other message. */
    static method WndProc(p: Process, window: Hwnd, msg: Message, ok: bool)
      modifies p, p.storage
      ensures p.storage == old(p.storage)
      ensures p.State() == M.WndProc(old(p.State()), window, msg, ok)
      decreases if msg.WmClose? then 2 else 0, 2
    {
      if window in p.userData {
        var that := p.userData[window];
        if that in p.storage {
          that.MessageHandler(p, msg, ok);
        } else {
          p.fault := true;
        }
      }
    }

    method MessageHandler(p: Process, msg: Message, ok: bool)
      requires this in p.storage
      modifies p, p.storage
      ensures p.storage == old(p.storage)
      ensures p.State() == M.MessageHandler(old(p.State()), this, msg, ok)
      decreases if msg.WmClose? then 2 else 0, 1
    {
      match msg {
        case WmDestroy =>
          SetHandle(p, NULL);
          Destroy(p, ok);
          assert p.State().objs[this] == State();
          if quitOnClose {
            p.PostQuitMessage();
          }
        case WmClose =>
          p.DestroyWindow(windowHandle, ok);
        case _ =>
      }
    }

    method Destroy(p: Process, ok: bool)
      requires this in p.storage
      modifies p, p.storage
      ensures p.storage == old(p.storage)
      ensures p.State() == M.Destroy(old(p.State()), this, ok)
      decreases if windowHandle != NULL then 1 else 0, 0
    {
      if windowHandle != NULL {
        p.Record(DestroyCall(windowHandle));
        p.DestroyWindow(windowHandle, ok);
        SetHandle(p, NULL);
      }
      if p.activeWindowCount == 0 {
        p.UnregisterWindowClass();
      }
    }

    method SetQuitOnClose(p: Process, quit: bool)
      requires this in p.storage
      modifies this
      ensures p.State() == M.SetQuitOnClose(old(p.State()), this, quit)
    {
      quitOnClose := quit;
    }

    method SetChildContent(p: Process, content: Hwnd)
      requires this in p.storage
      modifies this
      ensures p.State() == M.SetChildContent(old(p.State()), this, content)
    {
      childContent := content;
    }
  }
}
