# Verification of the LUHUT desktop shell and its MariaDB inline code

The repository is a Windows shell around a Flutter view, shipped together with the development headers of
MariaDB. Most of those headers only declare functions; the code with a visible body is small, but it moves
pointers through buffers, shares counters between threads, re-enters itself through the window system and
shifts bytes. This project models that code in Dafny and proves what it is meant to guarantee.

| file | source | subject |
|---|---|---|
| `WindowModel.dfy`, `WindowRuns.dfy`, `Win32Window.dfy` | `win32_window.cpp` | life of windows, re-entrant destruction, shared globals |
| `WindowDangling.dfy`, `WindowHandles.dfy`, `WindowRelease.dfy`, `WindowEffects.dfy` | `win32_window.cpp` | messages to deleted objects, what a handle says, when the class is unregistered, the whole effect of each operation |
| `IoCache.dfy` | `my_sys.h` | buffered streams over a plain file |
| `SharedCounter.dfy` | `my_pthread.h` | counters under any interleaving of threads |
| `CString.dfy` | `m_string.h` | bounded string copies and appends |
| `Bytes.dfy`, `PortableOrder.dfy`, `LittleEndianMemory.dfy`, `X86Order.dfy`, `X64Order.dfy`, `PackOrder.dfy`, `Fields.dfy` | `byte_order_*.h`, `myisampack.h`, `mariadb_rpl.h`, `my_byteorder.h` | byte-order macros, one positional specification for all |
| `Bits.dfy`, `Align.dfy` | `my_global.h` | C bit arithmetic and the alignment macros |
| `Uuid.dfy` | `my_sys.h` | the UUID printer |
| `Timespec.dfy` | `my_pthread.h` | timespec arithmetic |

`dafny verify dfyconfig.toml` checks everything.

## How the source is read

* C integers are natural numbers below 2^w. `&`, `|`, `~`, `<<`, `>>` and the conversions are defined bit by bit
  in `Bits.dfy`; `TruncIsMod` and `ShrIsDiv` tie them to remainder and quotient. A right shift of a negative
  value rounds down. Pointers are indices into a memory, so pointer arithmetic does not overflow.
* Code that updates state in place (windows, caches, string buffers, the store macros, the UUID loop) is a class
  or a method over arrays, proved against a function of the old state; the theorems about all runs are lemmas
  about those functions.
* The window system is an environment. It issues handles it never issued before, may refuse to create or destroy
  a window, may drop a window half made, and may deliver any message to any window at any time, a
  `WM_DESTROY` that destroys nothing included. Messages other than `WM_NCCREATE`, `WM_DESTROY` and `WM_CLOSE`
  change no modelled state. `WM_CLOSE` reaches `DestroyWindow` through the default window procedure.
* **Assumed contracts.** `_my_b_read`, `_my_b_get`, `_my_b_write`, `my_b_flush_io_cache` and `strnmov` have no body
  in the repository. `SlowRead`, `SlowGet`, `SlowWrite` and `FlushIoCache` have contracts taken from the comments
  on `IO_CACHE` and `my_b_fill`, with nondeterministic bodies (how much is refilled, whether a hard error
  occurs) that show those contracts can be met; callers rely on the contracts only. Only these functions raise the ghost
  count `hardErrors`, so a contract that ties a failure to it says that one of them failed. After a hard error they promise that
  the cache is well formed, and nothing about its position. A cache flushed successfully has room for a byte.
  `Strnmov` copies until the NUL or n bytes and returns the end. `memcpy`, `strncpy` and `strlen` are the C library's.
* `Consume`, `Produce` and `DrainByGet` are not in the source. They are the most general clients of a cache, written
  out so that a statement about every interleaving of calls is a contract; a hard error ends them.
* Macro arguments have the width the macro needs: the value given to `int5store` or a wider store is a 64-bit
  integer, and the destination of a store is a byte pointer.

## Results that differ from what one might expect

* A message can reach an object that is gone. `Forgets` names the operations to blame: a `WM_DESTROY` that comes
  without destruction, and a failing `DestroyWindow` on a window that exists when its object is destroyed, created
  anew or deleted. A run is safe at every moment exactly when none of these happens in it (`RunSafeIff`,
  `NeverDanglesIff`), where safe means that every continuation without a further one ends without such a message;
  `SafeIff` gives the condition on the state, and `SpuriousDestroyFaults` a family of runs that fail.
* `GetHandle` is documented to return nullptr once the window is destroyed. When the system drops a window after
  `WM_NCCREATE` without `WM_DESTROY`, the handle stays set. In every run a handle names a window of its holder
  exactly when it is not the handle of such a window (`HandleNamesWindowIff`), and a run is free of stale handles
  from start to end exactly when no creation in it was dropped (`NoStaleHandleIff`). Spurious `WM_DESTROY` and
  failing `DestroyWindow` do no harm here; they only let nullptr stand for a window that still exists
  (`HandleTellsWindow`).
* `UnregisterWindowClass` is documented to be called only when no window exists. The code breaks this exactly when it
  deletes its last object while a window exists (`EarlyIff`): the count is lowered before the window is destroyed, so
  the class is unregistered first from inside the window's own `WM_DESTROY`, and then again (`StepWent`,
  `LastDelete`). While no window is forgotten or dropped, `GetHandle` of the last object tells whether the window has
  to be destroyed first (`LastHandleTells`).
* The comment on `safe_strcpy_truncated` says that the destination is padded with NULs; the code does not pad.
  `PadsIff` gives the exact condition under which the buffers agree.
* `MY_ALIGN` rounds up exactly when `A + L - 1` fits in the word (`AlignRoundsUpIff`). When the operands have
  different types that word is the type of L, unless L is narrower than int and so promoted (`AlignMixedRoundsUpIff`).
  `MY_ALIGN` and `MY_ALIGN_DOWN` are right for every operand that fits exactly when L is a power of two
  (`AlignNeedsPowerOfTwo`, `AlignDownNeedsPowerOfTwo`).
* The Windows form of `thread_safe_add` updates 32 bits: `WideCounterIff` says when a 64-bit counter is still right.
* `myisam_sint3korr` does not extend the sign: `MyisamSint3IsSignedIff`.
* Two timeouts taken at one clock reading keep their order exactly when both or neither of the sums wrap
  (`TimeoutOrderIff`).
* Without the mutex a counter is still never arbitrary: it is the start value plus some of the updates stored, and
  `KeptIff` says which (`SomeUpdatesCounted`), and increments never count more than the stores made, wrap-around
  included (`IncrementsCounted`).
* `my_b_fill` passes over whatever is still unread, as its note warns; `Consume` accounts for those bytes.

## Model

| member | source | states |
|---|---|---|
| WindowRuns.EveryRun | windows/runner/win32_window.cpp:89-141 | over every run of any number of windows and any messages: Destroy passes each handle to DestroyWindow at most once, the window count is the number of live objects, the class is unregistered only when there are none and never outlives the last one, and it is registered at every CreateWindow and whenever an object holds a handle |
| WindowRuns.DestroyKeeps | windows/runner/win32_window.cpp:224-234 | one Destroy, with the messages it re-enters, keeps the whole invariant and leaves its object without a handle |
| WindowRuns.DeleteKeeps | windows/runner/win32_window.cpp:118-121 | the destructor, which lowers the count before it destroys the window, keeps the invariant |
| WindowRuns.CreateKeeps | windows/runner/win32_window.cpp:123-150 | Create keeps the invariant for every way CreateWindow can succeed or fail |
| WindowRuns.StepKeeps | windows/runner/win32_window.cpp:114-234 | every operation of program or system keeps the invariant |
| WindowModel.WmDestroyClosed | windows/runner/win32_window.cpp:182-188 | WM_DESTROY in closed form: the handle is cleared first, so the Destroy it calls destroys no window and only the globals and the quit message follow |
| WindowModel.DestroyWindowClosed | windows/runner/win32_window.cpp:224-234 | the closed form of a synchronous DestroyWindow: exactly one object loses its handle, exactly one window goes |
| WindowDangling.RunSafeIff | windows/runner/win32_window.cpp:157-174 | a run is safe at every moment, that is no continuation in which no object forgets its window dispatches a message through the user data of a window whose object is gone, exactly when no object of the run forgot its window |
| WindowDangling.NeverDanglesIff | windows/runner/win32_window.cpp:157-234 | at every moment of a run each window belongs to a live object that holds its handle, exactly when in the run no WM_DESTROY came without destruction and no DestroyWindow failed on the window of an object being destroyed, created anew or deleted |
| WindowDangling.SafeIff | windows/runner/win32_window.cpp:157-174 | a state satisfying the invariant is safe exactly when each window belongs to a live object that holds its handle |
| WindowDangling.RunNoDangling | windows/runner/win32_window.cpp:157-174 | while no object forgets its window, no run dispatches a message to an object that is gone |
| WindowDangling.SpuriousDestroyFaults | windows/runner/win32_window.cpp:182-184 | a WM_DESTROY that destroys nothing, then deletion, then any message reaches an object that is gone |
| WindowRelease.EarlyIff | windows/runner/win32_window.cpp:75-76 | over every run, UnregisterClass is called while a window exists exactly when the last object is deleted while a window exists |
| WindowRelease.StepWent | windows/runner/win32_window.cpp:114-234 | for every operation: UnregisterClass is called twice when it deletes the last object together with its window, once when it deletes the last object otherwise, else never; and while a window exists exactly when the last object is deleted then |
| WindowRelease.LastHandleTells | windows/runner/win32_window.cpp:118-121 | while no window is forgotten or dropped, deleting the last object is too soon exactly when its handle is not nullptr |
| WindowEffects.LastDelete | windows/runner/win32_window.cpp:118-121 | deleting the last object together with its window: the exact sequence of system calls, UnregisterClass first while the window exists and then again |
| WindowHandles.HandleNamesWindowIff | windows/runner/win32_window.cpp:157-234 | in every run, spurious WM_DESTROY and failing DestroyWindow included, a handle held names an existing window of its holder exactly when the system did not drop that window half made |
| WindowHandles.NoStaleHandleIff | windows/runner/win32_window.cpp:132-145 | every state of a run has only handles that name windows exactly when no creation executed in the run was dropped |
| WindowHandles.HandleTellsWindow | windows/runner/win32_window.h:48-50 | in every run, the handle of an object without a window is nullptr exactly when it is not the handle of a dropped window; while no object forgets its window, nullptr also means that there is no window |
| WindowEffects.CloseEffect | windows/runner/win32_window.cpp:182-221 | WM_CLOSE, left to the default handler: the window that the object's handle names is destroyed if the system agrees, the handle is cleared, the quit message is posted if asked for, and otherwise nothing changes |
| WindowEffects.ClosedIff | windows/runner/win32_window.cpp:182-221 | a window that its object knows is closed, and its handle cleared, exactly when the system agrees |
| WindowEffects.DestroyMessageEffect | windows/runner/win32_window.cpp:182-188 | a WM_DESTROY out of nowhere: the handle is dropped, the window stays, the quit message follows if asked for |
| WindowEffects.SystemDestroyEffect | windows/runner/win32_window.cpp:182-188 | a window destroyed by the system goes, and its object drops its handle and asks to quit if it should |
| WindowEffects.OtherMessageEffect | windows/runner/win32_window.cpp:190-219 | every other message leaves the state alone unless its object is gone |
| WindowEffects.DestroyEffect | windows/runner/win32_window.cpp:224-234 | the whole state after Destroy of a live object, whether the system agrees or not |
| WindowEffects.CreateEffect | windows/runner/win32_window.cpp:123-150 | the whole state after Create in each outcome: the old window destroyed, the class registered before the one call of CreateWindow, the handle and user data of a new window set, every other field kept |
| WindowEffects.DeleteEffect | windows/runner/win32_window.cpp:118-121 | the whole state after deletion of any object, the last one included, with the exact sequence of system calls |
| WindowEffects.LastSettingHolds | windows/runner/win32_window.cpp:241-264 | in every run each object has the quit-on-close flag and the child it was last given, false and nullptr at first, whatever happened to its windows |
| Win32Windows.Win32Window.Destroy | windows/runner/win32_window.cpp:224-234 | the method, calling DestroyWindow and re-entered by it, terminates and changes the shared state as the model's Destroy does |
| Win32Windows.Win32Window.MessageHandler | windows/runner/win32_window.cpp:176-222 | the handler changes the shared state as the model's does, for every message |
| Win32Windows.Win32Window.WndProc | windows/runner/win32_window.cpp:157-174 | dispatch through the user data, also when the object is gone; without user data nothing changes |
| Win32Windows.Win32Window.Create | windows/runner/win32_window.cpp:123-150 | creation in every outcome, and success exactly when a window was made |
| Win32Windows.Win32Window.Delete | windows/runner/win32_window.cpp:118-121 | the destructor changes the shared state as the model's does and ends the object's storage |
| Win32Windows.Win32Window.constructor | windows/runner/win32_window.cpp:114-116 | a new object is counted and holds no handle |
| Win32Windows.Win32Window.WndProcNcCreate | windows/runner/win32_window.cpp:161-169 | WM_NCCREATE sets the user data of the window and the handle of its object |
| Win32Windows.Win32Window.SetQuitOnClose | windows/runner/win32_window.cpp:262-264 | one field of one object changes |
| Win32Windows.Win32Window.SetChildContent | windows/runner/win32_window.cpp:241-242 | one field of one object changes |
| Win32Windows.Process.Perform | windows/runner/win32_window.cpp:114-264 | every operation of a run, performed by the methods, changes the shared state as the run does |
| Win32Windows.Process.GetWindowClass | windows/runner/win32_window.cpp:89-107 | the class counts as registered afterwards and nothing else changes |
| Win32Windows.Process.UnregisterWindowClass | windows/runner/win32_window.cpp:109-112 | the call is recorded with the objects then live, and the class counts as unregistered |
| Win32Windows.Process.DestroyWindow | windows/runner/win32_window.cpp:227-229 | the system's part: WM_DESTROY is delivered before the call returns, then the window is gone |
| Win32Windows.Process.CreateWindow | windows/runner/win32_window.cpp:138-142 | the system's part: WM_NCCREATE is delivered before the call returns, in each outcome |
| IoCaches.IoCache.MyBRead | bin/mysql/include/mysql/server/my_sys.h:510-519 | success delivers exactly the next bytes of the file and moves the position by their number; a partial read delivers the whole rest; a hard error is one of the function behind; what the cache holds is read without an error and leaves buffer position plus size unchanged |
| IoCaches.IoCache.MyBGet | bin/mysql/include/mysql/server/my_sys.h:536-544 | the next byte of the file, or my_b_EOF exactly at its end unless the function behind had a hard error; a cached byte is delivered without an error and leaves buffer position plus size unchanged |
| IoCaches.IoCache.MyBFill | bin/mysql/include/mysql/server/my_sys.h:556-570 | the position moves by the unread bytes of the cache; 0 means end of file or a hard error of the function behind, another result is the number of bytes cached |
| IoCaches.IoCache.SlowRead | bin/mysql/include/mysql/server/my_sys.h:436-444 | assumed contract of _my_b_read, shown to be satisfiable |
| IoCaches.IoCache.SlowGet | bin/mysql/include/mysql/server/my_sys.h:501 | assumed contract of _my_b_get, from the contract of _my_b_read for one byte |
| IoCaches.IoCache.Consume | bin/mysql/include/mysql/server/my_sys.h:510-570 | any interleaving of reads, gets and fills refines a plain byte sequence with an offset: each read or get delivers exactly what it asked for from where the previous operation ended, or what the file still has, and each fill passes over the bytes there; together they are the file in order, all delivered when every fill finds the cache consumed; it stops short exactly when a function behind had a hard error |
| IoCaches.IoCache.DrainByGet | bin/mysql/include/mysql/server/my_sys.h:536-544 | a my_b_get loop to my_b_EOF ends with the whole rest of the file, or a prefix of it after a hard error |
| IoCaches.IoCache.MyBWrite | bin/mysql/include/mysql/server/my_sys.h:521-534 | data that fits is put into the buffer and nothing else changes; on success flushed and buffered bytes together grow by exactly the data; failure means that the function behind had a hard error |
| IoCaches.IoCache.MyBWriteByte | bin/mysql/include/mysql/server/my_sys.h:546-554 | a byte that fits is put into the buffer and nothing else changes; on success they grow by exactly the byte; failure means that the flush had a hard error |
| IoCaches.IoCache.FlushIoCache | bin/mysql/include/mysql/server/my_sys.h:500 | assumed contract of my_b_flush_io_cache, shown to be satisfiable |
| IoCaches.IoCache.SlowWrite | bin/mysql/include/mysql/server/my_sys.h:503 | assumed contract of _my_b_write, shown to be satisfiable |
| IoCaches.IoCache.Produce | bin/mysql/include/mysql/server/my_sys.h:521-554 | for any writes that all succeed, flushed plus buffered bytes are everything written in order, and my_b_write_tell moves by their number; they fail exactly when a function behind had a hard error |
| IoCaches.IoCache.Written | bin/mysql/include/mysql/server/my_sys.h:581-584 | my_b_write_tell is the start offset plus the number of bytes written through the cache |
| IoCaches.TellAndCache | bin/mysql/include/mysql/server/my_sys.h:572-607 | on a read cache, my_b_tell plus the bytes cached is the buffer's file position plus its bytes |
| IoCaches.TellOfWriteCache | bin/mysql/include/mysql/server/my_sys.h:572-607 | on a write cache my_b_tell is start offset plus bytes written less request_pos, my_b_write_tell start offset plus bytes written, and my_b_bytes_in_cache the distance from there to the end of the buffer |
| LockedCounter.CounterIsExact | bin/mysql/include/mysql/server/my_pthread.h:760-775 | for any threads, programs and schedule: whenever the mutex is free the counter is its start value plus the increments and all amounts added less the decrements and all amounts subtracted, over the completed updates, modulo the word size, and at most one thread is inside |
| LockedCounter.EveryFinishIsTheSame | bin/mysql/include/mysql/server/my_pthread.h:747-775 | every schedule that finishes all programs ends with the same counter: no update is lost |
| LockedCounter.Progress | bin/mysql/include/mysql/server/my_pthread.h:760-775 | no deadlock: while work is left some thread can move, and every move brings the end one step nearer |
| LockedCounter.CanFinish | bin/mysql/include/mysql/server/my_pthread.h:760-775 | from every state satisfying the invariant some schedule finishes all programs |
| LockedCounter.StepKeepsInv | bin/mysql/include/mysql/server/my_pthread.h:760-775 | lock, load, store and unlock each keep exclusion and the counter equation |
| StatisticCounter.SomeUpdatesCounted | bin/mysql/include/mysql/server/my_pthread.h:780-801 | without the mutex, in every interleaving of increments, decrements, additions and subtractions the counter is its start value plus the updates that the stores have kept, modulo the word size; the last one stored is kept, and all are exactly when none was stored over a newer value than it had loaded |
| StatisticCounter.KeptIff | bin/mysql/include/mysql/server/my_pthread.h:780-801 | which they are: a store is kept exactly when it is the last one, or a store that is kept loaded what it had left |
| StatisticCounter.IncrementsCounted | bin/mysql/include/mysql/server/my_pthread.h:780-801 | of increments, n are counted modulo the word size, at least one and at most the stores made, and all exactly when no store went over a newer value; the counter never exceeds start plus stores |
| StatisticCounter.UpdateLost | bin/mysql/include/mysql/server/my_pthread.h:785-801 | two threads and four steps lose an update, whatever the two updates are |
| InterlockedCounter.LowHalfCounts | bin/mysql/include/mysql/server/my_pthread.h:756-758 | the Windows form counts every update modulo 2^32 in the low half and leaves the high half alone |
| InterlockedCounter.WideCounterIff | bin/mysql/include/mysql/server/my_pthread.h:768-770 | a 64-bit counter is then exact if and only if the 64-bit sum keeps its high half |
| CString.SafeStrcat | bin/mysql/include/mysql/server/m_string.h:307-313 | the whole memory afterwards and the result, also when the destination has no NUL in its room |
| CString.SafeStrcpyTruncated | bin/mysql/include/mysql/server/m_string.h:279-298 | the whole memory afterwards; 1 exactly when the source does not fit with its NUL |
| CString.SafeStrcpy | bin/mysql/include/mysql/server/m_string.h:243-268 | the whole memory afterwards: text, NUL and zeros to the end of the room |
| CString.Strnmov | bin/mysql/include/mysql/server/m_string.h:279-298 | the loop writes the source up to and including its NUL but at most n bytes and returns where it stopped |
| CString.Strlen | bin/mysql/include/mysql/server/m_string.h:309 | the distance to the first NUL from the destination on |
| CString.AppendAll | bin/mysql/include/mysql/server/m_string.h:300-313 | after any list of appends the room holds the first size - 1 characters of the concatenation and one NUL; no other byte of the memory changed |
| CString.AppendReports | bin/mysql/include/mysql/server/m_string.h:300-313 | as a C string it is that prefix, and the next append returns 1 exactly when its source is longer than the room left |
| CString.AppendRefused | bin/mysql/include/mysql/server/m_string.h:300-313 | without a NUL in the room no append changes anything, and each returns 1 |
| CString.WritesStayInRoom | bin/mysql/include/mysql/server/m_string.h:243-313 | none of the three functions changes a byte outside the room, for every size and content |
| CString.SameText | bin/mysql/include/mysql/server/m_string.h:236-298 | both copies leave the same C string for every source and size |
| CString.PadsIff | bin/mysql/include/mysql/server/m_string.h:270-298 | both copies leave the same buffer exactly when it was zero already behind the text |
| Fields.LastStoreWins | bin/mysql/include/mysql/server/byte_order_generic.h:36-96 | after any stores in any order into fields laid back to back, each field loads as the last value stored in it modulo 256^N |
| Fields.RecordRoundTrip | bin/mysql/include/mysql/server/byte_order_generic.h:36-96 | a record stored field by field loads back value by value |
| Fields.OutsideUntouched | bin/mysql/include/mysql/server/byte_order_generic.h:65-96 | stores change no byte outside the record |
| Bytes.LeOfLeBytes | bin/mysql/include/mysql/server/byte_order_generic.h:36-96 | storing n bytes and loading them is reduction modulo 256^n |
| Bytes.SignedRoundTripIff | bin/mysql/include/mysql/server/byte_order_generic.h:21-35 | a signed load gives back exactly the values in the signed range |
| PortableOrder.Uint2korr | bin/mysql/include/mysql/server/byte_order_generic.h:36-37 | the shift/or expression is the positional value of 2 bytes |
| PortableOrder.Uint3korr | bin/mysql/include/mysql/server/byte_order_generic.h:38-40 | the same for 3 bytes |
| PortableOrder.Uint4korr | bin/mysql/include/mysql/server/byte_order_generic.h:41-44 | the same for 4 bytes |
| PortableOrder.Uint5korr | bin/mysql/include/mysql/server/byte_order_generic.h:45-49 | the same for 5 bytes |
| PortableOrder.Uint6korr | bin/mysql/include/mysql/server/byte_order_generic.h:50-55 | the same for 6 bytes |
| PortableOrder.Uint8korr | bin/mysql/include/mysql/server/byte_order_generic.h:56-64 | the same for 8 bytes |
| PortableOrder.Sint3korr | bin/mysql/include/mysql/server/byte_order_generic.h:23-30 | the hand-made sign byte gives the two's complement reading of the 24-bit value |
| PortableOrder.Sint2korr | bin/mysql/include/mysql/server/byte_order_generic.h:21-22 | the two's complement reading of 2 bytes |
| PortableOrder.Sint4korr | bin/mysql/include/mysql/server/byte_order_generic.h:31-34 | the two's complement reading of 4 bytes |
| PortableOrder.Sint8korr | bin/mysql/include/mysql/server/byte_order_generic.h:35 | the two's complement reading of 8 bytes |
| PortableOrder.Int2store | bin/mysql/include/mysql/server/byte_order_generic.h:65-68 | exactly 2 bytes change, to the low bytes of the value |
| PortableOrder.Int3store | bin/mysql/include/mysql/server/byte_order_generic.h:69-73 | the same for 3 bytes |
| PortableOrder.Int4store | bin/mysql/include/mysql/server/byte_order_generic.h:74-78 | the same for 4 bytes |
| PortableOrder.Int5store | bin/mysql/include/mysql/server/byte_order_generic.h:79-84 | the same for 5 bytes |
| PortableOrder.Int6store | bin/mysql/include/mysql/server/byte_order_generic.h:85-91 | the same for 6 bytes |
| PortableOrder.Int8store | bin/mysql/include/mysql/server/byte_order_generic.h:92-96 | the same for 8 bytes, from two 4-byte stores |
| X86Order.LoadsAgree | bin/mysql/include/mysql/server/byte_order_generic_x86.h:21-48 | the single-access loads compute what the portable expressions compute |
| X86Order.Int2store | bin/mysql/include/mysql/server/byte_order_generic_x86.h:50 | one 16-bit store changes memory as the portable macro does |
| X86Order.Int3store | bin/mysql/include/mysql/server/byte_order_generic_x86.h:51-54 | so do the byte stores with a conversion in the middle one |
| X86Order.Int4store | bin/mysql/include/mysql/server/byte_order_generic_x86.h:55 | so does one 32-bit store |
| X86Order.Int5store | bin/mysql/include/mysql/server/byte_order_generic_x86.h:56-61 | so do five byte stores |
| X86Order.Int6store | bin/mysql/include/mysql/server/byte_order_generic_x86.h:62-68 | so do six byte stores |
| X86Order.Int8store | bin/mysql/include/mysql/server/byte_order_generic_x86.h:69 | so does one 64-bit store |
| X64Order.Uint5korr | bin/mysql/include/mysql/server/byte_order_generic_x86_64.h:38-43 | a 4-byte and a 1-byte load joined compute the portable 5-byte load |
| X64Order.Uint6korr | bin/mysql/include/mysql/server/byte_order_generic_x86_64.h:44-49 | a 4-byte and a 2-byte load joined compute the portable 6-byte load |
| X64Order.Int5store | bin/mysql/include/mysql/server/byte_order_generic_x86_64.h:67-70 | a 4-byte and a 1-byte store change memory as the portable macro does |
| X64Order.Int6store | bin/mysql/include/mysql/server/byte_order_generic_x86_64.h:72-75 | a 4-byte and a 2-byte store change memory as the portable macro does |
| X64Order.Int2store | bin/mysql/include/mysql/server/byte_order_generic_x86_64.h:54-56 | one 16-bit store does |
| X64Order.Int4store | bin/mysql/include/mysql/server/byte_order_generic_x86_64.h:63-65 | one 32-bit store does |
| X64Order.Int8store | bin/mysql/include/mysql/server/byte_order_generic_x86_64.h:77-79 | one 64-bit store does |
| X64Order.MiUint5korr | bin/mysql/include/mysql/server/byte_order_generic_x86_64.h:90-97 | shift and byte swap give the big-endian value of 5 bytes |
| X64Order.MiUint6korr | bin/mysql/include/mysql/server/byte_order_generic_x86_64.h:99-106 | the same for 6 bytes |
| X64Order.MiUint7korr | bin/mysql/include/mysql/server/byte_order_generic_x86_64.h:108-116 | the same for 7 bytes |
| X64Order.MiUint8korr | bin/mysql/include/mysql/server/byte_order_generic_x86_64.h:118-123 | the same for 8 bytes |
| PackOrder.MiUint5korr | bin/mysql/include/mysql/mariadb_rpl.h:594-599 | the shift/or expression is the big-endian value of 5 bytes |
| PackOrder.MiUint6korr | bin/mysql/include/mysql/server/private/myisampack.h:66-72 | the same for 6 bytes |
| PackOrder.MiUint7korr | bin/mysql/include/mysql/server/private/myisampack.h:76-83 | the same for 7 bytes |
| PackOrder.MiUint8korr | bin/mysql/include/mysql/server/private/myisampack.h:87-95 | the same for 8 bytes |
| PackOrder.ByteSwapAgrees56 | bin/mysql/include/mysql/server/byte_order_generic_x86_64.h:90-106 | the byte-swap loads of 5 and 6 bytes compute the portable expressions of the same name |
| PackOrder.ByteSwapAgrees78 | bin/mysql/include/mysql/server/byte_order_generic_x86_64.h:108-123 | the byte-swap loads of 7 and 8 bytes compute the portable expressions of the same name |
| PackOrder.MyisamUint2korr | bin/mysql/include/mysql/mariadb_rpl.h:572-573 | the big-endian value of 2 bytes |
| PackOrder.MyisamUint3korr | bin/mysql/include/mysql/mariadb_rpl.h:576-579 | the big-endian value of 3 bytes |
| PackOrder.MyisamUint4korr | bin/mysql/include/mysql/mariadb_rpl.h:584-588 | the big-endian value of 4 bytes |
| PackOrder.MyisamSint3IsSignedIff | bin/mysql/include/mysql/mariadb_rpl.h:580-583 | the macro is the signed reading of 3 bytes exactly when the sign bit is clear |
| PackOrder.Int4net | bin/mysql/include/mysql/server/my_byteorder.h:24-27 | the two's complement reading of 4 bytes in network order |
| Align.AlignRoundsUpIff | bin/mysql/include/mysql/server/my_global.h:821 | for a power of two MY_ALIGN is the least multiple at or above A exactly when A + L - 1 fits in the word, and 0 otherwise |
| Align.AlignMixedRoundsUpIff | bin/mysql/include/mysql/server/my_global.h:821 | for operands of any two unsigned types it rounds up exactly when A + L - 1 fits in the type of L or, when that is narrower than int and so promoted, in the promoted type of A |
| Align.MixedIsUniform | bin/mysql/include/mysql/server/my_global.h:821 | for every L the macro on two types computes what it computes on that one width |
| Align.AlignNeedsPowerOfTwo | bin/mysql/include/mysql/server/my_global.h:821 | MY_ALIGN rounds up every operand for which the sum fits exactly when L is a power of two |
| Align.AlignDownRounds | bin/mysql/include/mysql/server/my_global.h:822 | for a power of two MY_ALIGN_DOWN is the greatest multiple at or below A |
| Align.AlignDownNeedsPowerOfTwo | bin/mysql/include/mysql/server/my_global.h:822 | MY_ALIGN_DOWN rounds every operand down exactly when L is a power of two |
| Align.AlignsDiffer | bin/mysql/include/mysql/server/my_global.h:821-822 | the two macros agree on multiples of L and differ by L elsewhere |
| Align.AlignsIdempotent | bin/mysql/include/mysql/server/my_global.h:821-822 | both macros leave an aligned value alone |
| Align.AlignsMonotone | bin/mysql/include/mysql/server/my_global.h:821-822 | both macros are monotone where nothing overflows |
| Uuid.MyUuid2Str | bin/mysql/include/mysql/server/my_sys.h:1044-1055 | the mask-driven loop writes exactly the 36 or 32 characters of the grouped text and nothing else |
| Uuid.RoundTrip | bin/mysql/include/mysql/server/my_sys.h:1035-1055 | dropping the dashes and reading the digits gives back the 16 bytes |
| Uuid.Injective | bin/mysql/include/mysql/server/my_sys.h:1044-1055 | two identifiers have the same text exactly when they are equal |
| Uuid.DashPositions | bin/mysql/include/mysql/server/my_sys.h:1035-1047 | the dashes stand at offsets 8, 13, 18 and 23 and nowhere else |
| Timespec.CmpIsSign | bin/mysql/include/mysql/server/my_pthread.h:342-356 | cmp_timespec on two normalised times is the sign of the difference of their nanosecond counts |
| Timespec.CmpIsOrder | bin/mysql/include/mysql/server/my_pthread.h:342-348 | cmp_timespec is a total order on all timespecs |
| Timespec.TimeoutOrderIff | bin/mysql/include/mysql/server/my_pthread.h:317-322 | two timeouts from one clock reading are ordered as their lengths exactly when both or neither of the 64-bit sums wrap |
| Timespec.TimespecVar.SetTimeNsec | bin/mysql/include/mysql/server/my_pthread.h:350-356 | the fields are normalised and represent the count for every 64-bit value: no conversion loses anything |
| Timespec.TimespecVar.SetTimespecNsec | bin/mysql/include/mysql/server/my_pthread.h:319-322 | the fields are normalised and represent the clock reading in nanoseconds plus the delay, modulo 2^64 |
| Timespec.TimespecVar.SetTimespec | bin/mysql/include/mysql/server/my_pthread.h:317 | the same for a delay in seconds, also when the product wraps |

## Left out

- IoCaches.IoCache.MyBRead: after a hard error nothing is said about the position or the caller's buffer, because the header says only that `error` is then -1.
- IoCaches.IoCache.MyBWrite: after a failed write nothing is said about what reached the disk, for the same reason.
- Win32Windows.Win32Window.SetChildContent: `SetParent`, `MoveWindow` and `SetFocus` on the content are omitted; they change none of the modelled state.
- `FlutterWindow`: its controller is foreign code; the base class alone is modelled, so `OnCreate` and `OnDestroy` do nothing.
- Windows parented to one another: `SetChildContent` is taken with content that is not itself one of these windows, so destroying a window destroys no other object's window.
- Moving, sizing, focus, theme and DPI of windows, and the message loop of `main.cpp`: they change none of the modelled state.
- Handle values reused by the system after a window is gone: every creation gets a handle of its own.
- `SEQ_READ_APPEND`, shared, encrypted and network caches, `my_b_seek` and asynchronous reads: their code is not in the repository.
- Overflow of `my_off_t` and of pointer sums in the cache functions.
- The big-endian store macros of `myisampack.h`, and the signed one- and two-byte big-endian loads.
- Float and double access macros, `big_endian.h` and `my_double2ulonglong`: they need a model of IEEE numbers or another memory order.
- `hrtime_*` and `make_hr_time`: single divisions by a constant.
- Functions that the headers only declare, such as the JSON scanner, decimals, character sets, key cache and network code.
