# Time-travel event log

This project is a Dafny model of the event log in ChakraCore's time-travel debugging support (TTD). It models three parts of `lib/Runtime/Debug/TTEventLog.h`.

- **`TTEventList`**: the storage of logged events.
  - It is a doubly linked list of 512-slot blocks.
  - Each block's live entries are the slots between its `StartPos` and `CurrPos` cursors.
  - Entries are appended after the last one (`AddEntry`) and removed only from the front (`DeleteFirstEntry`).
  - A bidirectional `Iterator` walks the entries.
- **The mode state machine of `EventLog`**: a stack of mode flag sets.
  - The bottom of the stack is the global mode.
  - The current mode is computed from the stack.
  - Two gates read the current mode to decide whether record work or debug work is done.
- **Call and time bookkeeping of `EventLog`**:
  - the global event-time counter;
  - the stack of call counters;
  - the reset done at the start of each top-level call;
  - the lookup of the snapshot to start replay from.

Files:

- `Spans.dfy` (module `Spans`) is a pure view of a list of blocks.
  - The list's contents are its blocks' live slices, one after the other.
  - `Locate` maps a position in the contents to a block number and an offset in that block.
- `EventList.dfy` (module `EventList`) holds the blocks, the list and the iterator as classes.
  - Blocks are linked in place.
  - Each block holds an `array` of 512 slots.
  - The list's ghost `Contents` is the sequence of stored entries, in insertion order.
  - `Valid()` ties the cursors, the links and the arrays to `Contents`.
  - `Denotes(it, k)` says that the iterator `it` stands at position `k` of `Contents`. When `k` is out of range, the iterator stands on no block.
- `Modes.dfy` (module `Modes`) holds the mode flags, the two gate masks and the mode computed from a stack.
- `EventLog.dfy` (module `TimeTravel`) holds the `EventLog` class and the snapshot lookup specification.

The mode is a set of flags drawn from `RecordEnabled`, `DebuggingEnabled` and `ExcludedExecution`; the empty set is the idle mode. The current mode is the union of the modes on the stack. So a scope pushed as `ExcludedExecution` suppresses recording whatever the global mode is.

## Model

| member | source | states |
|---|---|---|
| EventList.TTEventList.constructor | lib/Runtime/Debug/TTEventLog.h:120 | a new list is valid and holds no entries |
| EventList.TTEventList.UnloadEventList | lib/Runtime/Debug/TTEventLog.h:121 | afterwards the list is valid and empty |
| EventList.TTEventList.AddArrayLink | lib/Runtime/Debug/TTEventLog.h:94-116 | a fresh empty 512-slot block is linked after the newest one, whose `Next` now points at it; the block list grows by that block and the entries are unchanged |
| EventList.TTEventList.LinkAfterHead | lib/Runtime/Debug/TTEventLog.h:94-116 | a fresh empty block is linked after a full newest block: the old newest block's `Next` points at it, its `Previous` at the old newest block, and the entries are unchanged |
| EventList.TTEventList.StoreAtCurrPos | lib/Runtime/Debug/TTEventLog.h:96-124 | storing at the newest block's `CurrPos` and advancing it appends exactly that entry to the contents |
| EventList.TTEventList.AddEntry | lib/Runtime/Debug/TTEventLog.h:116-124 | the entry is appended after all earlier entries, which are unchanged; a block is linked exactly when the list was empty or its newest block full; the invariant (`StartPos <= CurrPos <= 512`, live slots `[StartPos, CurrPos)`) is kept |
| EventList.TTEventList.RemoveArrayLink | lib/Runtime/Debug/TTEventLog.h:117 | the drained first block is unlinked: the next block loses its `Previous` link (or the list becomes empty), and the entries are unchanged |
| EventList.TTEventList.DeleteFirstEntry | lib/Runtime/Debug/TTEventLog.h:126-128 | called only with the first block and the first entry, it removes exactly that entry and keeps the rest in order; a block left without entries is unlinked |
| EventList.TTEventList.IsEmpty | lib/Runtime/Debug/TTEventLog.h:130-131 | true exactly when the list holds no entry |
| EventList.TTEventList.Count | lib/Runtime/Debug/TTEventLog.h:133-134 | summing `CurrPos - StartPos` over the blocks gives the number of stored entries; together with `IsEmpty`, the list is empty iff the count is 0 |
| EventList.TTEventList.ValidSpans | lib/Runtime/Debug/TTEventLog.h:94-108 | in a valid list every linked block holds at least one live entry |
| EventList.TTEventList.GetIteratorAtFirst | lib/Runtime/Debug/TTEventLog.h:155 | the new iterator stands on the first entry, or on no entry when the list is empty |
| EventList.TTEventList.GetIteratorAtLast | lib/Runtime/Debug/TTEventLog.h:156 | the new iterator stands on the last entry, or on no entry when the list is empty |
| EventList.Iterator.constructor | lib/Runtime/Debug/TTEventLog.h:143 | the default iterator has no block and index 0, so it stands on no entry |
| EventList.Iterator.At | lib/Runtime/Debug/TTEventLog.h:144 | the iterator built from a block and a slot stands on that block at that slot |
| EventList.Iterator.Current | lib/Runtime/Debug/TTEventLog.h:146-147 | an iterator at position k yields the k-th entry in insertion order |
| EventList.Iterator.IsValid | lib/Runtime/Debug/TTEventLog.h:149 | true exactly while the iterator stands on a live entry |
| EventList.Iterator.MoveNext | lib/Runtime/Debug/TTEventLog.h:151 | from position k the iterator moves to position k+1 (to the next block's `StartPos` at a block end), and falls off after the last entry; so entries are visited in insertion order |
| EventList.Iterator.MovePrevious | lib/Runtime/Debug/TTEventLog.h:152 | from position k the iterator moves to position k-1 (to the previous block's last slot at a block start), and falls off before the first entry; so entries are visited in reverse order |
| Spans.Locate | lib/Runtime/Debug/TTEventLog.h:139-140 | every position of the contents is held by one block at one offset within its live slice, which is what an iterator's link and index name |
| Spans.ConcatAppend | lib/Runtime/Debug/TTEventLog.h:116 | linking one more block appends its slice to the contents |
| Spans.GrowLast | lib/Runtime/Debug/TTEventLog.h:123-124 | growing the newest block by one slot appends one entry to the contents |
| Spans.ShrinkFirst | lib/Runtime/Debug/TTEventLog.h:126-128 | advancing the first block's start by one drops the first entry of the contents |
| Spans.LocateFirst | lib/Runtime/Debug/TTEventLog.h:155 | the first entry is at offset 0 of the first block's live slice |
| Spans.LocateLast | lib/Runtime/Debug/TTEventLog.h:156 | the last entry is at the last offset of the newest block's live slice |
| Spans.LocateNext | lib/Runtime/Debug/TTEventLog.h:151 | the entry after position k is at the next offset of the same block, or at offset 0 of the next block, or there is none |
| Spans.LocatePrevious | lib/Runtime/Debug/TTEventLog.h:152 | the entry before position k is at the previous offset of the same block, or at the last offset of the previous block, or there is none |
| Modes.MaskedIsSingleton | lib/Runtime/Debug/TTEventLog.h:329-338 | masking with {flag, ExcludedExecution} leaves exactly {flag} iff the flag is set and ExcludedExecution is clear |
| Modes.CombinedModeHas | lib/Runtime/Debug/TTEventLog.h:290-291 | a flag is in the computed mode iff some mode on the stack sets it |
| Modes.CombinedModePush | lib/Runtime/Debug/TTEventLog.h:317-318 | pushing a mode adds its flags to the computed mode |
| Modes.SetBottomMode | lib/Runtime/Debug/TTEventLog.h:314-315 | replacing the bottom mode changes the computed mode only through that entry; the pushed scopes keep their flags |
| TimeTravel.EventLog.constructor | lib/Runtime/Debug/TTEventLog.h:204-225 | a new log is valid, holds no events or call frames, has the idle mode as its only mode, both time counters at 0, and is outside any callback (time and id -1) |
| TimeTravel.EventLog.ShouldPerformRecordAction_SymbolCreation | lib/Runtime/Debug/TTEventLog.h:326-331 | true exactly when `RecordEnabled` is set and `ExcludedExecution` is clear in the current mode |
| TimeTravel.EventLog.ShouldPerformDebugAction_SymbolCreation | lib/Runtime/Debug/TTEventLog.h:333-343 | true exactly when debugging support is built in, `DebuggingEnabled` is set and `ExcludedExecution` is clear; always false without debugging support |
| TimeTravel.EventLog.ExcludedScopeSuppressesActions | lib/Runtime/Debug/TTEventLog.h:326-343 | while any mode on the stack has `ExcludedExecution`, neither gate lets work through |
| TimeTravel.EventLog.UpdateComputedMode | lib/Runtime/Debug/TTEventLog.h:290-291 | the current mode becomes the mode computed from the whole stack; nothing else changes |
| TimeTravel.EventLog.SetGlobalMode | lib/Runtime/Debug/TTEventLog.h:314-315 | only the bottom of the mode stack is replaced, and the current mode is the new global mode plus the pushed scopes' flags |
| TimeTravel.EventLog.PushMode | lib/Runtime/Debug/TTEventLog.h:317-318 | the mode is pushed and its flags join the current mode |
| TimeTravel.EventLog.PopMode | lib/Runtime/Debug/TTEventLog.h:320-321 | only when the top is the given mode and the global mode stays below it, the top is removed and the current mode is recomputed from the rest |
| TimeTravel.EventLog.PushThenPopMode | lib/Runtime/Debug/TTEventLog.h:317-321 | calling `PushMode(m)` and then `PopMode(m)` on a valid log gives back its mode stack and current mode; the call stack and event time are unchanged |
| TimeTravel.EventLog.GetTopCallCounter | lib/Runtime/Debug/TTEventLog.h:274-275 | the result is the top frame of the call stack, which needs at least one frame |
| TimeTravel.EventLog.GetTopCallCallerCounter | lib/Runtime/Debug/TTEventLog.h:278-279 | the result is the frame just below the top, which needs at least two frames |
| TimeTravel.EventLog.GetCurrentEventTimeAndAdvance | lib/Runtime/Debug/TTEventLog.h:281-282 | the result is the counter's prior value and the counter grows by one, so each time handed out exceeds every earlier one (the log keeps the handed-out times strictly increasing) |
| TimeTravel.EventLog.InsertEventAtHead | lib/Runtime/Debug/TTEventLog.h:287-288 | the event is appended after all logged events; the modes, call stack, event-time counter and function-time counter are unchanged |
| TimeTravel.EventLog.ResetCallStackForTopLevelCall | lib/Runtime/Debug/TTEventLog.h:483-484 | the call stack is empty, the function-time counter is zero, and the callback event time and host id are the given ones |
| TimeTravel.EventLog.FindSnapTimeForEventTime | lib/Runtime/Debug/TTEventLog.h:509-511 | walking the log backwards, the result is the time of the latest logged snapshot at or before the target, or -1; fresh contexts are asked for exactly when it is -1 |
| TimeTravel.ScanBack | lib/Runtime/Debug/TTEventLog.h:509-511 | from an iterator at position k, stepping back with `MovePrevious`, the result is the lookup over the first k+1 events: the first snapshot at or before the target met on the way back, or -1 |
| TimeTravel.SnapTimeNotFound | lib/Runtime/Debug/TTEventLog.h:509-511 | over the first n events, the lookup gives -1 iff none of them is a snapshot at or before the target |
| TimeTravel.SnapTimeFound | lib/Runtime/Debug/TTEventLog.h:509-511 | a result other than -1 is the time of one of the first n events that is a snapshot at or before the target |
| TimeTravel.SnapTimeGreatest | lib/Runtime/Debug/TTEventLog.h:509-511 | when event times increase along the log, no usable snapshot among the first n events is later than the result: it is the nearest checkpoint |

## Left out

- The `.cpp` file that holds the bodies of the declared operations is not part of this model.
  - The header gives the bodies of only the two `ShouldPerform*_SymbolCreation` predicates. Every other modelled body is rebuilt from its declaration, the field layout and the comments.
  - `UpdateComputedMode`: the computed mode is taken to be the union of the flags on the stack.
  - `FindSnapTimeForEventTime`:
    - It finds the snapshot by a backward walk of the log with the list's iterator.
    - The walk is written as a recursive method, `ScanBack`, with one call per step back, rather than as a loop.
    - `newCtxsNeeded` is read as the not-found case, where replay rebuilds script contexts instead of inflating a snapshot. The header only says the flag is set when replay should inflate with fresh script contexts, and leaves the exact condition open.
- `m_headBlock` names the block that appends go to. Older blocks are reached through `Previous`, and the first block is the one with no `Previous`.
- `Count` returns an unbounded count; the source's `uint32` is not modelled.
- The log does not keep event times in order, because `InsertEventAtHead` accepts an event with any time. So `FindSnapTimeForEventTime` on its own promises the latest usable snapshot in log order. It is the nearest checkpoint by time only on an ordered log (`SnapTimeGreatest`, under `Ordered`).
- `GetCurrentEventTimeAndAdvance` does not model 64-bit overflow of `m_eventTimeCtr`. Event times are natural numbers, so -1 never names a real time.
- Allocation goes through `new` rather than the slab allocators.
  - Freed slots and entries are not modelled, including `DeleteFirstEntry` calling unload on the entry.
  - Unused slots of a block hold a fill value instead of a null pointer.
- The mutable-reference overload of `GetTopCallCounter` (line 276) is not modelled, because the frames are values here.
- The replay iterator `m_currentReplayEventIterator` and `AdvanceTimeAndPositionForReplay` are not modelled; replay itself is outside this model.
- These operations are not modelled:
  - the `Record*` and `Replay*` entry points, including `PushCallEvent`, `PopCallEvent` and `PopCallEventException`;
  - snapshot extraction and inflation;
  - `PruneLogLength`;
  - `IsTimeForSnapshot` and `IncrementElapsedSnapshotTime`, which use floating-point wall-clock time;
  - log emit and parse, which are file I/O;
  - the property-record and script pin sets;
  - the debugger breakpoint and position queries;
  - the exception-safe frame popper classes;
  - `InitForTTDRecord`, `InitForTTDReplay` and `SetIntoDebuggingMode`. They set modes from runtime state that is not visible here.
  - `StartTimeTravelOnScript` and `StopTimeTravelOnScript`. They add and remove the script context (`m_ttdContext`), which is runtime state outside this model.
- The inflate-map cache (`m_lastInflateSnapshotTime`, `m_lastInflateMap`) and `UpdateInflateMapForFreshScriptContexts` are not modelled.
- `TimeTravel.EventLog.constructor`: the initial values are assumptions, because the constructor's body is not in the header. They are the idle mode as the only mode, both time counters at 0, and -1 for the callback time and host id (the -1 follows the field comments).
- `SingleCallCounter` keeps the function, event time, function time and loop time. The diagnostics-only `Name` and the `ENABLE_TTD_STACK_STMTS` statement fields are not modelled.
- The log directory, the snapshot interval and the snapshot history length given to the `EventLog` constructor are not modelled.
- `ENABLE_TTD_DEBUGGING` is the constant `debuggingSupport` of each log rather than a build flag.
- Event entries keep only their event time and whether they are a snapshot. Their payloads are not modelled.
