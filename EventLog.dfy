/**
 * The time-travel event log: the list of recorded events, the stack of
 * modes that decides whether record or debug work is done, the stack of call
 * counters and the global event-time counter.
 */
module TimeTravel {
  import opened Spans
  import opened EventList
  import opened Modes

  /** The kind of a logged event; only snapshot events matter to the lookup here. */
  datatype EventKind = SnapshotTag | OtherTag(tag: nat)

  /** A logged event, keyed by the event time at which it was recorded. */
  datatype EventLogEntry = EventLogEntry(eventTime: nat, kind: EventKind)

  /**
   * One frame of the call stack: the function (an opaque body id), the event
   * time and the function time when it was called, and its loop time.
   */
  datatype SingleCallCounter = SingleCallCounter(functionBody: nat, eventTime: nat, functionTime: nat, loopTime: nat)

  /** Strictly increasing times. */
  predicate StrictlyIncreasing(ts: seq<nat>)
  {
    forall i, j | 0 <= i < j < |ts| :: ts[i] < ts[j]
  }

  /** Entries appended in order carry strictly increasing event times. */
  predicate Ordered(es: seq<EventLogEntry>)
  {
    forall i, j | 0 <= i < j < |es| :: es[i].eventTime < es[j].eventTime
  }

  /** A snapshot event that replay to `targetTime` may start from. */
  predicate UsableSnapshot(e: EventLogEntry, targetTime: int)
  {
    e.kind == SnapshotTag && e.eventTime <= targetTime
  }

  /**
   * The time of the most recently logged snapshot at or before `targetTime`
   * among the first n events of `es`, or -1 when there is none.
   */
  function SnapTimeAtOrBefore(es: seq<EventLogEntry>, n: nat, targetTime: int): int
    requires n <= |es|
  {
    if n == 0 then -1
    else if UsableSnapshot(es[n - 1], targetTime) then es[n - 1].eventTime
    else SnapTimeAtOrBefore(es, n - 1, targetTime)
  }

  /** The lookup fails exactly when none of the events looked at is a usable snapshot. */
  lemma {:induction false} SnapTimeNotFound(es: seq<EventLogEntry>, n: nat, targetTime: int)
    requires n <= |es|
    ensures SnapTimeAtOrBefore(es, n, targetTime) == -1
        <==> forall i | 0 <= i < n :: !UsableSnapshot(es[i], targetTime)
  {
    if n > 0 {
      SnapTimeNotFound(es, n - 1, targetTime);
    }
  }

  /** A found time is the time of a usable snapshot among the events looked at. */
  lemma {:induction false} SnapTimeFound(es: seq<EventLogEntry>, n: nat, targetTime: int)
    requires n <= |es|
    ensures var r := SnapTimeAtOrBefore(es, n, targetTime);
      r != -1 ==> exists i | 0 <= i < n :: UsableSnapshot(es[i], targetTime) && es[i].eventTime == r
  {
    if n > 0 && !UsableSnapshot(es[n - 1], targetTime) {
      SnapTimeFound(es, n - 1, targetTime);
    }
  }

  /**
   * In a log whose event times increase, the found time is the greatest
   * time of a usable snapshot: the nearest checkpoint before the target.
   */
  lemma {:induction false} SnapTimeGreatest(es: seq<EventLogEntry>, n: nat, targetTime: int)
    requires n <= |es| && Ordered(es)
    ensures forall i | 0 <= i < n && UsableSnapshot(es[i], targetTime) ::
      es[i].eventTime <= SnapTimeAtOrBefore(es, n, targetTime)
  {
    if n > 0 && !UsableSnapshot(es[n - 1], targetTime) {
      SnapTimeGreatest(es, n - 1, targetTime);
    }
  }

  class EventLog {
    /** The global event time counter. */
    var eventTimeCtr: nat
    /** The function time counter of the current event dispatch. */
    var runningFunctionTimeCtr: nat
    /** Event time of the top-level callback, or -1 outside a callback. */
    var topLevelCallbackEventTime: int
    /** The host's id for the callback being run, or -1 when the host did not start one. */
    var hostCallbackId: int
    /** All the events seen, oldest first. */
    const eventList: TTEventList<EventLogEntry>
    /** The call counters, innermost call last. */
    var callStack: seq<SingleCallCounter>
    /** The pushed modes; the bottom entry is the global mode. */
    var modeStack: seq<TTDMode>
    /** The mode computed from the mode stack. */
    var currentMode: TTDMode
    /** Whether debugging support is built into the runtime. */
    const debuggingSupport: bool

    /** Every event time handed out so far, in the order handed out. */
    ghost var issued: seq<nat>
    ghost var Repr: set<object>

    ghost predicate Valid()
      reads this, Repr
    {
      && this in Repr
      && eventList in Repr && eventList.Repr <= Repr && this !in eventList.Repr
      && eventList.Valid()
      && |modeStack| >= 1
      && currentMode == CombinedMode(modeStack)
      && StrictlyIncreasing(issued)
      && (forall i | 0 <= i < |issued| :: issued[i] < eventTimeCtr)
    }

    /**
     * An empty log in the idle global mode, with no call frames, outside any
     * callback.
     */
    constructor (debuggingSupport: bool)
      ensures Valid() && fresh(Repr)
      ensures eventList.Contents == [] && callStack == []
      ensures modeStack == [Idle] && currentMode == Idle
      ensures eventTimeCtr == 0 && runningFunctionTimeCtr == 0
      ensures topLevelCallbackEventTime == -1 && hostCallbackId == -1
      ensures this.debuggingSupport == debuggingSupport
    {
      eventTimeCtr := 0;
      runningFunctionTimeCtr := 0;
      topLevelCallbackEventTime := -1;
      hostCallbackId := -1;
      var list := new TTEventList<EventLogEntry>();
      eventList := list;
      callStack := [];
      modeStack := [Idle];
      currentMode := Idle;
      this.debuggingSupport := debuggingSupport;
      issued := [];
      Repr := {this} + list.Repr;
    }

    /** Record work is done when recording is on and the code does not run in an excluded scope. */
    function ShouldPerformRecordAction_SymbolCreation(): (r: bool)
      reads this
      ensures r <==> RecordEnabled in currentMode && ExcludedExecution !in currentMode
    {
      MaskedIsSingleton(currentMode, RecordEnabled);
      currentMode * ShouldRecordActionMask == {RecordEnabled}
    }

    /**
     * Debug work is done when debugging support is built in, debugging is on
     * and the code does not run in an excluded scope.
     */
    function ShouldPerformDebugAction_SymbolCreation(): (r: bool)
      reads this
      ensures r <==> debuggingSupport && DebuggingEnabled in currentMode && ExcludedExecution !in currentMode
      ensures !debuggingSupport ==> !r
    {
      MaskedIsSingleton(currentMode, DebuggingEnabled);
      if debuggingSupport then currentMode * ShouldDebugActionMask == {DebuggingEnabled} else false
    }

    /**
     * While any scope on the mode stack is marked ExcludedExecution, neither
     * record nor debug work is done, whatever the global mode is.
     */
    lemma ExcludedScopeSuppressesActions(i: int)
      requires Valid() && 0 <= i < |modeStack| && ExcludedExecution in modeStack[i]
      ensures !ShouldPerformRecordAction_SymbolCreation()
      ensures !ShouldPerformDebugAction_SymbolCreation()
    {
      CombinedModeHas(modeStack, ExcludedExecution);
    }

    /** Recompute the current mode from the mode stack, bottom to top. */
    method UpdateComputedMode()
      requires |modeStack| >= 1
      modifies this
      ensures currentMode == CombinedMode(modeStack)
      ensures modeStack == old(modeStack) && callStack == old(callStack) && issued == old(issued) && Repr == old(Repr)
      ensures eventTimeCtr == old(eventTimeCtr)
      ensures topLevelCallbackEventTime == old(topLevelCallbackEventTime) && hostCallbackId == old(hostCallbackId)
      ensures runningFunctionTimeCtr == old(runningFunctionTimeCtr)
    {
      var cm := Idle;
      var i := 0;
      while i < |modeStack|
        invariant 0 <= i <= |modeStack|
        invariant cm == CombinedMode(modeStack[..i])
      {
        assert modeStack[..i + 1][..i] == modeStack[..i];
        cm := cm + modeStack[i];
        i := i + 1;
      }
      assert modeStack[..i] == modeStack;
      currentMode := cm;
    }

    /**
     * Replace the bottom (global) mode. The scopes pushed above it are kept,
     * so the current mode is the new global mode plus their flags.
     */
    method SetGlobalMode(m: TTDMode)
      requires Valid()
      modifies this
      ensures Valid() && Repr == old(Repr)
      ensures modeStack == old(modeStack)[0 := m]
      ensures currentMode == m + CombinedMode(old(modeStack)[1..])
      ensures callStack == old(callStack) && eventTimeCtr == old(eventTimeCtr) && issued == old(issued)
      ensures topLevelCallbackEventTime == old(topLevelCallbackEventTime) && hostCallbackId == old(hostCallbackId)
      ensures runningFunctionTimeCtr == old(runningFunctionTimeCtr)
    {
      modeStack := modeStack[0 := m];
      UpdateComputedMode();
      SetBottomMode(old(modeStack), m);
    }

    /** Push a mode for a nested scope; its flags join the current mode. */
    method PushMode(m: TTDMode)
      requires Valid()
      modifies this
      ensures Valid() && Repr == old(Repr)
      ensures modeStack == old(modeStack) + [m]
      ensures currentMode == old(currentMode) + m
      ensures callStack == old(callStack) && eventTimeCtr == old(eventTimeCtr) && issued == old(issued)
      ensures topLevelCallbackEventTime == old(topLevelCallbackEventTime) && hostCallbackId == old(hostCallbackId)
      ensures runningFunctionTimeCtr == old(runningFunctionTimeCtr)
    {
      modeStack := modeStack + [m];
      UpdateComputedMode();
      CombinedModePush(old(modeStack), m);
    }

    /**
     * Pop the top mode, which must be `m`; the global mode at the bottom is
     * never popped.
     */
    method PopMode(m: TTDMode)
      requires Valid() && |modeStack| >= 2 && modeStack[|modeStack| - 1] == m
      modifies this
      ensures Valid() && Repr == old(Repr)
      ensures modeStack == old(modeStack)[..|old(modeStack)| - 1]
      ensures currentMode == CombinedMode(modeStack)
      ensures callStack == old(callStack) && eventTimeCtr == old(eventTimeCtr) && issued == old(issued)
      ensures topLevelCallbackEventTime == old(topLevelCallbackEventTime) && hostCallbackId == old(hostCallbackId)
      ensures runningFunctionTimeCtr == old(runningFunctionTimeCtr)
    {
      modeStack := modeStack[..|modeStack| - 1];
      UpdateComputedMode();
    }

    /**
     * Entering a scope with PushMode and leaving it with PopMode of the same
     * mode gives back the mode stack and the current mode of before.
     */
    method PushThenPopMode(m: TTDMode)
      requires Valid()
      modifies this
      ensures Valid() && Repr == old(Repr)
      ensures modeStack == old(modeStack) && currentMode == old(currentMode)
      ensures callStack == old(callStack) && eventTimeCtr == old(eventTimeCtr) && issued == old(issued)
      ensures topLevelCallbackEventTime == old(topLevelCallbackEventTime) && hostCallbackId == old(hostCallbackId)
      ensures runningFunctionTimeCtr == old(runningFunctionTimeCtr)
    {
      PushMode(m);
      PopMode(m);
    }

    /** The frame of the innermost call: the top of the call stack. */
    function GetTopCallCounter(): (r: SingleCallCounter)
      reads this
      requires |callStack| >= 1
      ensures r in callStack
      ensures callStack == callStack[..|callStack| - 1] + [r]
    {
      callStack[|callStack| - 1]
    }

    /** The frame of the caller of the innermost call: just below the top. */
    function GetTopCallCallerCounter(): (r: SingleCallCounter)
      reads this
      requires |callStack| >= 2
      ensures r in callStack
      ensures callStack[..|callStack| - 1] == callStack[..|callStack| - 2] + [r]
    {
      callStack[|callStack| - 2]
    }

    /**
     * Hand out the current event time and advance the counter, so that every
     * time handed out is greater than all earlier ones.
     */
    method GetCurrentEventTimeAndAdvance() returns (t: nat)
      requires Valid()
      modifies this
      ensures Valid() && Repr == old(Repr)
      ensures t == old(eventTimeCtr) && eventTimeCtr == old(eventTimeCtr) + 1
      ensures issued == old(issued) + [t]
      ensures forall i | 0 <= i < |old(issued)| :: old(issued)[i] < t
      ensures modeStack == old(modeStack) && currentMode == old(currentMode) && callStack == old(callStack)
      ensures topLevelCallbackEventTime == old(topLevelCallbackEventTime) && hostCallbackId == old(hostCallbackId)
      ensures runningFunctionTimeCtr == old(runningFunctionTimeCtr)
    {
      t := eventTimeCtr;
      eventTimeCtr := eventTimeCtr + 1;
      issued := issued + [t];
    }

    /** Append an event after all logged ones. */
    method InsertEventAtHead(evnt: EventLogEntry)
      requires Valid()
      modifies Repr
      ensures Valid() && fresh(Repr - old(Repr))
      ensures eventList.Contents == old(eventList.Contents) + [evnt]
      ensures modeStack == old(modeStack) && currentMode == old(currentMode) && callStack == old(callStack)
      ensures eventTimeCtr == old(eventTimeCtr) && issued == old(issued)
      ensures topLevelCallbackEventTime == old(topLevelCallbackEventTime) && hostCallbackId == old(hostCallbackId)
      ensures runningFunctionTimeCtr == old(runningFunctionTimeCtr)
    {
      eventList.AddEntry(evnt);
      Repr := Repr + eventList.Repr;
    }

    /**
     * Start a new top-level call: the call stack is emptied, the function
     * time restarts and the callback's event time and host id are recorded.
     */
    method ResetCallStackForTopLevelCall(topLevelCallbackEventTime: int, hostCallbackId: int)
      requires Valid()
      modifies this
      ensures Valid() && Repr == old(Repr)
      ensures callStack == [] && runningFunctionTimeCtr == 0
      ensures this.topLevelCallbackEventTime == topLevelCallbackEventTime
      ensures this.hostCallbackId == hostCallbackId
      ensures modeStack == old(modeStack) && currentMode == old(currentMode)
      ensures eventTimeCtr == old(eventTimeCtr) && issued == old(issued)
    {
      callStack := [];
      runningFunctionTimeCtr := 0;
      this.topLevelCallbackEventTime := topLevelCallbackEventTime;
      this.hostCallbackId := hostCallbackId;
    }

    /**
     * Find the time of the snapshot to inflate from to replay up to
     * `targetTime`: the latest logged snapshot at or before it. It is -1 when
     * no logged snapshot is usable, and then fresh script contexts are needed.
     */
    method FindSnapTimeForEventTime(targetTime: int) returns (snapTime: int, newCtxsNeeded: bool)
      requires Valid()
      ensures snapTime == SnapTimeAtOrBefore(eventList.Contents, |eventList.Contents|, targetTime)
      ensures newCtxsNeeded <==> snapTime == -1
    {
      var it := eventList.GetIteratorAtLast();
      snapTime := ScanBack(eventList, it, |eventList.Contents| - 1, targetTime);
      newCtxsNeeded := snapTime == -1;
    }
  }

  /** From the iterator at position k backwards, the first usable snapshot's time, or -1. */
  method ScanBack(list: TTEventList<EventLogEntry>, it: Iterator<EventLogEntry>, ghost k: int, targetTime: int)
    returns (snapTime: int)
    requires list.Valid() && it !in list.Repr && -1 <= k < |list.Contents| && list.Denotes(it, k)
    modifies it
    ensures snapTime == SnapTimeAtOrBefore(list.Contents, k + 1, targetTime)
    decreases k + 1
  {
    var more := it.IsValid(list, k);
    if !more {
      return -1;
    }
    var e := it.Current(list, k);
    if e.kind == SnapshotTag && e.eventTime <= targetTime {
      return e.eventTime;
    }
    it.MovePrevious(list, k);
    snapTime := ScanBack(list, it, k - 1, targetTime);
  }
}
