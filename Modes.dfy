/**
 * The time-travel mode flags, the masks that gate record and debug work,
 * and the mode computed from a stack of modes. A mode is a combination of
 * flags (a bit mask in the runtime); the idle mode has no flag set.
 */
module Modes {

  datatype ModeFlag = RecordEnabled | DebuggingEnabled | ExcludedExecution

  type TTDMode = set<ModeFlag>

  const Idle: TTDMode := {}

  /** The flags inspected by the record gate. */
  const ShouldRecordActionMask: TTDMode := {RecordEnabled, ExcludedExecution}

  /** The flags inspected by the debug gate. */
  const ShouldDebugActionMask: TTDMode := {DebuggingEnabled, ExcludedExecution}

  /**
   * Masking a mode with {f, ExcludedExecution} leaves exactly {f} when f is
   * set and ExcludedExecution is not.
   */
  lemma MaskedIsSingleton(mode: TTDMode, f: ModeFlag)
    requires f != ExcludedExecution
    ensures mode * {f, ExcludedExecution} == {f} <==> f in mode && ExcludedExecution !in mode
  {
    if f in mode && ExcludedExecution !in mode {
      forall g | g in mode * {f, ExcludedExecution} ensures g == f {}
      assert f in mode * {f, ExcludedExecution};
    }
    if mode * {f, ExcludedExecution} == {f} {
      assert f in mode * {f, ExcludedExecution};
      assert ExcludedExecution !in mode * {f, ExcludedExecution};
    }
  }

  /** The mode computed from a stack of modes (bottom first): every flag set anywhere on it. */
  function CombinedMode(stack: seq<TTDMode>): TTDMode
  {
    if stack == [] then Idle else CombinedMode(stack[..|stack| - 1]) + stack[|stack| - 1]
  }

  /** A flag is in the computed mode exactly when some entry of the stack sets it. */
  lemma {:induction false} CombinedModeHas(stack: seq<TTDMode>, f: ModeFlag)
    ensures f in CombinedMode(stack) <==> exists i | 0 <= i < |stack| :: f in stack[i]
  {
    if stack != [] {
      var init := stack[..|stack| - 1];
      CombinedModeHas(init, f);
      if f in CombinedMode(init) {
        var i :| 0 <= i < |init| && f in init[i];
        assert stack[i] == init[i];
      }
      if exists i | 0 <= i < |stack| :: f in stack[i] {
        var i :| 0 <= i < |stack| && f in stack[i];
        if i < |init| {
          assert init[i] == stack[i];
        }
      }
    }
  }

  /** Pushing a mode adds its flags to the computed mode. */
  lemma CombinedModePush(stack: seq<TTDMode>, m: TTDMode)
    ensures CombinedMode(stack + [m]) == CombinedMode(stack) + m
  {
    assert (stack + [m])[..|stack|] == stack;
  }

  /**
   * Replacing the bottom (global) mode changes the computed mode only
   * through that entry: the scopes pushed above keep their flags.
   */
  lemma {:induction false} SetBottomMode(stack: seq<TTDMode>, m: TTDMode)
    requires stack != []
    ensures CombinedMode(stack[0 := m]) == m + CombinedMode(stack[1..])
  {
    if |stack| == 1 {
      assert stack[0 := m][..0] == [];
      assert stack[1..] == [];
    } else {
      var init := stack[..|stack| - 1];
      SetBottomMode(init, m);
      assert stack[0 := m][..|stack| - 1] == init[0 := m];
      assert stack[1..][..|stack| - 2] == init[1..];
    }
  }
}
