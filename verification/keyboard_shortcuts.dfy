/** The global key handler (`useKeyboardShortcuts`): Shift+Tab cycles the view
    mode split, editor, preview; `f` or `F` toggles full width, in preview
    mode only and only when a toggle callback was supplied. */
module KeyboardShortcuts {
  import opened Base
  import opened WorkspaceStore

  /** A key event: `event.key` and whether Shift was held. */
  datatype KeyEvent = KeyEvent(key: string, shiftKey: bool)

  /** The callbacks one key press triggers. */
  datatype Reaction = Reaction(viewModeChange: Option<ViewMode>, toggleFullWidth: bool)

  const ViewModesCycle: seq<ViewMode> := [Split, Editor, Preview]

  /** `viewModesCycle.indexOf(mode)`; every mode is in the cycle. */
  function IndexOf(m: ViewMode): (i: nat)
    ensures i < |ViewModesCycle| && ViewModesCycle[i] == m
  {
    match m
    case Split => 0
    case Editor => 1
    case Preview => 2
  }

  /** The mode after `m` in the cycle, wrapping around. */
  function NextMode(m: ViewMode): (r: ViewMode)
    ensures r != m
  {
    ViewModesCycle[(IndexOf(m) + 1) % |ViewModesCycle|]
  }

  /** The cycle is split, editor, preview, and three steps return to the
      start. */
  lemma CycleOrder(m: ViewMode)
    ensures NextMode(Split) == Editor && NextMode(Editor) == Preview && NextMode(Preview) == Split
    ensures NextMode(NextMode(NextMode(m))) == m
  {
  }

  /** `handleKeyDown`. */
  function HandleKeyDown(current: ViewMode, e: KeyEvent, hasToggle: bool): (r: Reaction)
    ensures r.viewModeChange.Some? <==> e.shiftKey && e.key == "Tab"
    ensures r.viewModeChange.Some? ==> r.viewModeChange.value == NextMode(current)
    ensures r.toggleFullWidth <==> (e.key == "f" || e.key == "F") && current == Preview && hasToggle
  {
    var change := if e.shiftKey && e.key == "Tab" then Some(NextMode(current)) else None;
    var toggle := (e.key == "f" || e.key == "F") && current == Preview && hasToggle;
    Reaction(change, toggle)
  }

  /** Keys other than Shift+Tab, `f` and `F` trigger nothing; Tab without
      Shift in particular leaves the view mode alone. */
  lemma OtherKeysIgnored(current: ViewMode, e: KeyEvent, hasToggle: bool)
    requires !(e.shiftKey && e.key == "Tab") && e.key != "f" && e.key != "F"
    ensures HandleKeyDown(current, e, hasToggle) == Reaction(None, false)
  {
  }

  /** Pressing Shift+Tab three times returns to the starting mode. */
  lemma ThreePressesReturn(current: ViewMode, hasToggle: bool)
    ensures var tab := KeyEvent("Tab", true);
            var m1 := HandleKeyDown(current, tab, hasToggle).viewModeChange.value;
            var m2 := HandleKeyDown(m1, tab, hasToggle).viewModeChange.value;
            var m3 := HandleKeyDown(m2, tab, hasToggle).viewModeChange.value;
            m1 != current && m3 == current
  {
    CycleOrder(current);
  }
}
