/**
 * The newer `AutosaveThreadFunc`: before the counter machine runs, an
 * iteration decides `shouldSave` from the simulator's state and from the
 * visibility of a few user-interface windows.
 *
 * The windows are a finite value: the windows reachable from the main
 * window, each with its identifier, its own visibility flag and the index
 * of its parent. Parents come before their children, so every walk up the
 * parent chain ends.
 */
module AutosaveThread {
  import opened Wrappers
  import opened Host
  import opened AutosaveCounters

  /** The options button: it must be shown for a save. */
  const OptionsButton: uint32 := 0x010ED852
  /** The options window. */
  const OptionsWindow: uint32 := 0x0615B50D
  /** Three panels of the space stage's communication screen. */
  const CommunicationPanel: uint32 := 0x01C3BB0C
  const CommunicationPanelB: uint32 := 0x0755F180
  const CommunicationPanelC: uint32 := 0x076B3543
  /** The message box. */
  const MessageBox: uint32 := 0x01510D07

  /** `g_RequiredWindowList`: windows that must be shown. */
  const RequiredWindowList: seq<uint32> := [OptionsButton]
  /** `g_WindowExclusionList`: windows that must not be shown. */
  const WindowExclusionList: seq<uint32> :=
    [OptionsWindow, CommunicationPanel, CommunicationPanelB, CommunicationPanelC, MessageBox]
  /** `g_WindowList`: the windows actually examined, in this order. */
  const WindowList: seq<uint32> := [OptionsButton, OptionsWindow, CommunicationPanel, MessageBox]

  /**
   * `ArrayContains`: whether `item` is among the first `listSize` entries
   * of `list`. A size of zero or less finds nothing.
   */
  method ArrayContains(list: seq<uint32>, listSize: int, item: uint32) returns (found: bool)
    requires listSize <= |list|
    ensures found <==> exists i :: 0 <= i < listSize && list[i] == item
  {
    var i := 0;
    while i < listSize
      invariant 0 <= i <= if listSize < 0 then 0 else listSize
      invariant forall j :: 0 <= j < i ==> list[j] != item
    {
      var listItem := list[i];
      if listItem == item {
        return true;
      }
      i := i + 1;
    }
    return false;
  }

  datatype Window = Window(id: uint32, visible: bool, parent: Option<nat>)

  /** The user interface: whether there is a main window, and the windows below it. */
  datatype WindowTree = WindowTree(hasMainWindow: bool, windows: seq<Window>)
  {
    predicate WellFormed()
    {
      forall i :: 0 <= i < |windows| && windows[i].parent.Some? ==> windows[i].parent.value < i
    }
  }

  /** The first window at or after `from` with identifier `id`. */
  function FindFrom(windows: seq<Window>, id: uint32, from: nat): (r: Option<nat>)
    requires from <= |windows|
    ensures r.Some? ==> from <= r.value < |windows| && windows[r.value].id == id
    ensures r.None? ==> forall i :: from <= i < |windows| ==> windows[i].id != id
    decreases |windows| - from
  {
    if from == |windows| then None
    else if windows[from].id == id then Some(from)
    else FindFrom(windows, id, from + 1)
  }

  /**
   * `mainWindow->FindWindowByID(id)`, or no window at all when there is
   * no main window.
   */
  function FindWindowByID(tree: WindowTree, id: uint32): (r: Option<nat>)
    ensures r.Some? ==> tree.hasMainWindow && r.value < |tree.windows| && tree.windows[r.value].id == id
    ensures r.None? ==> !tree.hasMainWindow || forall i :: 0 <= i < |tree.windows| ==> tree.windows[i].id != id
  {
    if tree.hasMainWindow then FindFrom(tree.windows, id, 0) else None
  }

  /** A window is shown when it and every ancestor are visible. */
  predicate ShownWithAncestors(tree: WindowTree, i: nat)
    requires tree.WellFormed() && i < |tree.windows|
    decreases i
  {
    tree.windows[i].visible
    && match tree.windows[i].parent
       case None => true
       case Some(p) => ShownWithAncestors(tree, p)
  }

  /** The window with identifier `id` exists and is shown. */
  predicate Shown(tree: WindowTree, id: uint32)
    requires tree.WellFormed()
  {
    match FindWindowByID(tree, id)
    case None => false
    case Some(i) => ShownWithAncestors(tree, i)
  }

  /** The visibility test of one listed window, walking up its parents. */
  method WindowVisible(tree: WindowTree, windowId: uint32) returns (windowVisible: bool)
    requires tree.WellFormed()
    ensures windowVisible == Shown(tree, windowId)
  {
    var window := FindWindowByID(tree, windowId);
    if window.None? {
      return false;
    }
    windowVisible := tree.windows[window.value].visible;
    if windowVisible {
      var parent: Option<nat> := tree.windows[window.value].parent;
      while parent.Some?
        invariant parent.Some? ==> parent.value < |tree.windows|
        invariant windowVisible
        invariant ShownWithAncestors(tree, window.value)
                  == (parent.None? || ShownWithAncestors(tree, parent.value))
        decreases if parent.Some? then parent.value + 1 else 0
      {
        if !tree.windows[parent.value].visible {
          windowVisible := false;
          break;
        }
        parent := tree.windows[parent.value].parent;
      }
    }
  }

  /**
   * A listed window passes when it is shown and not excluded, or hidden
   * and not required.
   */
  predicate WindowPasses(tree: WindowTree, id: uint32)
    requires tree.WellFormed()
  {
    if Shown(tree, id) then id !in WindowExclusionList else id !in RequiredWindowList
  }

  /** The window gate lets a save through when every listed window passes. */
  predicate GateAllows(tree: WindowTree)
    requires tree.WellFormed()
  {
    forall k :: 0 <= k < |WindowList| ==> WindowPasses(tree, WindowList[k])
  }

  /** The window scan: it stops at the first listed window that fails. */
  method WindowStatesAllowSave(tree: WindowTree) returns (shouldSave: bool)
    requires tree.WellFormed()
    ensures shouldSave == GateAllows(tree)
  {
    shouldSave := true;
    var k := 0;
    while k < |WindowList|
      invariant 0 <= k <= |WindowList|
      invariant shouldSave
      invariant forall j :: 0 <= j < k ==> WindowPasses(tree, WindowList[j])
    {
      var windowId := WindowList[k];
      var windowVisible := WindowVisible(tree, windowId);
      if windowVisible {
        var excluded := ArrayContains(WindowExclusionList, |WindowExclusionList|, windowId);
        if excluded {
          shouldSave := false;
          break;
        }
      } else {
        var required := ArrayContains(RequiredWindowList, |RequiredWindowList|, windowId);
        if required {
          shouldSave := false;
          break;
        }
      }
      k := k + 1;
    }
  }

  /**
   * The gate in plain terms: the options button is shown, and none of the
   * options window, the first communication panel and the message box is.
   * The other two communication panels are on the exclusion list but are
   * never examined, so they have no effect.
   */
  lemma GateAllowsExactly(tree: WindowTree)
    requires tree.WellFormed()
    ensures GateAllows(tree) <==>
              && Shown(tree, OptionsButton)
              && !Shown(tree, OptionsWindow)
              && !Shown(tree, CommunicationPanel)
              && !Shown(tree, MessageBox)
  {
    assert WindowPasses(tree, WindowList[0]) == Shown(tree, OptionsButton);
    assert WindowPasses(tree, WindowList[1]) == !Shown(tree, OptionsWindow);
    assert WindowPasses(tree, WindowList[2]) == !Shown(tree, CommunicationPanel);
    assert WindowPasses(tree, WindowList[3]) == !Shown(tree, MessageBox);
  }

  /** Without a main window the options button cannot be shown, so nothing is saved. */
  lemma NoMainWindowNoSave(tree: WindowTree)
    requires tree.WellFormed() && !tree.hasMainWindow
    ensures !GateAllows(tree)
  {
    assert !WindowPasses(tree, WindowList[0]);
  }

  /** A shown communication panel of the second kind does not stop a save. */
  lemma UnlistedPanelDoesNotBlock()
    ensures var tree := WindowTree(true, [Window(OptionsButton, true, None), Window(CommunicationPanelB, true, Some(0))]);
            tree.WellFormed() && Shown(tree, CommunicationPanelB) && GateAllows(tree)
  {
    var tree := WindowTree(true, [Window(OptionsButton, true, None), Window(CommunicationPanelB, true, Some(0))]);
    assert FindWindowByID(tree, OptionsButton) == Some(0);
    assert FindFrom(tree.windows, CommunicationPanelB, 1) == Some(1);
    assert FindWindowByID(tree, CommunicationPanelB) == Some(1);
    assert FindWindowByID(tree, OptionsWindow) == None;
    assert FindWindowByID(tree, CommunicationPanel) == None;
    assert FindWindowByID(tree, MessageBox) == None;
    GateAllowsExactly(tree);
  }

  /**
   * The simulator's test: not loading, and in the cell, creature, tribe or
   * civilization stage, or in the space stage but not on a planet.
   */
  predicate Eligible(game: GameStatus)
  {
    !game.isLoading
    && (game.isCell || game.isCreature || game.isTribe || game.isCiv || (game.isSpace && !game.onPlanet))
  }

  /**
   * One iteration of the newer loop: eligibility, then the window gate
   * only when eligible, then the counter machine.
   */
  method LoopIteration(loop: AutosaveLoop, game: GameStatus, tree: WindowTree) returns (saveCalled: bool)
    requires loop.Valid() && tree.WellFormed()
    modifies loop
    ensures loop.Valid()
    ensures StepResult(loop.Snapshot(), saveCalled)
            == Step(old(loop.Snapshot()), loop.interval, Eligible(game) && GateAllows(tree))
  {
    var shouldSave := Eligible(game);
    if shouldSave {
      shouldSave := WindowStatesAllowSave(tree);
    }
    saveCalled := loop.Iterate(shouldSave);
  }

  /** While the game is loading the loop never saves, whatever the windows show. */
  lemma LoadingNeverSaves(c: Counters, interval: int, game: GameStatus, tree: WindowTree)
    requires 0 < interval && CountersValid(c, interval) && tree.WellFormed()
    requires game.isLoading
    ensures !Step(c, interval, Eligible(game) && GateAllows(tree)).saveCalled
  {
  }
}
