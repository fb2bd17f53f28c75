/** The rules for the input surfaces of a window, told by its fields: which one is on top, which hang where they may,
    and what has the focus. */
module SurfaceRules {
  import opened Types
  import opened Utf8
  import opened DocumentOutcome
  import opened TreeSpec
  import opened TreeContents

  /** A modal dialog is above a search. */
  function Topmost(input: TreeProjectionInput): Option<TreeInput> {
    match input.modal
    case Some(dialog) => Some(dialog)
    case None => input.search
  }

  /** The topmost surface, unless it is a text field and its pane was left out. */
  function OnTop(input: TreeProjectionInput, focusedPane: bool): Option<TreeInput> {
    match Topmost(input)
    case None => None
    case Some(surface) => if surface.role == RoleTextField && !focusedPane then None else Some(surface)
  }

  function FocusTaker(input: TreeProjectionInput, focusedPane: bool): NodeID {
    match OnTop(input, focusedPane)
    case None => input.focusedPane
    case Some(surface) => surface.id
  }

  /** What has the focus, if the window has it. */
  function FocusOf(input: TreeProjectionInput, focusedPane: bool): NodeID {
    if !input.window.focused then NO_NODE
    else if OnTop(input, focusedPane).None? && !focusedPane then NO_NODE
    else FocusTaker(input, focusedPane)
  }

  /** A surface in itself: an activated input of the window's projection, with clean text, under a node that is
      there. */
  predicate IsSurface(surface: TreeInput, window: NodeID, nodes: seq<NodeDraft>) {
    && surface.id.Valid() && surface.id.kind == KindInput && surface.id.projection == window.projection
    && surface.id.activation != 0
    && ValidUtf8(surface.text) && 0x0A !in surface.text && 0x0D !in surface.text && |surface.text| <= 1_048_576
    && NodePresent(nodes, surface.parent)
  }

  /** A modal is a dialog of the window, a search a text field of the focused pane. */
  predicate TopFits(input: TreeProjectionInput, surface: TreeInput, nodes: seq<NodeDraft>) {
    && IsSurface(surface, input.window.id, nodes)
    && (if input.modal.Some? then surface.role == RoleDialog && surface.parent == input.window.id
        else surface.role == RoleTextField && surface.parent == input.focusedPane)
  }

  /** The preedit hangs on what was to have the focus, and if that is a pane or hangs on one, this is among the first
      panes of the tab, which are never left out for want of nodes. */
  predicate PreeditCounts(input: TreeProjectionInput, tab: TreeTab) {
    var surfaces := if Topmost(input).Some? then 1 else 0;
    && input.preedit.Some?
    && input.preedit.value.parent
       == (match Topmost(input) case Some(surface) => surface.id case None => input.focusedPane)
    && (Topmost(input).None? || Topmost(input).value.role == RoleTextField ==>
          exists i :: 0 <= i < |tab.panes| && i < 253 - surfaces && tab.panes[i].paneID == input.focusedPane)
  }

  /** The preedit is attached when, besides, what has the focus is there and still what it hangs on. */
  predicate PreeditHangs(input: TreeProjectionInput, tab: TreeTab, focusedPane: bool, nodes: seq<NodeDraft>) {
    var taker := FocusTaker(input, focusedPane);
    PreeditCounts(input, tab) && input.preedit.value.parent == taker && NodePresent(nodes, taker)
  }

  predicate PreeditFits(input: TreeProjectionInput, nodes: seq<NodeDraft>)
    requires input.preedit.Some?
  {
    IsSurface(input.preedit.value, input.window.id, nodes) && input.preedit.value.role == RoleTextField
  }

  /** A window that can be composed. */
  predicate IsWindow(input: TreeProjectionInput) {
    && input.providerID != 0 && 0 < input.generation < 0xFFFF_FFFF_FFFF_FFFF
    && input.window.id.kind == KindWindow && input.window.id.projection != 0 && input.window.id.objectID != 0
  }

  lemma ValidIsWindow(input: TreeProjectionInput)
    ensures input.Valid() <==> IsWindow(input)
  {
  }

  /** Exactly one tab is active, and it is the one found; or none is. */
  lemma {:induction false} ActiveIsOne(tabs: seq<TreeTab>)
    ensures ActiveCount(tabs) == 0 <==> forall i :: 0 <= i < |tabs| ==> !tabs[i].active
    ensures ActiveCount(tabs) == 1 <==>
              exists i :: 0 <= i < |tabs| && tabs[i].active && LastActive(tabs) == Some(tabs[i])
                          && forall j :: 0 <= j < |tabs| && tabs[j].active ==> j == i
  {
    if tabs != [] {
      var before, last := tabs[..|tabs| - 1], tabs[|tabs| - 1];
      ActiveIsOne(before);
      assert forall i :: 0 <= i < |before| ==> before[i] == tabs[i];
      if ActiveCount(before) == 1 && !last.active {
        var i :| 0 <= i < |before| && before[i].active && LastActive(before) == Some(before[i])
                 && forall j :: 0 <= j < |before| && before[j].active ==> j == i;
        assert tabs[i].active;
      }
      if ActiveCount(before) == 0 && last.active {
        assert tabs[|tabs| - 1].active;
      }
    }
  }

  lemma ActiveTabIs(tabs: seq<TreeTab>, tab: TreeTab)
    ensures ActiveTab(tabs) == Ok(None) <==> forall i :: 0 <= i < |tabs| ==> !tabs[i].active
    ensures ActiveTab(tabs) == Ok(Some(tab)) <==>
              exists i :: 0 <= i < |tabs| && tabs[i] == tab && tab.active
                          && forall j :: 0 <= j < |tabs| && tabs[j].active ==> j == i
    ensures ActiveTab(tabs).Err? ==> ActiveTab(tabs).error == InvalidProjection
  {
    ActiveIsOne(tabs);
    ActiveIsListed(tabs);
    OneActive(tabs);
    hide ActiveCount, LastActive;
  }

  lemma TopmostIsWinner(input: TreeProjectionInput, t: Tree)
    ensures Topmost(input) == input.Winner()
    ensures OnTop(input, t.focusedPane) == KeptWinner(input, t)
    ensures FocusTaker(input, t.focusedPane) == FocusSurface(input, t)
    ensures FocusOf(input, t.focusedPane) == Focus(input, t)
  {
  }

  lemma SurfaceIsInput(surface: TreeInput, window: NodeID, parent: NodeID, nodes: seq<NodeDraft>, dialogAllowed: bool)
    ensures InputFits(surface, window, parent, nodes, dialogAllowed)
       <==> IsSurface(surface, window, nodes)
            && ((surface.role == RoleDialog && dialogAllowed && surface.parent == window)
                || (surface.role == RoleTextField && surface.parent == parent))
  {
    hide ValidUtf8, NodePresent;
  }

  lemma TopIsWinner(input: TreeProjectionInput, surface: TreeInput, t: Tree)
    ensures WinnerFits(input, surface, t) <==> TopFits(input, surface, t.nodes)
  {
    SurfaceIsInput(surface, input.window.id, input.focusedPane, t.nodes, true);
    hide InputFits, IsSurface;
  }

  lemma CountsIsPlanned(input: TreeProjectionInput, tab: TreeTab)
    ensures PreeditPlanned(input, tab) <==> PreeditCounts(input, tab)
  {
    PaneIndexFinds(tab.panes, input.focusedPane, 0);
    hide PaneIndex;
    assert Topmost(input) == input.Winner();
  }

  lemma HangsIsKept(input: TreeProjectionInput, tab: TreeTab, t: Tree, nodes: seq<NodeDraft>)
    ensures PreeditKept(input, tab, FocusSurface(input, t), nodes)
       <==> PreeditHangs(input, tab, t.focusedPane, nodes)
    ensures PreeditHangs(input, tab, t.focusedPane, nodes) ==>
              input.preedit.Some?
              && (InputFits(input.preedit.value, input.window.id, FocusSurface(input, t), nodes, false)
                  <==> PreeditFits(input, nodes))
  {
    CountsIsPlanned(input, tab);
    TopmostIsWinner(input, t);
    hide PreeditPlanned, FocusSurface, FocusTaker, NodePresent;
    if input.preedit.Some? {
      SurfaceIsInput(input.preedit.value, input.window.id, FocusSurface(input, t), nodes, false);
    }
    hide InputFits, IsSurface;
  }
}
