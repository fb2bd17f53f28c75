/** What enters the document of a window: the panes of its active tab from the first on, the focused one unless a
    limit on the text is reached, and nothing of the other tabs. */
module TreeContents {
  import opened Types
  import opened Utf8
  import opened Graphemes
  import opened DocumentSpec
  import opened DocumentProperties
  import opened DocumentOutcome
  import opened DocumentTruncation
  import opened TerminalSpec
  import opened CellProperties
  import opened TerminalProperties
  import opened TerminalDocument
  import opened TreeSpec

  /** The first `m` panes follow the window and the tab, in their order. */
  ghost predicate PanesTaken(input: TreeProjectionInput, tab: TreeTab, t: Tree, m: nat) {
    && m <= |tab.panes| && |t.nodes| == m + 2
    && (forall k :: 2 <= k < m + 2 ==> t.nodes[k].id == tab.panes[k - 2].paneID && t.nodes[k].parent == tab.id)
    && (t.focusedPane <==> exists k :: 0 <= k < m && tab.panes[k].paneID == input.focusedPane)
  }

  /** Where the pane loop came to, and why it went no further. */
  ghost predicate LoopCame(input: TreeProjectionInput, tab: TreeTab, reserve: nat, n: nat, step: Panes, m: nat) {
    match step
    case Bad(_) => true
    case Going(t) => m == n && PanesTaken(input, tab, t, m)
    case Full(t) => m < n && PanesTaken(input, tab, t, m) && NoRoom(t, reserve) && t.truncated
  }

  lemma PaneAppends(seg: Segmenter, input: TreeProjectionInput, tab: TreeTab, reserve: nat, t: Tree,
                    pane: TerminalInput)
    requires AddPane(seg, input, tab, reserve, t, pane).Going?
    ensures var u := AddPane(seg, input, tab, reserve, t, pane).tree;
            && |u.nodes| == |t.nodes| + 1 && u.nodes[..|t.nodes|] == t.nodes
            && u.nodes[|t.nodes|].id == pane.paneID && u.nodes[|t.nodes|].parent == tab.id
            && (u.focusedPane <==> t.focusedPane || pane.paneID == input.focusedPane)
  {
    hide ProjectNode, NodeTotals, RowsSound, RowsFollow, PaneOf, TerminalInput.Valid;
    var rowBudget, byteBudget := MAX_ROWS - t.totals.rows, MAX_UTF8_BYTES - t.totals.utf8Bytes - |pane.paneName|;
    var rows := ProjectedPaneShape(seg, pane, rowBudget, byteBudget, MAX_GRAPHEMES - t.totals.graphemes);
    PaneIdentity(pane, rows);
    var u := AddPane(seg, input, tab, reserve, t, pane).tree;
    assert u.nodes[..|t.nodes|] == t.nodes;
  }

  lemma TakesOne(input: TreeProjectionInput, tab: TreeTab, t: Tree, u: Tree, m: nat)
    requires PanesTaken(input, tab, t, m) && m < |tab.panes|
    requires |u.nodes| == m + 3 && u.nodes[..m + 2] == t.nodes
    requires u.nodes[m + 2].id == tab.panes[m].paneID && u.nodes[m + 2].parent == tab.id
    requires u.focusedPane <==> t.focusedPane || tab.panes[m].paneID == input.focusedPane
    ensures PanesTaken(input, tab, u, m + 1)
  {
    forall k | 2 <= k < m + 2
      ensures u.nodes[k].id == tab.panes[k - 2].paneID && u.nodes[k].parent == tab.id
    {
      assert u.nodes[..m + 2][k] == t.nodes[k];
    }
  }

  /** The pane loop takes the panes from the first on and stops short only when something is full. */
  lemma {:induction false} AddPanesTakes(seg: Segmenter, input: TreeProjectionInput, tab: TreeTab, reserve: nat, n: nat)
    returns (m: nat)
    requires n <= |tab.panes|
    ensures LoopCame(input, tab, reserve, n, AddPanes(seg, input, tab, reserve, n), m)
  {
    hide AddPane, PanesTaken, NoRoom;
    if n == 0 {
      m := 0;
      NoneTaken(input, tab);
    } else {
      m := AddPanesTakes(seg, input, tab, reserve, n - 1);
      var before := AddPanes(seg, input, tab, reserve, n - 1);
      if before.Going? {
        m := PaneStep(seg, input, tab, reserve, before.tree, n - 1);
      }
    }
  }

  lemma NoneTaken(input: TreeProjectionInput, tab: TreeTab)
    ensures PanesTaken(input, tab, Start(input, tab), 0)
  {
  }

  lemma PaneStep(seg: Segmenter, input: TreeProjectionInput, tab: TreeTab, reserve: nat, t: Tree, n: nat)
    returns (m: nat)
    requires n < |tab.panes| && PanesTaken(input, tab, t, n)
    ensures LoopCame(input, tab, reserve, n + 1, AddPane(seg, input, tab, reserve, t, tab.panes[n]), m)
  {
    hide ProjectNode, WithNode, PaneBelongs;
    var step := AddPane(seg, input, tab, reserve, t, tab.panes[n]);
    m := if step.Going? then n + 1 else n;
    if step.Going? {
      PaneAppends(seg, input, tab, reserve, t, tab.panes[n]);
      TakesOne(input, tab, t, step.tree, n);
    }
  }

  lemma {:induction false} PaneIndexFinds(panes: seq<TerminalInput>, id: NodeID, from: nat)
    requires from <= |panes|
    ensures var index := PaneIndex(panes, id, from);
            if index < 0 then forall k :: from <= k < |panes| ==> panes[k].paneID != id
            else
              && from <= index < |panes| && panes[index].paneID == id
              && forall k :: from <= k < index ==> panes[k].paneID != id
    decreases |panes| - from
  {
    if from < |panes| && panes[from].paneID != id {
      PaneIndexFinds(panes, id, from + 1);
    }
  }

  /** A preedit that hangs on the focused pane, directly or through a text field, is planned for only if that pane is
      not left out for want of nodes: then the pane is taken unless the rows, the graphemes or the bytes run out. */
  lemma PlannedPaneIsTaken(seg: Segmenter, input: TreeProjectionInput, tab: TreeTab)
    requires PreeditPlanned(input, tab)
    requires input.Winner().Some? ==> input.Winner().value.role == RoleTextField
    requires !AddPanes(seg, input, tab, Reserve(input, tab), |tab.panes|).Bad?
    ensures var t := AddPanes(seg, input, tab, Reserve(input, tab), |tab.panes|).tree;
            t.focusedPane || !Totals(t.totals.rows + 1, t.totals.graphemes + 1, t.totals.utf8Bytes + 1).WithinLimits()
  {
    hide AddPanes, AddPane;
    PaneIndexFinds(tab.panes, input.focusedPane, 0);
    var m := AddPanesTakes(seg, input, tab, Reserve(input, tab), |tab.panes|);
  }

  lemma {:induction false} ActiveIsListed(tabs: seq<TreeTab>)
    ensures LastActive(tabs).Some? ==> LastActive(tabs).value in tabs && LastActive(tabs).value.active
    ensures LastActive(tabs).None? ==> forall i :: 0 <= i < |tabs| ==> !tabs[i].active
  {
    if tabs != [] && !tabs[|tabs| - 1].active {
      ActiveIsListed(tabs[..|tabs| - 1]);
    }
  }

  function Identities(nodes: seq<NodeDraft>): (r: seq<NodeID>)
    ensures |r| == |nodes|
  {
    seq(|nodes|, i requires 0 <= i < |nodes| => nodes[i].id)
  }

  function PaneIdentities(panes: seq<TerminalInput>): (r: seq<NodeID>)
    ensures |r| == |panes|
  {
    seq(|panes|, i requires 0 <= i < |panes| => panes[i].paneID)
  }

  /** The input surfaces of a composed window: a modal dialog of the window or the search of the focused pane, and a
      preedit of what has the focus then. */
  datatype Surfaces = Surfaces(winner: Option<TreeInput>, preedit: Option<TreeInput>) {
    function Identities(): seq<NodeID> {
      (if winner.Some? then [winner.value.id] else []) + (if preedit.Some? then [preedit.value.id] else [])
    }

    /** What has the focus when the window has it. */
    function Surface(input: TreeProjectionInput): NodeID {
      if winner.Some? then winner.value.id else input.focusedPane
    }

    predicate Belong(input: TreeProjectionInput) {
      && (winner.Some? ==>
            && winner == input.Winner()
            && winner.value.role == (if input.modal.Some? then RoleDialog else RoleTextField)
            && winner.value.parent == (if input.modal.Some? then input.window.id else input.focusedPane))
      && (preedit.Some? ==>
            && preedit == input.preedit && preedit.value.role == RoleTextField
            && preedit.value.parent == Surface(input))
    }
  }

  /** What a composed draft is made of. */
  ghost predicate MadeOf(input: TreeProjectionInput, tab: TreeTab, m: nat, surfaces: Surfaces, draft: DocumentDraft) {
    && m <= |tab.panes|
    && Identities(draft.nodes)
       == [input.window.id, tab.id] + PaneIdentities(tab.panes[..m]) + surfaces.Identities()
    && surfaces.Belong(input)
    && (m < |tab.panes| ==> draft.truncated)
    && (draft.focus == NO_NODE || (input.window.focused && draft.focus == surfaces.Surface(input)))
    && (draft.focus == NO_NODE && input.window.focused ==> draft.truncated)
  }

  lemma TakenIdentities(input: TreeProjectionInput, tab: TreeTab, t: Tree, m: nat)
    requires PanesTaken(input, tab, t, m) && t.nodes[0].id == input.window.id && t.nodes[1].id == tab.id
    ensures Identities(t.nodes) == [input.window.id, tab.id] + PaneIdentities(tab.panes[..m])
  {
    var ids, panes := Identities(t.nodes), PaneIdentities(tab.panes[..m]);
    forall k | 0 <= k < |ids|
      ensures ids[k] == ([input.window.id, tab.id] + panes)[k]
    {
      if k >= 2 {
        assert tab.panes[..m][k - 2] == tab.panes[k - 2];
      }
    }
  }

  lemma SurfaceIdentity(seg: Segmenter, t: Tree, surface: TreeInput)
    ensures Identities(WithInput(seg, t, surface).nodes) == Identities(t.nodes) + [surface.id]
    ensures t.truncated ==> WithInput(seg, t, surface).truncated
  {
    hide FitsBudget;
    var u := WithInput(seg, t, surface);
    assert u.nodes == t.nodes + [BoundedInput(seg, surface, t.totals).node];
  }

  lemma WinnerIdentity(seg: Segmenter, input: TreeProjectionInput, t: Tree)
    requires KeptWinner(input, t).Some? ==> WinnerFits(input, KeptWinner(input, t).value, t)
    ensures var u, surfaces := WinnerAttached(seg, input, t), Surfaces(KeptWinner(input, t), None);
            && Identities(u.nodes) == Identities(t.nodes) + surfaces.Identities() && surfaces.Belong(input)
            && surfaces.Surface(input) == FocusSurface(input, t)
            && (Focus(input, t) == NO_NODE || (input.window.focused && Focus(input, t) == surfaces.Surface(input)))
            && (t.truncated ==> u.truncated)
  {
    var winner := KeptWinner(input, t);
    if winner.Some? {
      SurfaceIdentity(seg, t, winner.value);
    }
    hide WithInput, Identities, ValidUtf8, NodePresent;
  }

  lemma FinishMakes(seg: Segmenter, input: TreeProjectionInput, tab: TreeTab, panes: Tree) returns (surfaces: Surfaces)
    requires AttachInputs(seg, input, tab, panes).Composed?
    ensures var draft := AttachInputs(seg, input, tab, panes).draft;
            && Identities(draft.nodes) == Identities(panes.nodes) + surfaces.Identities() && surfaces.Belong(input)
            && (panes.truncated ==> draft.truncated)
            && (draft.focus == NO_NODE || (input.window.focused && draft.focus == surfaces.Surface(input)))
            && (draft.focus == NO_NODE && input.window.focused ==> draft.truncated)
  {
    hide WithInput, WinnerAttached, Identities, Focus, FocusSurface, ValidUtf8, NodePresent, PreeditPlanned;
    WinnerIdentity(seg, input, panes);
    var t, surface := WinnerAttached(seg, input, panes), FocusSurface(input, panes);
    surfaces := Surfaces(KeptWinner(input, panes), None);
    if PreeditKept(input, tab, surface, t.nodes) {
      PlannedIsThere(input, tab);
      SurfaceIdentity(seg, t, input.preedit.value);
      surfaces := Surfaces(KeptWinner(input, panes), input.preedit);
    }
  }

  lemma PlannedIsThere(input: TreeProjectionInput, tab: TreeTab)
    requires PreeditPlanned(input, tab)
    ensures input.preedit.Some?
  {
  }

  lemma {:induction false} FirstTwo(seg: Segmenter, input: TreeProjectionInput, tab: TreeTab, reserve: nat, n: nat)
    requires n <= |tab.panes|
    ensures var step := AddPanes(seg, input, tab, reserve, n);
            step.Bad? || (|step.tree.nodes| >= 2 && step.tree.nodes[0].id == input.window.id
                          && step.tree.nodes[1].id == tab.id)
  {
    hide ProjectNode, NodeTotals;
    if n > 0 {
      FirstTwo(seg, input, tab, reserve, n - 1);
    }
  }

  /** A composed draft is made of the window, its one active tab, the first panes of that tab and the input surfaces,
      in this order. It leaves panes out only if it is marked truncated; its focus is the topmost surface that can
      have it, and it lacks one under a focused window only if it is marked truncated. */
  lemma ComposedContents(seg: Segmenter, input: TreeProjectionInput) returns (tab: TreeTab, m: nat, surfaces: Surfaces)
    requires Compose(seg, input).Composed?
    ensures tab in input.window.tabs && tab.active && ActiveCount(input.window.tabs) == 1
    ensures MadeOf(input, tab, m, surfaces, Compose(seg, input).draft)
  {
    hide AddPanes, AttachInputs, Reserve, PanesTaken, Identities, PaneIdentities, NoRoom, Surfaces.Belong,
         Surfaces.Identities, ActiveCount;
    ActiveIsListed(input.window.tabs);
    OneActive(input.window.tabs);
    tab := LastActive(input.window.tabs).value;
    var n, reserve := |tab.panes|, Reserve(input, tab);
    m := AddPanesTakes(seg, input, tab, reserve, n);
    FirstTwo(seg, input, tab, reserve, n);
    var t := AddPanes(seg, input, tab, reserve, n).tree;
    TakenBound(input, tab, t, m);
    TakenIdentities(input, tab, t, m);
    surfaces := FinishMakes(seg, input, tab, t);
  }

  lemma TakenBound(input: TreeProjectionInput, tab: TreeTab, t: Tree, m: nat)
    requires PanesTaken(input, tab, t, m)
    ensures m <= |tab.panes| && |t.nodes| == m + 2
  {
  }

  lemma {:induction false} OneActive(tabs: seq<TreeTab>)
    ensures LastActive(tabs).Some? ==> ActiveCount(tabs) >= 1
  {
    if tabs != [] {
      OneActive(tabs[..|tabs| - 1]);
    }
  }

  /** The same window but for the names and the panes of tabs that are not active. */
  ghost predicate SameVisible(a: TreeProjectionInput, b: TreeProjectionInput) {
    && a == b.(window := b.window.(tabs := a.window.tabs))
    && |a.window.tabs| == |b.window.tabs|
    && forall i :: 0 <= i < |a.window.tabs| ==>
         && (a.window.tabs[i].active <==> b.window.tabs[i].active)
         && (a.window.tabs[i].active ==> a.window.tabs[i] == b.window.tabs[i])
  }

  lemma {:induction false} SameActive(a: seq<TreeTab>, b: seq<TreeTab>)
    requires |a| == |b|
    requires forall i :: 0 <= i < |a| ==> (a[i].active <==> b[i].active) && (a[i].active ==> a[i] == b[i])
    ensures ActiveCount(a) == ActiveCount(b) && LastActive(a) == LastActive(b)
  {
    if a != [] {
      SameActive(a[..|a| - 1], b[..|b| - 1]);
    }
  }

  lemma {:induction false} SamePanes(seg: Segmenter, a: TreeProjectionInput, b: TreeProjectionInput, tab: TreeTab,
                                     reserve: nat,
                                     n: nat)
    requires SameVisible(a, b) && n <= |tab.panes|
    ensures AddPanes(seg, a, tab, reserve, n) == AddPanes(seg, b, tab, reserve, n)
  {
    hide NodeTotals, ProjectNode, WithNode;
    if n > 0 {
      SamePanes(seg, a, b, tab, reserve, n - 1);
    }
  }

  lemma SameAttached(seg: Segmenter, a: TreeProjectionInput, b: TreeProjectionInput, tab: TreeTab, t: Tree)
    requires SameVisible(a, b)
    ensures Reserve(a, tab) == Reserve(b, tab)
    ensures AttachInputs(seg, a, tab, t) == AttachInputs(seg, b, tab, t)
  {
    hide WithInput, InputFits, PaneIndex;
    assert KeptWinner(a, t) == KeptWinner(b, t) && Focus(a, t) == Focus(b, t);
    assert FocusSurface(a, t) == FocusSurface(b, t);
    assert PreeditPlanned(a, tab) == PreeditPlanned(b, tab);
    assert WinnerAttached(seg, a, t) == WinnerAttached(seg, b, t);
  }

  /** Nothing of a hidden tab reaches the document: windows that differ only there compose to the same. */
  lemma HiddenTabsStayOut(seg: Segmenter, a: TreeProjectionInput, b: TreeProjectionInput)
    requires SameVisible(a, b)
    ensures Compose(seg, a) == Compose(seg, b)
  {
    hide AddPanes, AttachInputs, Reserve;
    SameActive(a.window.tabs, b.window.tabs);
    var active := ActiveTab(a.window.tabs);
    if active.Ok? && active.value.Some? {
      var tab := active.value.value;
      var panes := AddPanes(seg, a, tab, Reserve(a, tab), |tab.panes|);
      SamePanes(seg, a, b, tab, Reserve(a, tab), |tab.panes|);
      SameAttached(seg, a, b, tab, if panes.Bad? then Start(a, tab) else panes.tree);
    }
  }

  /** The cut text of an input surface is the longest the budgets have room for. */
  lemma {:induction false} FitsBudgetIsMaximal(pieces: seq<Text>, graphemes: nat, bytes: nat)
    ensures var k := FitsBudget(pieces, graphemes, bytes);
            && k <= graphemes && |Concat(pieces[..k])| <= bytes
            && (k < |pieces| ==> k == graphemes || |Concat(pieces[..k + 1])| > bytes)
  {
    var k := FitsBudget(pieces, graphemes, bytes);
    if k == 0 {
      if pieces != [] {
        assert pieces[..1] == [] + [pieces[0]];
        ConcatOne([], pieces[0]);
      }
    } else {
      FitsBudgetIsMaximal(pieces[1..], graphemes - 1, bytes - |pieces[0]|);
      ConcatFirst(pieces, k);
      if k < |pieces| {
        ConcatFirst(pieces, k + 1);
      }
    }
  }
}
