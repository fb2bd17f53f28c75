/** What the composition hands to the document: a draft the document cannot find a fault with beyond the identities,
    activations and places the caller chose, with counters that are the totals of its nodes. */
module TreeProperties {
  import opened Types
  import opened Utf8
  import opened Graphemes
  import opened DocumentSpec
  import opened DocumentProperties
  import opened DocumentOutcome
  import opened DocumentRows
  import opened DocumentTruncation
  import opened TerminalSpec
  import opened CellProperties
  import opened TerminalProperties
  import opened TerminalDocument
  import opened TreeSpec

  /** What every step of the composition keeps. */
  ghost predicate TreeInv(seg: Segmenter, input: TreeProjectionInput, tab: TreeTab, t: Tree) {
    && TreeShaped(input, tab, t.nodes)
    && AllRowsAreSafe(seg, t.nodes) && AllSteady(seg, t.nodes)
    && t.totals == DraftTotals(seg, t.nodes)
    && (t.focusedPane ==> NodePresent(t.nodes, input.focusedPane) && input.focusedPane.Valid())
  }

  /** The draft has a rectangle for every grapheme of its rows, or is no terminal and has at most one row. */
  ghost predicate SteadyDraft(seg: Segmenter, node: NodeDraft) {
    DraftsBounded(seg, node.rows) || (node.role != RoleTerminal && |node.rows| <= 1)
  }

  ghost predicate AllSteady(seg: Segmenter, nodes: seq<NodeDraft>) {
    forall i :: 0 <= i < |nodes| ==> SteadyDraft(seg, nodes[i])
  }

  /** The window and the tab come first, and every parent precedes its child. */
  ghost predicate TreeShaped(input: TreeProjectionInput, tab: TreeTab, nodes: seq<NodeDraft>) {
    && |nodes| >= 2 && nodes[0].id == input.window.id && nodes[1].id == tab.id
    && ParentsPrecede(nodes)
  }

  lemma PresentLater(nodes: seq<NodeDraft>, more: seq<NodeDraft>, id: NodeID)
    requires NodePresent(nodes, id)
    ensures NodePresent(nodes + more, id)
  {
    var i :| 0 <= i < |nodes| && nodes[i].id == id;
    assert (nodes + more)[i].id == id;
  }

  lemma ParentsPrecedeGrows(nodes: seq<NodeDraft>, node: NodeDraft)
    requires nodes != [] && ParentsPrecede(nodes) && NodePresent(nodes, node.parent)
    ensures ParentsPrecede(nodes + [node])
  {
    hide NodePresent;
    var all := nodes + [node];
    forall i | 1 <= i < |all|
      ensures NodePresent(all[..i], all[i].parent)
    {
      if i < |nodes| {
        assert all[..i] == nodes[..i];
      } else {
        assert all[..i] == nodes;
      }
    }
  }

  lemma SafeGrows(seg: Segmenter, nodes: seq<NodeDraft>, node: NodeDraft)
    requires AllRowsAreSafe(seg, nodes) && RowsAreSafe(seg, node.rows)
    requires AllSteady(seg, nodes) && SteadyDraft(seg, node)
    ensures AllRowsAreSafe(seg, nodes + [node]) && AllSteady(seg, nodes + [node])
  {
  }

  lemma LastIsPresent(nodes: seq<NodeDraft>, node: NodeDraft)
    ensures NodePresent(nodes + [node], node.id)
  {
    assert (nodes + [node])[|nodes|] == node;
  }

  /** Appending a safe node under a present parent keeps the invariant. */
  lemma WithNodeKeeps(seg: Segmenter, input: TreeProjectionInput, tab: TreeTab, t: Tree, node: NodeDraft,
                      truncated: bool)
    requires TreeInv(seg, input, tab, t)
    requires NodePresent(t.nodes, node.parent) && RowsAreSafe(seg, node.rows) && SteadyDraft(seg, node)
    ensures TreeInv(seg, input, tab, WithNode(seg, t, node, truncated))
  {
    hide NodePresent, ParentsPrecede, AllRowsAreSafe, RowsAreSafe, DraftTotals, NodeTotals, AllSteady, SteadyDraft;
    ParentsPrecedeGrows(t.nodes, node);
    SafeGrows(seg, t.nodes, node);
    assert (t.nodes + [node])[..|t.nodes|] == t.nodes;
    DraftTotalsGrow(seg, t.nodes, node);
    if t.focusedPane {
      PresentLater(t.nodes, [node], input.focusedPane);
    }
  }

  lemma DraftTotalsGrow(seg: Segmenter, nodes: seq<NodeDraft>, node: NodeDraft)
    ensures DraftTotals(seg, nodes + [node]) == Plus(DraftTotals(seg, nodes), NodeTotals(seg, node))
  {
    hide NodeTotals;
    assert (nodes + [node])[..|nodes|] == nodes;
  }

  lemma StartHolds(seg: Segmenter, input: TreeProjectionInput, tab: TreeTab)
    ensures TreeInv(seg, input, tab, Start(input, tab))
  {
    var t := Start(input, tab);
    var window, node := t.nodes[0], t.nodes[1];
    EmptyNodeTotals(seg, window);
    EmptyNodeTotals(seg, node);
    hide NodeTotals;
    DraftTotalsGrow(seg, [], window);
    DraftTotalsGrow(seg, [window], node);
    assert [] + [window] == [window];
    assert t.nodes == [window] + [node];
    LastIsPresent([], window);
    ParentsPrecedeGrows([window], node);
  }

  lemma EmptyNodeTotals(seg: Segmenter, node: NodeDraft)
    requires node.rows == []
    ensures NodeTotals(seg, node) == Totals(0, 0, |node.name|)
  {
  }

  lemma ValidPaneIdentity(input: TerminalInput)
    requires input.Valid()
    ensures input.paneID.Valid()
  {
  }

  /** What the pane loop keeps. */
  ghost predicate PanesInv(seg: Segmenter, input: TreeProjectionInput, tab: TreeTab, reserve: nat, step: Panes) {
    step.Bad? || (TreeInv(seg, input, tab, step.tree) && |step.tree.nodes| <= MAX_NODES - reserve)
  }

  lemma FlagsKeep(seg: Segmenter, input: TreeProjectionInput, tab: TreeTab, t: Tree)
    requires TreeInv(seg, input, tab, t)
    ensures TreeInv(seg, input, tab, t.(truncated := true))
    ensures NodePresent(t.nodes, input.focusedPane) && input.focusedPane.Valid() ==>
              TreeInv(seg, input, tab, t.(focusedPane := true))
    ensures NodePresent(t.nodes, tab.id)
  {
  }

  lemma AddPaneKeeps(seg: Segmenter, input: TreeProjectionInput, tab: TreeTab, reserve: nat, t: Tree,
                     pane: TerminalInput)
    requires TreeInv(seg, input, tab, t) && |t.nodes| <= MAX_NODES - reserve
    ensures PanesInv(seg, input, tab, reserve, AddPane(seg, input, tab, reserve, t, pane))
  {
    hide ProjectNode, TreeInv, PaneOf, RowsAreSafe, RowsSound, RowsFollow, TerminalInput.Valid, NodePresent, NodeTotals;
    FlagsKeep(seg, input, tab, t);
    if !NoRoom(t, reserve) {
      var rowBudget, byteBudget := MAX_ROWS - t.totals.rows, MAX_UTF8_BYTES - t.totals.utf8Bytes - |pane.paneName|;
      var projected := ProjectNode(seg, pane, rowBudget, byteBudget, MAX_GRAPHEMES - t.totals.graphemes);
      if projected.Ok? {
        var rows := ProjectedPaneShape(seg, pane, rowBudget, byteBudget, MAX_GRAPHEMES - t.totals.graphemes);
        PaneIsSafe(seg, pane, rows);
        PaneIdentity(pane, rows);
        ValidPaneIdentity(pane);
        var node := projected.value.node.(parent := tab.id);
        WithNodeKeeps(seg, input, tab, t, node, projected.value.truncated);
        FlagsKeep(seg, input, tab, WithNode(seg, t, node, projected.value.truncated));
        LastIsPresent(t.nodes, node);
      }
    }
  }

  lemma {:induction false} AddPanesKeeps(seg: Segmenter, input: TreeProjectionInput, tab: TreeTab, reserve: nat, n: nat)
    requires n <= |tab.panes| && reserve <= 2
    ensures PanesInv(seg, input, tab, reserve, AddPanes(seg, input, tab, reserve, n))
  {
    hide AddPane, TreeInv;
    if n == 0 {
      StartHolds(seg, input, tab);
    } else {
      AddPanesKeeps(seg, input, tab, reserve, n - 1);
      var before := AddPanes(seg, input, tab, reserve, n - 1);
      if before.Going? {
        AddPaneKeeps(seg, input, tab, reserve, before.tree, tab.panes[n - 1]);
      }
    }
  }

  lemma BoundedInputIsSafe(seg: Segmenter, input: TreeInput, totals: Totals)
    requires ValidUtf8(input.text) && !HasLineBreak(input.text) && input.role != RoleTerminal
    ensures var node := BoundedInput(seg, input, totals).node;
            && node.id == input.id && node.parent == input.parent
            && RowsAreSafe(seg, node.rows) && SteadyDraft(seg, node)
  {
    hide FitsBudget, ValidUtf8, Concat;
    var k := FitsBudget(seg(input.text), Max(0, MAX_GRAPHEMES - totals.graphemes),
                        Max(0, MAX_UTF8_BYTES - totals.utf8Bytes - |input.name|));
    PrefixIsClean(seg, input.text, k);
  }

  /** Attaching a surface that was validated keeps the invariant and makes it present. */
  lemma WithInputKeeps(seg: Segmenter, input: TreeProjectionInput, tab: TreeTab, t: Tree, surface: TreeInput,
                       expectedParent: NodeID, dialogAllowed: bool)
    requires TreeInv(seg, input, tab, t)
    requires InputFits(surface, input.window.id, expectedParent, t.nodes, dialogAllowed)
    ensures var u := WithInput(seg, t, surface);
            && TreeInv(seg, input, tab, u) && NodePresent(u.nodes, surface.id) && |u.nodes| == |t.nodes| + 1
            && u.focusedPane == t.focusedPane
  {
    hide TreeInv, BoundedInput, NodePresent, RowsAreSafe, SteadyDraft, NodeTotals, ValidUtf8;
    BoundedInputIsSafe(seg, surface, t.totals);
    var bounded := BoundedInput(seg, surface, t.totals);
    WithNodeKeeps(seg, input, tab, t, bounded.node, bounded.truncated);
    LastIsPresent(t.nodes, bounded.node);
  }

  lemma WinnerKeeps(seg: Segmenter, input: TreeProjectionInput, tab: TreeTab, t: Tree)
    requires TreeInv(seg, input, tab, t)
    requires KeptWinner(input, t).Some? ==> WinnerFits(input, KeptWinner(input, t).value, t)
    ensures var u := WinnerAttached(seg, input, t);
            && TreeInv(seg, input, tab, u)
            && |u.nodes| == |t.nodes| + (if KeptWinner(input, t).Some? then 1 else 0)
            && (Focus(input, t) == NO_NODE || (NodePresent(u.nodes, Focus(input, t)) && Focus(input, t).Valid()))
  {
    var winner := KeptWinner(input, t);
    if winner.Some? {
      WithInputKeeps(seg, input, tab, t, winner.value, input.focusedPane, true);
    }
    hide WithInput, NodePresent, ParentsPrecede, AllRowsAreSafe, AllSteady, DraftTotals;
  }

  /** A composed draft is a tree whose counters are its totals, with at most the limit of nodes, every parent before
      its child, only rows the document takes, and a focus that is one of its nodes or none. */
  ghost predicate DraftSound(seg: Segmenter, input: TreeProjectionInput, draft: DocumentDraft, totals: Totals) {
    && draft.providerID == input.providerID && draft.generation == input.generation
    && 2 <= |draft.nodes| <= MAX_NODES
    && ParentsPrecede(draft.nodes) && AllRowsAreSafe(seg, draft.nodes) && AllSteady(seg, draft.nodes)
    && (draft.focus == NO_NODE || (draft.focus.Valid() && NodePresent(draft.nodes, draft.focus)))
    && totals == DraftTotals(seg, draft.nodes)
  }

  lemma FinishKeeps(seg: Segmenter, input: TreeProjectionInput, tab: TreeTab, panes: Tree, t: Tree)
    requires TreeInv(seg, input, tab, t)
    requires |t.nodes| + (if PreeditPlanned(input, tab) then 1 else 0) <= MAX_NODES
    requires var focus := Focus(input, panes); focus == NO_NODE || (NodePresent(t.nodes, focus) && focus.Valid())
    ensures var result := FinishTree(seg, input, tab, panes, t);
            result.Composed? ==> DraftSound(seg, input, result.draft, result.totals)
  {
    var surface, focus := FocusSurface(input, panes), Focus(input, panes);
    hide FocusSurface, Focus, InputFits, WithInput, NodePresent, ParentsPrecede, AllRowsAreSafe, AllSteady,
        DraftTotals, NodeID.Valid;
    if PreeditKept(input, tab, surface, t.nodes)
       && InputFits(input.preedit.value, input.window.id, surface, t.nodes, false) {
      WithInputKeeps(seg, input, tab, t, input.preedit.value, surface, false);
      SurfaceAppends(seg, t, input.preedit.value);
      var u := WithInput(seg, t, input.preedit.value);
      if focus != NO_NODE {
        PresentLater(t.nodes, u.nodes[|t.nodes|..], focus);
      }
    }
  }

  lemma SurfaceAppends(seg: Segmenter, t: Tree, surface: TreeInput)
    ensures var u := WithInput(seg, t, surface); |t.nodes| <= |u.nodes| && u.nodes == t.nodes + u.nodes[|t.nodes|..]
  {
    hide BoundedInput;
  }

  lemma AttachKeeps(seg: Segmenter, input: TreeProjectionInput, tab: TreeTab, t: Tree)
    requires TreeInv(seg, input, tab, t) && |t.nodes| <= MAX_NODES - Reserve(input, tab)
    ensures var result := AttachInputs(seg, input, tab, t);
            result.Composed? ==> DraftSound(seg, input, result.draft, result.totals)
  {
    hide TreeInv, PreeditPlanned, FinishTree, WinnerAttached, WinnerFits, NodePresent, Focus, DraftSound;
    if KeptWinner(input, t).None? || WinnerFits(input, KeptWinner(input, t).value, t) {
      WinnerKeeps(seg, input, tab, t);
      FinishKeeps(seg, input, tab, t, WinnerAttached(seg, input, t));
    }
  }

  lemma ReserveIsSmall(input: TreeProjectionInput, tab: TreeTab)
    ensures Reserve(input, tab) <= 2
  {
    hide PreeditPlanned;
  }

  lemma ComposeTabKeeps(seg: Segmenter, input: TreeProjectionInput, tab: TreeTab)
    ensures var result := ComposeTab(seg, input, tab);
            result.Composed? ==> DraftSound(seg, input, result.draft, result.totals)
  {
    hide AddPanes, AttachInputs, Reserve, DraftSound, TreeInv;
    var reserve := Reserve(input, tab);
    ReserveIsSmall(input, tab);
    AddPanesKeeps(seg, input, tab, reserve, |tab.panes|);
    var panes := AddPanes(seg, input, tab, reserve, |tab.panes|);
    if !panes.Bad? {
      AttachKeeps(seg, input, tab, panes.tree);
    }
  }

  lemma ComposeKeeps(seg: Segmenter, input: TreeProjectionInput)
    requires Compose(seg, input).Composed?
    ensures DraftSound(seg, input, Compose(seg, input).draft, Compose(seg, input).totals)
    ensures input.Valid()
  {
    hide ComposeTab, DraftSound, ActiveTab;
    var active := ActiveTab(input.window.tabs);
    if active.Ok? && active.value.Some? {
      ComposeTabKeeps(seg, input, active.value.value);
    }
  }

  /** The document of a composed draft: it keeps every node and the focus, it is refused only for an identity, an
      activation, a duplicate or a negative place, and it is marked truncated exactly when the composition was or its
      running counters passed a limit or a place lies beyond its text. Otherwise the counters are its totals. */
  lemma ComposedDocument(seg: Segmenter, input: TreeProjectionInput)
    requires Compose(seg, input).Composed?
    ensures var Composed(draft, totals) := Compose(seg, input);
            var compiled := Compile(seg, draft);
            && (compiled.Ok? <==> NodesInOrder(draft.nodes, |draft.nodes|))
            && (compiled.Err? ==> Complaint(compiled.error))
            && (compiled.Ok? ==> DocumentFollows(seg, draft, totals, compiled.value))
  {
    var Composed(draft, totals) := Compose(seg, input);
    ComposeKeeps(seg, input);
    SoundDraftDocument(seg, input, draft, totals);
  }

  ghost predicate DocumentFollows(seg: Segmenter, draft: DocumentDraft, totals: Totals, document: Document) {
    && |document.nodes| == |draft.nodes|
    && document.focus == draft.focus
    && (document.truncated <==> draft.truncated || !totals.WithinLimits()
                                || exists i :: 0 <= i < |draft.nodes| && !PlacesFit(seg, draft.nodes[i]))
    && (!document.truncated ==> Totals(document.rows, document.graphemes, document.utf8Bytes) == totals)
  }

  lemma SoundDraftDocument(seg: Segmenter, input: TreeProjectionInput, draft: DocumentDraft, totals: Totals)
    requires input.Valid() && DraftSound(seg, input, draft, totals)
    ensures var compiled := Compile(seg, draft);
            && (compiled.Ok? <==> NodesInOrder(draft.nodes, |draft.nodes|))
            && (compiled.Err? ==> Complaint(compiled.error))
            && (compiled.Ok? ==> DocumentFollows(seg, draft, totals, compiled.value))
  {
    hide Compile, NodesInOrder, ParentsPrecede, AllRowsAreSafe, AllSteady, NodePresent, Complaint, DraftTotals,
         PlacesFit, WellFormed,
         AllSound, SomethingLost;
    CompileOutcome(seg, draft);
    if Compile(seg, draft).Ok? {
      TruncatedExactly(seg, draft);
      CompileKeeps(seg, draft);
      assert draft.nodes[..KeptNodes(draft)] == draft.nodes;
    }
  }
}
