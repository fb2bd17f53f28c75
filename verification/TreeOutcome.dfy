/** The outcomes of a composition: when a window is refused, with which error, and what becomes of the rest. */
module TreeOutcome {
  import opened Types
  import opened Graphemes
  import opened DocumentSpec
  import opened DocumentOutcome
  import opened DocumentTruncation
  import opened TerminalSpec
  import opened TerminalDocument
  import opened TreeSpec
  import opened TreeProperties
  import opened SurfaceRules

  /** The pane is one of the window's, and projects into what the panes before it left. Its name is not cut: it must
      fit the bytes that are left. */
  ghost predicate PaneFits(seg: Segmenter, input: TreeProjectionInput, t: Tree, pane: TerminalInput) {
    && pane.providerID == input.providerID && pane.generation == input.generation
    && pane.rootID == input.window.id && pane.paneID.projection == input.window.id.projection
    && |pane.paneName| <= MAX_UTF8_BYTES - t.totals.utf8Bytes
    && ProjectsWithin(seg, pane, MAX_ROWS - t.totals.rows, MAX_UTF8_BYTES - t.totals.utf8Bytes - |pane.paneName|,
                      MAX_GRAPHEMES - t.totals.graphemes)
  }

  lemma PaneOrRefusal(seg: Segmenter, input: TreeProjectionInput, tab: TreeTab, reserve: nat, t: Tree,
                      pane: TerminalInput)
    ensures var step := AddPane(seg, input, tab, reserve, t, pane);
            && (step.Bad? <==> !NoRoom(t, reserve) && !PaneFits(seg, input, t, pane))
            && (step.Bad? ==> step.error == InvalidProjection)
  {
    hide ProjectNode, WithNode;
    NodeProjects(seg, pane, MAX_ROWS - t.totals.rows, MAX_UTF8_BYTES - t.totals.utf8Bytes - |pane.paneName|,
                 MAX_GRAPHEMES - t.totals.graphemes);
    BudgetsHold(seg, pane, MAX_ROWS - t.totals.rows, MAX_UTF8_BYTES - t.totals.utf8Bytes - |pane.paneName|,
                MAX_GRAPHEMES - t.totals.graphemes);
    hide ProjectsWithin;
  }

  lemma BudgetsHold(seg: Segmenter, pane: TerminalInput, rowBudget: int, byteBudget: int, graphemeBudget: int)
    ensures ProjectsWithin(seg, pane, rowBudget, byteBudget, graphemeBudget) ==> byteBudget >= 0
  {
  }

  /** The pane loop comes to pane `r` with room for it. */
  ghost predicate Arrives(seg: Segmenter, input: TreeProjectionInput, tab: TreeTab, reserve: nat, r: nat)
    requires r < |tab.panes|
  {
    var step := AddPanes(seg, input, tab, reserve, r);
    step.Going? && !NoRoom(step.tree, reserve)
  }

  /** Pane `r` fits what the panes before it left. */
  ghost predicate FitsThere(seg: Segmenter, input: TreeProjectionInput, tab: TreeTab, reserve: nat, r: nat)
    requires r < |tab.panes| && Arrives(seg, input, tab, reserve, r)
  {
    PaneFits(seg, input, AddPanes(seg, input, tab, reserve, r).tree, tab.panes[r])
  }

  /** The pane loop is refused exactly when a pane it has room for does not fit, and always for the projection. */
  lemma {:induction false} PanesOutcome(seg: Segmenter, input: TreeProjectionInput, tab: TreeTab, reserve: nat, n: nat)
    requires n <= |tab.panes|
    ensures var step := AddPanes(seg, input, tab, reserve, n);
            && (step.Bad? <==> exists r :: 0 <= r < n && Arrives(seg, input, tab, reserve, r)
                                           && !FitsThere(seg, input, tab, reserve, r))
            && (step.Bad? ==> step.error == InvalidProjection)
  {
    hide AddPane, PaneFits, NoRoom;
    if n > 0 {
      PanesOutcome(seg, input, tab, reserve, n - 1);
      var before := AddPanes(seg, input, tab, reserve, n - 1);
      if before.Going? {
        PaneOrRefusal(seg, input, tab, reserve, before.tree, tab.panes[n - 1]);
        FullAtOnce(seg, input, tab, reserve, before.tree, tab.panes[n - 1]);
        assert Arrives(seg, input, tab, reserve, n - 1) <==> !NoRoom(before.tree, reserve);
      }
    }
  }

  lemma FullAtOnce(seg: Segmenter, input: TreeProjectionInput, tab: TreeTab, reserve: nat, t: Tree, pane: TerminalInput)
    ensures AddPane(seg, input, tab, reserve, t, pane).Full? <==> NoRoom(t, reserve)
  {
    hide ProjectNode, WithNode;
  }

  /** A pane whose name is longer than the bytes that are left refuses the whole window: the name is not cut. */
  lemma LongNameRefuses(seg: Segmenter, input: TreeProjectionInput, tab: TreeTab, r: nat)
    requires input.visible && input.Valid() && ActiveTab(input.window.tabs) == Ok(Some(tab))
    requires r < |tab.panes| && Arrives(seg, input, tab, Reserve(input, tab), r)
    requires |tab.panes[r].paneName|
          > MAX_UTF8_BYTES - AddPanes(seg, input, tab, Reserve(input, tab), r).tree.totals.utf8Bytes
    ensures Compose(seg, input) == Refused(InvalidProjection)
  {
    hide AddPanes, AttachInputs, Reserve, NoRoom, ActiveTab;
    assert !FitsThere(seg, input, tab, Reserve(input, tab), r);
    PanesOutcome(seg, input, tab, Reserve(input, tab), |tab.panes|);
  }

  /** Every pane that the loop has room for fits. */
  ghost predicate PanesFit(seg: Segmenter, input: TreeProjectionInput, tab: TreeTab) {
    forall r :: 0 <= r < |tab.panes| && Arrives(seg, input, tab, Reserve(input, tab), r) ==>
      FitsThere(seg, input, tab, Reserve(input, tab), r)
  }

  /** The tree with the topmost surface attached. */
  ghost function TopAttached(seg: Segmenter, input: TreeProjectionInput, t: Tree): Tree {
    match OnTop(input, t.focusedPane)
    case None => t
    case Some(surface) => WithInput(seg, t, surface)
  }

  /** The tab has the focused pane unless it lost panes or text, its surfaces hang where they may, and a focused window
      has its focus unless something was lost. */
  ghost predicate SurfacesFit(seg: Segmenter, input: TreeProjectionInput, tab: TreeTab, t: Tree) {
    var top, attached := OnTop(input, t.focusedPane), TopAttached(seg, input, t);
    var hangs := PreeditHangs(input, tab, t.focusedPane, attached.nodes);
    && (t.focusedPane || t.truncated)
    && (top.Some? ==> TopFits(input, top.value, t.nodes))
    && (hangs ==> PreeditFits(input, attached.nodes))
    && (input.window.focused && FocusOf(input, t.focusedPane) == NO_NODE ==>
          attached.truncated || (hangs && WithInput(seg, attached, input.preedit.value).truncated))
  }

  lemma InputMarks(seg: Segmenter, t: Tree, surface: TreeInput)
    ensures t.truncated ==> WithInput(seg, t, surface).truncated
  {
    hide BoundedInput, NodeTotals;
  }

  lemma AttachOutcome(seg: Segmenter, input: TreeProjectionInput, tab: TreeTab, t: Tree)
    ensures var result := AttachInputs(seg, input, tab, t);
            && (result.Composed? <==> SurfacesFit(seg, input, tab, t))
            && (!result.Composed? ==> result == Refused(InvalidProjection))
  {
    TopmostIsWinner(input, t);
    var attached := TopAttached(seg, input, t);
    assert attached == WinnerAttached(seg, input, t);
    hide KeptWinner, OnTop, FocusSurface, WinnerAttached, TopAttached, PreeditKept, PreeditHangs, WinnerFits, TopFits,
         PreeditFits, InputFits, Focus, FocusOf, WithInput;
    HangsIsKept(input, tab, t, attached.nodes);
    if KeptWinner(input, t).Some? {
      TopIsWinner(input, KeptWinner(input, t).value, t);
    }
    if PreeditHangs(input, tab, t.focusedPane, attached.nodes) {
      InputMarks(seg, attached, input.preedit.value);
    }
  }

  predicate TabFits(input: TreeProjectionInput, tab: TreeTab) {
    tab.id.kind == KindTab && tab.id.projection == input.window.id.projection
  }

  /** The tree of the panes, where none was refused. */
  ghost function PanesTree(seg: Segmenter, input: TreeProjectionInput, tab: TreeTab): Tree {
    var step := AddPanes(seg, input, tab, Reserve(input, tab), |tab.panes|);
    if step.Bad? then Start(input, tab) else step.tree
  }

  /** The outcome of the one active tab. */
  lemma TabOutcome(seg: Segmenter, input: TreeProjectionInput, tab: TreeTab)
    ensures var result := ComposeTab(seg, input, tab);
            && (result.Hidden? <==> TabFits(input, tab) && tab.panes == [])
            && (result.Composed? <==> TabFits(input, tab) && tab.panes != [] && PanesFit(seg, input, tab)
                                      && SurfacesFit(seg, input, tab, PanesTree(seg, input, tab)))
            && (result.Refused? ==> result.error == InvalidProjection)
  {
    hide AddPanes, AttachInputs, SurfacesFit, Reserve, Arrives, FitsThere, Start;
    PanesOutcome(seg, input, tab, Reserve(input, tab), |tab.panes|);
    AttachOutcome(seg, input, tab, PanesTree(seg, input, tab));
  }

  /** A window composes: it is visible and valid, exactly one tab is active and belongs to it, and the panes and the
      surfaces fit. */
  ghost predicate Composes(seg: Segmenter, input: TreeProjectionInput) {
    && input.visible && input.Valid()
    && ActiveTab(input.window.tabs).Ok? && ActiveTab(input.window.tabs).value.Some?
    && var tab := ActiveTab(input.window.tabs).value.value;
       && TabFits(input, tab) && tab.panes != [] && PanesFit(seg, input, tab)
       && SurfacesFit(seg, input, tab, PanesTree(seg, input, tab))
  }

  /** Nothing is to be seen of a window that is not visible, or is valid but has no active tab or no panes in it. */
  predicate NothingToSee(input: TreeProjectionInput) {
    || !input.visible
    || (input.Valid() && ActiveTab(input.window.tabs).Ok?
        && var active := ActiveTab(input.window.tabs).value;
           active.None? || (TabFits(input, active.value) && active.value.panes == []))
  }

  /** The composition fails in one way only. */
  lemma ComposeOutcome(seg: Segmenter, input: TreeProjectionInput)
    ensures var result := Compose(seg, input);
            && (result.Hidden? <==> NothingToSee(input))
            && (result.Composed? <==> Composes(seg, input))
            && (result.Refused? ==> result.error == InvalidProjection)
  {
    hide ComposeTab, PanesFit, SurfacesFit, PanesTree, TabFits;
    var active := ActiveTab(input.window.tabs);
    if active.Ok? && active.value.Some? {
      TabOutcome(seg, input, active.value.value);
    }
  }

  predicate DraftInOrder(draft: DocumentDraft) {
    NodesInOrder(draft.nodes, |draft.nodes|)
  }

  /** End to end, for every window and counter: nothing, exactly when nothing is to be seen; a document, exactly when
      the window composes, its nodes are in order and the counter is not exhausted; and otherwise the error of an
      invalid projection, of an identity, an activation, a duplicate or a negative place, or of the counter. Never text,
      bounds, parents or the focus. */
  lemma TreeResultKnown(seg: Segmenter, input: TreeProjectionInput, last: uint64)
    ensures var result, composed := TreeResult(seg, input, last), Compose(seg, input);
            && (result.NothingVisible? <==> NothingToSee(input))
            && (composed.Composed? <==> Composes(seg, input))
            && (result.Visible? <==> composed.Composed? && DraftInOrder(composed.draft) && last != MAX_UINT64)
            && (result.Failure? ==>
                  if !composed.Composed? then result.error == InvalidProjection
                  else if !DraftInOrder(composed.draft) then Complaint(result.error)
                  else result.error == CounterExhausted)
  {
    ComposeOutcome(seg, input);
    hide Compose, Composes, NothingToSee, NodesInOrder, Complaint, Compile, DocumentFollows;
    if Compose(seg, input).Composed? {
      ComposedDocument(seg, input);
    }
  }
}
