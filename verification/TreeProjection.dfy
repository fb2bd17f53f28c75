/** The loops and branches that compose the document of one window. */
module TreeProjection {
  import opened Types
  import opened Utf8
  import opened Graphemes
  import opened DocumentSpec
  import opened DocumentProperties
  import opened DocumentOutcome
  import opened DocumentTruncation
  import Documents
  import TerminalProjection
  import opened TreeSpec

  method ActiveTreeTab(tabs: seq<TreeTab>) returns (result: Result<Option<TreeTab>>)
    ensures result == ActiveTab(tabs)
  {
    var active: Option<TreeTab> := None;
    for n := 0 to |tabs|
      invariant ActiveCount(tabs[..n]) == if active.Some? then 1 else 0
      invariant active == LastActive(tabs[..n])
    {
      assert tabs[..n + 1][..n] == tabs[..n];
      if !tabs[n].active {
        continue;
      }
      if active.Some? {
        ActiveCountGrows(tabs, n + 1);
        return Err(InvalidProjection);
      }
      active := Some(tabs[n]);
    }
    assert tabs[..|tabs|] == tabs;
    return Ok(active);
  }

  lemma {:induction false} ActiveCountGrows(tabs: seq<TreeTab>, n: nat)
    requires n <= |tabs|
    ensures ActiveCount(tabs[..n]) <= ActiveCount(tabs)
    decreases |tabs|
  {
    if n == |tabs| {
      assert tabs[..n] == tabs;
    } else {
      var before := tabs[..|tabs| - 1];
      assert before[..n] == tabs[..n];
      ActiveCountGrows(before, n);
    }
  }

  method TreePaneIndex(panes: seq<TerminalSpec.TerminalInput>, id: NodeID) returns (index: int)
    ensures index == PaneIndex(panes, id, 0)
  {
    for n := 0 to |panes|
      invariant PaneIndex(panes, id, 0) == PaneIndex(panes, id, n)
    {
      if panes[n].paneID == id {
        return n;
      }
    }
    return -1;
  }

  method TreeNodePresent(nodes: seq<NodeDraft>, id: NodeID) returns (present: bool)
    ensures present <==> NodePresent(nodes, id)
  {
    for n := 0 to |nodes|
      invariant forall i :: 0 <= i < n ==> nodes[i].id != id
    {
      if nodes[n].id == id {
        return true;
      }
    }
    return false;
  }

  /** The counters after a node: its name, its rows with their separators, and every grapheme of them. */
  method AddTreeNodeBudget(seg: Segmenter, node: NodeDraft, totals: Totals) returns (after: Totals)
    ensures after == Plus(totals, NodeTotals(seg, node))
  {
    hide Unbudgeted, Concat;
    var byteCount := totals.utf8Bytes + |node.name|;
    var graphemeCount := totals.graphemes;
    NoRowTotals(seg, node.rows);
    for rowIndex := 0 to |node.rows|
      invariant graphemeCount == totals.graphemes + RowTotals(seg, node.rows[..rowIndex]).graphemes
      invariant byteCount == totals.utf8Bytes + |node.name| + RowTotals(seg, node.rows[..rowIndex]).utf8Bytes
    {
      assert node.rows[..rowIndex + 1] == node.rows[..rowIndex] + [node.rows[rowIndex]];
      RowTotalsGrow(seg, node.rows[..rowIndex], node.rows[rowIndex]);
      if rowIndex > 0 && !node.rows[rowIndex - 1].softWrapped {
        byteCount := byteCount + 1;
        graphemeCount := graphemeCount + 1;
      }
      byteCount := byteCount + |node.rows[rowIndex].text|;
      var clusters := seg(node.rows[rowIndex].text);
      for cluster := 0 to |clusters|
        invariant graphemeCount + |clusters| - cluster
               == totals.graphemes + RowTotals(seg, node.rows[..rowIndex + 1]).graphemes
      {
        graphemeCount := graphemeCount + 1;
      }
    }
    assert node.rows[..|node.rows|] == node.rows;
    after := Totals(totals.rows + |node.rows|, graphemeCount, byteCount);
  }

  lemma NoRowTotals(seg: Segmenter, rows: seq<RowDraft>)
    ensures RowTotals(seg, rows[..0]) == Totals(0, 0, 0)
  {
    assert rows[..0] == [];
  }

  method AppendNode(seg: Segmenter, t: Tree, node: NodeDraft, truncated: bool) returns (u: Tree)
    ensures u == WithNode(seg, t, node, truncated)
  {
    var totals := AddTreeNodeBudget(seg, node, t.totals);
    u := Tree(t.nodes + [node], totals, t.truncated || truncated, t.focusedPane);
  }

  lemma {:induction false} FitsBudgetStep(pieces: seq<Text>, graphemes: nat, bytes: nat, k: nat)
    requires k <= FitsBudget(pieces, graphemes, bytes)
    ensures |Concat(pieces[..k])| <= bytes && k <= graphemes
    ensures FitsBudget(pieces, graphemes, bytes)
         == k + FitsBudget(pieces[k..], graphemes - k, bytes - |Concat(pieces[..k])|)
  {
    if k == 0 {
      assert pieces[0..] == pieces;
    } else {
      FitsBudgetStep(pieces, graphemes, bytes, k - 1);
      var rest := pieces[k - 1..];
      assert rest[1..] == pieces[k..];
      assert pieces[..k] == pieces[..k - 1] + [pieces[k - 1]];
      ConcatOne(pieces[..k - 1], pieces[k - 1]);
    }
  }

  /** The node of an input surface; its clusters are taken while both budgets have room. */
  method BoundedTreeInputNode(seg: Segmenter, input: TreeInput, totals: Totals) returns (bounded: InputNode)
    ensures bounded == BoundedInput(seg, input, totals)
  {
    var rowBudget := MAX_ROWS - totals.rows;
    var byteBudget := Max(0, MAX_UTF8_BYTES - totals.utf8Bytes - |input.name|);
    var graphemeBudget := Max(0, MAX_GRAPHEMES - totals.graphemes);
    if rowBudget <= 0 {
      return InputNode(NodeDraft(input.id, input.parent, input.role, input.name, [], input.caret, input.selection),
                       true);
    }
    var pieces := seg(input.text);
    var text: Text, count, truncated := [], 0, false;
    assert Concat(pieces[..0]) == [];
    hide Concat;
    for n := 0 to |pieces|
      invariant count == n <= FitsBudget(pieces, graphemeBudget, byteBudget)
      invariant text == Concat(pieces[..n]) && !truncated
    {
      FitsBudgetStep(pieces, graphemeBudget, byteBudget, n);
      assert pieces[n..][0] == pieces[n];
      if count == graphemeBudget || |pieces[n]| > byteBudget - |text| {
        truncated := true;
        break;
      }
      assert pieces[..n + 1] == pieces[..n] + [pieces[n]];
      ConcatOne(pieces[..n], pieces[n]);
      text := text + pieces[n];
      count := count + 1;
    }
    return InputNode(NodeDraft(input.id, input.parent, input.role, input.name, [RowDraft(text, [], false)],
                               input.caret, input.selection), truncated);
  }

  method ValidateTreeInput(input: TreeInput, window: NodeID, expectedParent: NodeID, nodes: seq<NodeDraft>,
                           dialogAllowed: bool)
    returns (ok: bool)
    ensures ok <==> InputFits(input, window, expectedParent, nodes, dialogAllowed)
  {
    if !input.id.Valid() || input.id.kind != KindInput || input.id.projection != window.projection
       || input.id.activation == 0 || !ValidUtf8(input.text) || HasLineBreak(input.text)
       || |input.text| > MAX_UTF8_BYTES {
      return false;
    }
    if input.role != RoleDialog && input.role != RoleTextField {
      return false;
    }
    var parentPresent := TreeNodePresent(nodes, input.parent);
    if !parentPresent {
      return false;
    }
    if input.role == RoleDialog {
      if !dialogAllowed || input.parent != window {
        return false;
      }
    } else if input.parent != expectedParent {
      return false;
    }
    return true;
  }

  lemma {:induction false} PanesEndedStay(seg: Segmenter, input: TreeProjectionInput, tab: TreeTab, reserve: nat,
                                          n: nat, m: nat)
    requires n <= m <= |tab.panes| && !AddPanes(seg, input, tab, reserve, n).Going?
    ensures AddPanes(seg, input, tab, reserve, m) == AddPanes(seg, input, tab, reserve, n)
  {
    hide AddPane;
    if n < m {
      PanesEndedStay(seg, input, tab, reserve, n, m - 1);
    }
  }

  lemma NextPane(seg: Segmenter, input: TreeProjectionInput, tab: TreeTab, reserve: nat, n: nat, t: Tree)
    requires n < |tab.panes| && AddPanes(seg, input, tab, reserve, n) == Going(t)
    ensures AddPanes(seg, input, tab, reserve, n + 1) == AddPane(seg, input, tab, reserve, t, tab.panes[n])
  {
    hide AddPane;
  }

  /** One turn of the pane loop. */
  method ComposePane(seg: Segmenter, input: TreeProjectionInput, tab: TreeTab, reserve: nat, t: Tree,
                     terminal: TerminalSpec.TerminalInput)
    returns (step: Panes)
    ensures step == AddPane(seg, input, tab, reserve, t, terminal)
  {
    hide TerminalSpec.ProjectNode, NodeTotals;
    if |t.nodes| >= MAX_NODES - reserve || t.totals.rows >= MAX_ROWS || t.totals.graphemes >= MAX_GRAPHEMES
       || t.totals.utf8Bytes >= MAX_UTF8_BYTES {
      return Full(t.(truncated := true));
    }
    if terminal.providerID != input.providerID || terminal.generation != input.generation
       || terminal.rootID != input.window.id || terminal.paneID.projection != input.window.id.projection {
      return Bad(InvalidProjection);
    }
    var projected := TerminalProjection.ProjectTerminalNode(seg, terminal, MAX_ROWS - t.totals.rows,
                                                            MAX_UTF8_BYTES - t.totals.utf8Bytes - |terminal.paneName|,
                                                            MAX_GRAPHEMES - t.totals.graphemes);
    if projected.Err? {
      return Bad(projected.error);
    }
    var pane := projected.value.node.(parent := tab.id);
    var u := AppendNode(seg, t, pane, projected.value.truncated);
    if pane.id == input.focusedPane {
      u := u.(focusedPane := true);
    }
    return Going(u);
  }

  method ComposePanes(seg: Segmenter, input: TreeProjectionInput, tab: TreeTab, reserve: nat) returns (step: Panes)
    ensures step == AddPanes(seg, input, tab, reserve, |tab.panes|)
  {
    step := Going(Start(input, tab));
    hide AddPane, Start;
    for n := 0 to |tab.panes|
      invariant step == AddPanes(seg, input, tab, reserve, n) && step.Going?
    {
      NextPane(seg, input, tab, reserve, n, step.tree);
      step := ComposePane(seg, input, tab, reserve, step.tree, tab.panes[n]);
      if !step.Going? {
        PanesEndedStay(seg, input, tab, reserve, n + 1, |tab.panes|);
        return;
      }
    }
  }

  /** Whether a preedit is planned for, and how many nodes to hold back. */
  method PlanReserve(input: TreeProjectionInput, tab: TreeTab) returns (includePreedit: bool, reserve: nat)
    ensures includePreedit == PreeditPlanned(input, tab) && reserve == Reserve(input, tab)
  {
    var winner := input.Winner();
    var focusSurface := input.focusedPane;
    if winner.Some? {
      focusSurface := winner.value.id;
    }
    reserve := 0;
    if winner.Some? {
      reserve := reserve + 1;
    }
    includePreedit := input.preedit.Some? && input.preedit.value.parent == focusSurface;
    if includePreedit && (winner.None? || winner.value.role == RoleTextField) {
      var focusedIndex := TreePaneIndex(tab.panes, input.focusedPane);
      includePreedit := focusedIndex >= 0 && focusedIndex < MAX_NODES - 2 - reserve - 1;
    }
    if includePreedit {
      reserve := reserve + 1;
    }
  }

  /** Attaches the input surfaces and closes the draft. */
  method ComposeInputs(seg: Segmenter, input: TreeProjectionInput, tab: TreeTab, planned: bool, panes: Tree)
    returns (result: Composition)
    requires planned == PreeditPlanned(input, tab)
    ensures result == AttachInputs(seg, input, tab, panes)
  {
    hide BoundedInput, WithNode, PreeditPlanned, NodeTotals;
    var t := panes;
    if !t.focusedPane && !t.truncated {
      return Refused(InvalidProjection);
    }
    var winner := input.Winner();
    if winner.Some? && winner.value.role == RoleTextField && !t.focusedPane {
      winner := None;
    }
    var focus := NO_NODE;
    if input.window.focused && t.focusedPane {
      focus := input.focusedPane;
    }
    var focusSurface := input.focusedPane;
    if winner.Some? {
      if (input.modal.Some? && winner.value.role != RoleDialog)
          || (input.modal.None? && winner.value.role != RoleTextField) {
        return Refused(InvalidProjection);
      }
      var ok := ValidateTreeInput(winner.value, input.window.id, input.focusedPane, t.nodes, true);
      if !ok {
        return Refused(InvalidProjection);
      }
      var bounded := BoundedTreeInputNode(seg, winner.value, t.totals);
      t := AppendNode(seg, t, bounded.node, bounded.truncated);
      focusSurface := winner.value.id;
      if input.window.focused {
        focus := winner.value.id;
      }
    }
    assert t == WinnerAttached(seg, input, panes);
    result := ComposePreedit(seg, input, tab, planned, panes, t, focusSurface, focus);
  }

  method ComposePreedit(seg: Segmenter, input: TreeProjectionInput, tab: TreeTab, planned: bool, ghost panes: Tree,
                        tree: Tree,
                        focusSurface: NodeID, focus: NodeID)
    returns (result: Composition)
    requires planned == PreeditPlanned(input, tab)
    requires focusSurface == FocusSurface(input, panes) && focus == Focus(input, panes)
    ensures result == FinishTree(seg, input, tab, panes, tree)
  {
    hide BoundedInput, WithNode, FocusSurface, Focus, InputFits;
    var t := tree;
    var includePreedit := planned && input.preedit.value.parent == focusSurface;
    if includePreedit {
      includePreedit := TreeNodePresent(t.nodes, focusSurface);
    }
    if includePreedit {
      var ok := ValidateTreeInput(input.preedit.value, input.window.id, focusSurface, t.nodes, false);
      if !ok {
        return Refused(InvalidProjection);
      }
      var bounded := BoundedTreeInputNode(seg, input.preedit.value, t.totals);
      t := AppendNode(seg, t, bounded.node, bounded.truncated);
    }
    if input.window.focused && focus == NO_NODE && !t.truncated {
      return Refused(InvalidProjection);
    }
    return Composed(DocumentDraft(input.providerID, input.generation, t.nodes, focus, t.truncated), t.totals);
  }

  /** The draft of the document of a window. */
  method ComposeDraft(seg: Segmenter, input: TreeProjectionInput) returns (result: Composition)
    ensures result == Compose(seg, input)
  {
    hide AddPanes, AttachInputs, PreeditPlanned, ActiveTab;
    if !input.visible {
      return Hidden;
    }
    if !input.Valid() {
      return Refused(InvalidProjection);
    }
    var active := ActiveTreeTab(input.window.tabs);
    if active.Err? {
      return Refused(active.error);
    }
    if active.value.None? {
      return Hidden;
    }
    var tab := active.value.value;
    if tab.id.kind != KindTab || tab.id.projection != input.window.id.projection {
      return Refused(InvalidProjection);
    }
    if |tab.panes| == 0 {
      return Hidden;
    }
    var includePreedit, reserve := PlanReserve(input, tab);
    var panes := ComposePanes(seg, input, tab, reserve);
    if panes.Bad? {
      return Refused(panes.error);
    }
    result := ComposeInputs(seg, input, tab, includePreedit, panes.tree);
  }

  /** Composes the document of one visible window; a hidden one has none. */
  method ComposeTree(seg: Segmenter, input: TreeProjectionInput, counter: Documents.InstanceCounter)
    returns (result: ComposeResult)
    modifies counter
    ensures result == TreeResult(seg, input, old(counter.last))
    ensures counter.last == match Compose(seg, input)
                            case Composed(draft, _) =>
                              NextInstance(DocumentSpec.Compile(seg, draft), old(counter.last))
                            case _ => old(counter.last)
  {
    hide Compose, DocumentSpec.NewDocument, DocumentSpec.Compile;
    var composed := ComposeDraft(seg, input);
    match composed
    case Hidden =>
      return NothingVisible;
    case Refused(e) =>
      return Failure(e);
    case Composed(draft, _) =>
      var built := Documents.NewDocument(seg, draft, counter);
      if built.Err? {
        return Failure(built.error);
      }
      return Visible(built.value);
  }
}
