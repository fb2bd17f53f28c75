/** The projection of a native window with its active tab, panes and input surfaces into one document draft. */
module TreeSpec {
  import opened Types
  import opened Utf8
  import opened Graphemes
  import opened DocumentSpec
  import opened DocumentOutcome
  import opened DocumentTruncation
  import TerminalSpec

  datatype TreeTab = TreeTab(id: NodeID, name: Text, active: bool, panes: seq<TerminalSpec.TerminalInput>)

  datatype TreeWindow = TreeWindow(id: NodeID, name: Text, focused: bool, tabs: seq<TreeTab>)

  datatype TreeInput = TreeInput(id: NodeID, parent: NodeID, role: Role, name: Text, text: Text, caret: Option<int>,
                                 selection: Option<Span>)

  datatype TreeProjectionInput = TreeProjectionInput(
    providerID: uint64,
    generation: uint64,
    visible: bool,
    window: TreeWindow,
    focusedPane: NodeID,
    modal: Option<TreeInput>,
    search: Option<TreeInput>,
    preedit: Option<TreeInput>)
  {
    predicate Valid() {
      && providerID != 0 && generation != 0 && generation != MAX_UINT64
      && window.id.Valid() && window.id.kind == KindWindow
    }

    /** The input surface that takes the focus: a modal before a search. */
    function Winner(): Option<TreeInput> {
      if modal.Some? then modal else search
    }
  }

  /** How many tabs are active. */
  function ActiveCount(tabs: seq<TreeTab>): nat {
    if tabs == [] then 0 else ActiveCount(tabs[..|tabs| - 1]) + if tabs[|tabs| - 1].active then 1 else 0
  }

  function LastActive(tabs: seq<TreeTab>): Option<TreeTab> {
    if tabs == [] then None
    else if tabs[|tabs| - 1].active then Some(tabs[|tabs| - 1])
    else LastActive(tabs[..|tabs| - 1])
  }

  /** The one active tab, if there is one; two are an error. */
  function ActiveTab(tabs: seq<TreeTab>): Result<Option<TreeTab>> {
    if ActiveCount(tabs) > 1 then Err(InvalidProjection) else Ok(LastActive(tabs))
  }

  /** The first pane of the identity from position `from`, or -1. */
  function PaneIndex(panes: seq<TerminalSpec.TerminalInput>, id: NodeID, from: nat): int
    requires from <= |panes|
    decreases |panes| - from
  {
    if from == |panes| then -1 else if panes[from].paneID == id then from else PaneIndex(panes, id, from + 1)
  }

  /** The draft under composition and the counters that run along. */
  datatype Tree = Tree(nodes: seq<NodeDraft>, totals: Totals, truncated: bool, focusedPane: bool)

  ghost function WithNode(seg: Segmenter, t: Tree, node: NodeDraft, truncated: bool): Tree {
    Tree(t.nodes + [node], Plus(t.totals, NodeTotals(seg, node)), t.truncated || truncated, t.focusedPane)
  }

  datatype Panes = Going(tree: Tree) | Full(tree: Tree) | Bad(error: Error)

  predicate NoRoom(t: Tree, reserve: nat) {
    || |t.nodes| >= MAX_NODES - reserve
    || t.totals.rows >= MAX_ROWS || t.totals.graphemes >= MAX_GRAPHEMES || t.totals.utf8Bytes >= MAX_UTF8_BYTES
  }

  predicate PaneBelongs(input: TreeProjectionInput, pane: TerminalSpec.TerminalInput) {
    && pane.providerID == input.providerID && pane.generation == input.generation
    && pane.rootID == input.window.id && pane.paneID.projection == input.window.id.projection
  }

  /** One turn of the pane loop. */
  ghost function AddPane(seg: Segmenter, input: TreeProjectionInput, tab: TreeTab, reserve: nat, t: Tree,
                         pane: TerminalSpec.TerminalInput): Panes
  {
    if NoRoom(t, reserve) then Full(t.(truncated := true))
    else if !PaneBelongs(input, pane) then Bad(InvalidProjection)
    else
      match TerminalSpec.ProjectNode(seg, pane, MAX_ROWS - t.totals.rows,
                                     MAX_UTF8_BYTES - t.totals.utf8Bytes - |pane.paneName|,
                                     MAX_GRAPHEMES - t.totals.graphemes)
      case Err(e) => Bad(e)
      case Ok(projected) =>
        var node := projected.node.(parent := tab.id);
        var u := WithNode(seg, t, node, projected.truncated);
        Going(u.(focusedPane := t.focusedPane || node.id == input.focusedPane))
  }

  /** The first `n` panes of the active tab. */
  ghost function AddPanes(seg: Segmenter, input: TreeProjectionInput, tab: TreeTab, reserve: nat, n: nat): Panes
    requires n <= |tab.panes|
  {
    if n == 0 then Going(Start(input, tab))
    else
      match AddPanes(seg, input, tab, reserve, n - 1)
      case Going(t) => AddPane(seg, input, tab, reserve, t, tab.panes[n - 1])
      case other => other
  }

  /** The window and its active tab. */
  function Start(input: TreeProjectionInput, tab: TreeTab): Tree {
    Tree([NodeDraft(input.window.id, NO_NODE, RoleWindow, input.window.name, [], None, None),
          NodeDraft(tab.id, input.window.id, RoleTab, tab.name, [], None, None)],
         Totals(0, 0, |input.window.name| + |tab.name|), false, false)
  }

  /** Whether an input surface may be attached to the nodes. */
  predicate InputFits(input: TreeInput, window: NodeID, expectedParent: NodeID, nodes: seq<NodeDraft>,
                      dialogAllowed: bool) {
    && input.id.Valid() && input.id.kind == KindInput && input.id.projection == window.projection
    && input.id.activation != 0
    && ValidUtf8(input.text) && !HasLineBreak(input.text) && |input.text| <= MAX_UTF8_BYTES
    && (input.role == RoleDialog || input.role == RoleTextField)
    && NodePresent(nodes, input.parent)
    && (if input.role == RoleDialog then dialogAllowed && input.parent == window else input.parent == expectedParent)
  }

  /** How many of the pieces fit both budgets. */
  function FitsBudget(pieces: seq<Text>, graphemes: nat, bytes: nat): (k: nat)
    ensures k <= |pieces|
  {
    if pieces == [] || graphemes == 0 || |pieces[0]| > bytes then 0
    else 1 + FitsBudget(pieces[1..], graphemes - 1, bytes - |pieces[0]|)
  }

  datatype InputNode = InputNode(node: NodeDraft, truncated: bool)

  /** The node of an input surface, its text cut to the budgets. */
  function BoundedInput(seg: Segmenter, input: TreeInput, totals: Totals): InputNode {
    var pieces := seg(input.text);
    var k := FitsBudget(pieces, Max(0, MAX_GRAPHEMES - totals.graphemes),
                        Max(0, MAX_UTF8_BYTES - totals.utf8Bytes - |input.name|));
    if MAX_ROWS - totals.rows > 0 then
      InputNode(NodeDraft(input.id, input.parent, input.role, input.name, [RowDraft(Concat(pieces[..k]), [], false)],
                          input.caret, input.selection),
                k < |pieces|)
    else InputNode(NodeDraft(input.id, input.parent, input.role, input.name, [], input.caret, input.selection), true)
  }

  ghost function WithInput(seg: Segmenter, t: Tree, input: TreeInput): Tree {
    var bounded := BoundedInput(seg, input, t.totals);
    WithNode(seg, t, bounded.node, bounded.truncated)
  }

  /** The preedit is planned for when it hangs on the focus surface and, if that is the focused pane, the pane will
      not be left out. */
  predicate PreeditPlanned(input: TreeProjectionInput, tab: TreeTab) {
    var winner := input.Winner();
    && input.preedit.Some?
    && input.preedit.value.parent == (if winner.Some? then winner.value.id else input.focusedPane)
    && (winner.None? || winner.value.role == RoleTextField ==>
          var index := PaneIndex(tab.panes, input.focusedPane, 0);
          0 <= index < MAX_NODES - 2 - (if winner.Some? then 1 else 0) - 1)
  }

  function Reserve(input: TreeProjectionInput, tab: TreeTab): nat {
    (if input.Winner().Some? then 1 else 0) + (if PreeditPlanned(input, tab) then 1 else 0)
  }

  /** The winner that is still attached: a text field needs its pane. */
  function KeptWinner(input: TreeProjectionInput, t: Tree): Option<TreeInput> {
    var winner := input.Winner();
    if winner.Some? && winner.value.role == RoleTextField && !t.focusedPane then None else winner
  }

  predicate WinnerFits(input: TreeProjectionInput, winner: TreeInput, t: Tree) {
    && winner.role == (if input.modal.Some? then RoleDialog else RoleTextField)
    && InputFits(winner, input.window.id, input.focusedPane, t.nodes, true)
  }

  /** The tree once the winner is attached. */
  ghost function WinnerAttached(seg: Segmenter, input: TreeProjectionInput, t: Tree): Tree {
    match KeptWinner(input, t)
    case None => t
    case Some(winner) => WithInput(seg, t, winner)
  }

  function FocusSurface(input: TreeProjectionInput, t: Tree): NodeID {
    match KeptWinner(input, t)
    case None => input.focusedPane
    case Some(winner) => winner.id
  }

  function Focus(input: TreeProjectionInput, t: Tree): NodeID {
    if !input.window.focused then NO_NODE
    else
      match KeptWinner(input, t)
      case Some(winner) => winner.id
      case None => if t.focusedPane then input.focusedPane else NO_NODE
  }

  predicate PreeditKept(input: TreeProjectionInput, tab: TreeTab, surface: NodeID, nodes: seq<NodeDraft>) {
    PreeditPlanned(input, tab) && input.preedit.value.parent == surface && NodePresent(nodes, surface)
  }

  datatype Composition = Hidden | Refused(error: Error) | Composed(draft: DocumentDraft, totals: Totals)

  /** The end of the composition: the preedit and the document draft. */
  ghost function FinishTree(seg: Segmenter, input: TreeProjectionInput, tab: TreeTab, panes: Tree,
                            t: Tree): Composition {
    var surface, focus := FocusSurface(input, panes), Focus(input, panes);
    var keep := PreeditKept(input, tab, surface, t.nodes);
    if keep && !InputFits(input.preedit.value, input.window.id, surface, t.nodes, false) then Refused(InvalidProjection)
    else
      var u := if keep then WithInput(seg, t, input.preedit.value) else t;
      if input.window.focused && focus == NO_NODE && !u.truncated then Refused(InvalidProjection)
      else Composed(DocumentDraft(input.providerID, input.generation, u.nodes, focus, u.truncated), u.totals)
  }

  /** The composition once the panes are projected. */
  ghost function AttachInputs(seg: Segmenter, input: TreeProjectionInput, tab: TreeTab, t: Tree): Composition {
    if !t.focusedPane && !t.truncated then Refused(InvalidProjection)
    else if KeptWinner(input, t).Some? && !WinnerFits(input, KeptWinner(input, t).value, t)
    then Refused(InvalidProjection)
    else FinishTree(seg, input, tab, t, WinnerAttached(seg, input, t))
  }

  ghost function ComposeTab(seg: Segmenter, input: TreeProjectionInput, tab: TreeTab): Composition {
    if tab.id.kind != KindTab || tab.id.projection != input.window.id.projection then Refused(InvalidProjection)
    else if tab.panes == [] then Hidden
    else
      match AddPanes(seg, input, tab, Reserve(input, tab), |tab.panes|)
      case Bad(e) => Refused(e)
      case Going(t) => AttachInputs(seg, input, tab, t)
      case Full(t) => AttachInputs(seg, input, tab, t)
  }

  /** The draft of the document of a visible window, before the document itself is built. */
  ghost function Compose(seg: Segmenter, input: TreeProjectionInput): Composition {
    if !input.visible then Hidden
    else if !input.Valid() then Refused(InvalidProjection)
    else
      match ActiveTab(input.window.tabs)
      case Err(e) => Refused(e)
      case Ok(None) => Hidden
      case Ok(Some(tab)) => ComposeTab(seg, input, tab)
  }

  datatype ComposeResult = NothingVisible | Failure(error: Error) | Visible(document: Document)

  /** The document of a window, with the number after the last one. */
  ghost function TreeResult(seg: Segmenter, input: TreeProjectionInput, last: uint64): ComposeResult {
    match Compose(seg, input)
    case Hidden => NothingVisible
    case Refused(e) => Failure(e)
    case Composed(draft, _) =>
      match NewDocument(seg, draft, last)
      case Err(e) => Failure(e)
      case Ok(document) => Visible(document)
  }
}
