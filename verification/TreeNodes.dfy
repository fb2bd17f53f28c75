/** The nodes of a composed draft, one by one: the window and the tab as they are, each pane as it projects into what
    the nodes before it left, and each surface with its text cut to what is left. */
module TreeNodes {
  import opened Types
  import opened Graphemes
  import opened DocumentSpec
  import opened DocumentOutcome
  import opened DocumentTruncation
  import opened DocumentFaults
  import opened TerminalSpec
  import opened TreeSpec
  import opened TreeProperties
  import opened TreeContents
  import opened SurfaceRules
  import opened TreeOutcome

  /** Its place, its name and no text. */
  predicate IsHead(node: NodeDraft, id: NodeID, parent: NodeID, role: Role, name: Text) {
    && node.id == id && node.parent == parent && node.role == role && node.name == name && node.rows == []
    && node.caret == None && node.selection == None
  }

  /** What the pane projects to in what the nodes left. */
  ghost function Projected(seg: Segmenter, pane: TerminalInput, before: seq<NodeDraft>): Result<ProjectedNode> {
    var used := DraftTotals(seg, before);
    ProjectNode(seg, pane, 512 - used.rows, 1_048_576 - used.utf8Bytes - |pane.paneName|, 16_384 - used.graphemes)
  }

  /** The node is that pane, under the tab. */
  ghost predicate IsPane(seg: Segmenter, node: NodeDraft, pane: TerminalInput, tab: TreeTab, before: seq<NodeDraft>) {
    && Projected(seg, pane, before).Ok?
    && node == Projected(seg, pane, before).value.node.(parent := tab.id)
  }

  /** The window, the tab and the first `m` panes. */
  ghost predicate HeadAndPanes(seg: Segmenter, input: TreeProjectionInput, tab: TreeTab, m: nat,
                               nodes: seq<NodeDraft>)
  {
    && m <= |tab.panes| && |nodes| >= m + 2
    && IsHead(nodes[0], input.window.id, NO_NODE, RoleWindow, input.window.name)
    && IsHead(nodes[1], tab.id, input.window.id, RoleTab, tab.name)
    && forall k :: 0 <= k < m ==> IsPane(seg, nodes[k + 2], tab.panes[k], tab, nodes[..k + 2])
  }

  /** Something of the first `m` panes was left out. */
  ghost predicate PaneWasCut(seg: Segmenter, tab: TreeTab, m: nat, nodes: seq<NodeDraft>)
    requires m <= |tab.panes| && |nodes| >= m + 2
  {
    exists k :: 0 <= k < m && CutPane(seg, tab, k, nodes)
  }

  ghost predicate CutPane(seg: Segmenter, tab: TreeTab, k: nat, nodes: seq<NodeDraft>)
    requires k < |tab.panes| && |nodes| >= k + 2
  {
    var projected := Projected(seg, tab.panes[k], nodes[..k + 2]);
    projected.Ok? && projected.value.truncated
  }

  /** The tree of the pane loop. */
  ghost predicate PanesAre(seg: Segmenter, input: TreeProjectionInput, tab: TreeTab, m: nat, t: Tree, full: bool) {
    && m <= |tab.panes| && |t.nodes| == m + 2 && HeadAndPanes(seg, input, tab, m, t.nodes)
    && (t.truncated <==> full || PaneWasCut(seg, tab, m, t.nodes))
    && (t.focusedPane <==> PaneIsAmong(tab, input.focusedPane, m))
  }

  /** What stands in front stays as it is when nodes are appended. */
  lemma FrontStays(seg: Segmenter, input: TreeProjectionInput, tab: TreeTab, m: nat, nodes: seq<NodeDraft>,
                   more: seq<NodeDraft>)
    requires m <= |tab.panes| && |nodes| >= m + 2 && nodes <= more
    ensures HeadAndPanes(seg, input, tab, m, nodes) ==> HeadAndPanes(seg, input, tab, m, more)
    ensures PaneWasCut(seg, tab, m, more) <==> PaneWasCut(seg, tab, m, nodes)
  {
    hide IsPane, Projected, IsHead;
    forall k | 0 <= k < m
      ensures CutPane(seg, tab, k, more) <==> CutPane(seg, tab, k, nodes)
      ensures IsPane(seg, nodes[k + 2], tab.panes[k], tab, nodes[..k + 2]) ==>
                IsPane(seg, more[k + 2], tab.panes[k], tab, more[..k + 2])
    {
      assert more[..k + 2] == nodes[..k + 2];
    }
    hide CutPane;
  }

  lemma PaneAdded(seg: Segmenter, input: TreeProjectionInput, tab: TreeTab, reserve: nat, t: Tree, m: nat)
    requires TreeInv(seg, input, tab, t) && m < |tab.panes| && PanesAre(seg, input, tab, m, t, false)
    requires AddPane(seg, input, tab, reserve, t, tab.panes[m]).Going?
    ensures PanesAre(seg, input, tab, m + 1, AddPane(seg, input, tab, reserve, t, tab.panes[m]).tree, false)
  {
    var u := AddPane(seg, input, tab, reserve, t, tab.panes[m]).tree;
    PaneAppends(seg, input, tab, reserve, t, tab.panes[m]);
    NewPane(seg, input, tab, reserve, t, tab.panes[m]);
    hide AddPane, IsPane, Projected, IsHead, TreeInv;
    assert |t.nodes| == m + 2 && t.nodes <= u.nodes && u.nodes[..m + 2] == t.nodes;
    FrontStays(seg, input, tab, m, t.nodes, u.nodes);
    OneMorePane(seg, input, tab, m, u.nodes);
    OneMoreCut(seg, tab, m, u.nodes);
    CutIs(seg, tab, m, u.nodes);
    hide HeadAndPanes, PaneWasCut, CutPane;
  }

  lemma CutIs(seg: Segmenter, tab: TreeTab, k: nat, nodes: seq<NodeDraft>)
    requires k < |tab.panes| && |nodes| >= k + 2
    ensures var projected := Projected(seg, tab.panes[k], nodes[..k + 2]);
            CutPane(seg, tab, k, nodes) <==> projected.Ok? && projected.value.truncated
  {
    hide Projected;
  }

  lemma OneMorePane(seg: Segmenter, input: TreeProjectionInput, tab: TreeTab, m: nat, nodes: seq<NodeDraft>)
    requires m < |tab.panes| && |nodes| >= m + 3 && HeadAndPanes(seg, input, tab, m, nodes)
    requires IsPane(seg, nodes[m + 2], tab.panes[m], tab, nodes[..m + 2])
    ensures HeadAndPanes(seg, input, tab, m + 1, nodes)
  {
    hide IsPane, IsHead;
  }

  /** The node a turn of the pane loop adds. */
  lemma NewPane(seg: Segmenter, input: TreeProjectionInput, tab: TreeTab, reserve: nat, t: Tree, pane: TerminalInput)
    requires TreeInv(seg, input, tab, t) && AddPane(seg, input, tab, reserve, t, pane).Going?
    ensures var u := AddPane(seg, input, tab, reserve, t, pane).tree;
            && |u.nodes| == |t.nodes| + 1 && IsPane(seg, u.nodes[|t.nodes|], pane, tab, t.nodes)
            && Projected(seg, pane, t.nodes).Ok?
            && (u.truncated <==> t.truncated || Projected(seg, pane, t.nodes).value.truncated)
  {
    hide *;
    TotalsAre(seg, input, tab, t);
    ProjectedIs(seg, pane, t.nodes);
    AddedIs(seg, input, tab, reserve, t, pane);
  }

  lemma TotalsAre(seg: Segmenter, input: TreeProjectionInput, tab: TreeTab, t: Tree)
    requires TreeInv(seg, input, tab, t)
    ensures t.totals == DraftTotals(seg, t.nodes)
  {
  }

  lemma ProjectedIs(seg: Segmenter, pane: TerminalInput, before: seq<NodeDraft>)
    ensures var used := DraftTotals(seg, before);
            Projected(seg, pane, before)
            == ProjectNode(seg, pane, MAX_ROWS - used.rows, MAX_UTF8_BYTES - used.utf8Bytes - |pane.paneName|,
                           MAX_GRAPHEMES - used.graphemes)
  {
    hide ProjectNode, DraftTotals;
  }

  lemma AddedIs(seg: Segmenter, input: TreeProjectionInput, tab: TreeTab, reserve: nat, t: Tree, pane: TerminalInput)
    requires AddPane(seg, input, tab, reserve, t, pane).Going?
    requires Projected(seg, pane, t.nodes)
          == ProjectNode(seg, pane, MAX_ROWS - t.totals.rows, MAX_UTF8_BYTES - t.totals.utf8Bytes - |pane.paneName|,
                         MAX_GRAPHEMES - t.totals.graphemes)
    ensures var u := AddPane(seg, input, tab, reserve, t, pane).tree;
            && |u.nodes| == |t.nodes| + 1 && IsPane(seg, u.nodes[|t.nodes|], pane, tab, t.nodes)
            && Projected(seg, pane, t.nodes).Ok?
            && (u.truncated <==> t.truncated || Projected(seg, pane, t.nodes).value.truncated)
  {
    hide ProjectNode, NodeTotals, Projected, NoRoom, PaneBelongs;
  }

  lemma OneMoreCut(seg: Segmenter, tab: TreeTab, m: nat, nodes: seq<NodeDraft>)
    requires m < |tab.panes| && |nodes| >= m + 3
    ensures PaneWasCut(seg, tab, m + 1, nodes) <==> PaneWasCut(seg, tab, m, nodes) || CutPane(seg, tab, m, nodes)
  {
    hide CutPane;
  }

  lemma StartIsHead(seg: Segmenter, input: TreeProjectionInput, tab: TreeTab)
    ensures PanesAre(seg, input, tab, 0, Start(input, tab), false)
  {
  }

  /** How far the pane loop came, and what its tree holds. */
  lemma {:induction false} AddPanesAre(seg: Segmenter, input: TreeProjectionInput, tab: TreeTab, reserve: nat, n: nat)
    returns (m: nat)
    requires n <= |tab.panes| && reserve <= 2
    requires !AddPanes(seg, input, tab, reserve, n).Bad?
    ensures m <= n && PanesAre(seg, input, tab, m, AddPanes(seg, input, tab, reserve, n).tree, m < n)
    ensures AddPanes(seg, input, tab, reserve, n).Going? <==> m == n
  {
    hide AddPane, PanesAre, TreeInv;
    if n == 0 {
      m := 0;
      StartIsHead(seg, input, tab);
    } else {
      m := AddPanesAre(seg, input, tab, reserve, n - 1);
      var before := AddPanes(seg, input, tab, reserve, n - 1);
      if before.Going? {
        AddPanesKeeps(seg, input, tab, reserve, n - 1);
        FullAtOnce(seg, input, tab, reserve, before.tree, tab.panes[n - 1]);
        if AddPane(seg, input, tab, reserve, before.tree, tab.panes[n - 1]).Going? {
          PaneAdded(seg, input, tab, reserve, before.tree, n - 1);
          m := n;
        } else {
          FullIsMarked(seg, input, tab, reserve, before.tree, n - 1);
        }
      }
    }
  }

  lemma FullIsMarked(seg: Segmenter, input: TreeProjectionInput, tab: TreeTab, reserve: nat, t: Tree, m: nat)
    requires m < |tab.panes| && PanesAre(seg, input, tab, m, t, false)
    requires AddPane(seg, input, tab, reserve, t, tab.panes[m]).Full?
    ensures PanesAre(seg, input, tab, m, AddPane(seg, input, tab, reserve, t, tab.panes[m]).tree, true)
  {
    hide ProjectNode, WithNode, IsPane, CutPane;
  }

  function AtLeastNone(n: int): nat {
    if n < 0 then 0 else n
  }

  /** The text of the surface, or the longest beginning of it in whole graphemes that the nodes left room for; none, if
      there is no row left. */
  ghost predicate HasText(seg: Segmenter, surface: TreeInput, before: seq<NodeDraft>, rows: seq<RowDraft>, k: nat,
                          cut: bool)
  {
    var used, pieces := DraftTotals(seg, before), seg(surface.text);
    if used.rows >= 512 then rows == [] && cut
    else
      && TakesMost(pieces, k, AtLeastNone(16_384 - used.graphemes),
                   AtLeastNone(1_048_576 - used.utf8Bytes - |surface.name|))
      && rows == [RowDraft(Concat(pieces[..k]), [], false)] && (cut <==> k < |pieces|)
  }

  /** The node is the surface after these nodes. */
  ghost predicate IsAttached(seg: Segmenter, node: NodeDraft, surface: TreeInput, before: seq<NodeDraft>, cut: bool) {
    && node.id == surface.id && node.parent == surface.parent && node.role == surface.role && node.name == surface.name
    && node.caret == surface.caret && node.selection == surface.selection
    && exists k :: HasText(seg, surface, before, node.rows, k, cut)
  }

  lemma BoundedIsAttached(seg: Segmenter, surface: TreeInput, before: seq<NodeDraft>, totals: Totals)
    requires totals == DraftTotals(seg, before)
    ensures var bounded := BoundedInput(seg, surface, totals);
            IsAttached(seg, bounded.node, surface, before, bounded.truncated)
  {
    hide FitsBudget, Concat, DraftTotals;
    var pieces := seg(surface.text);
    var g, b := Max(0, MAX_GRAPHEMES - totals.graphemes), Max(0, MAX_UTF8_BYTES - totals.utf8Bytes - |surface.name|);
    FitsBudgetIsMaximal(pieces, g, b);
    var k := FitsBudget(pieces, g, b);
    var bounded := BoundedInput(seg, surface, totals);
    assert HasText(seg, surface, before, bounded.node.rows, k, bounded.truncated);
  }

  /** The tree with one more surface. */
  lemma AttachesOne(seg: Segmenter, input: TreeProjectionInput, tab: TreeTab, t: Tree, surface: TreeInput)
    returns (cut: bool)
    requires TreeInv(seg, input, tab, t)
    ensures var u := WithInput(seg, t, surface);
            && |u.nodes| == |t.nodes| + 1 && u.nodes[..|t.nodes|] == t.nodes
            && IsAttached(seg, u.nodes[|t.nodes|], surface, t.nodes, cut)
            && (u.truncated <==> t.truncated || cut)
  {
    var bounded := BoundedInput(seg, surface, t.totals);
    cut := bounded.truncated;
    hide BoundedInput, IsAttached, NodeTotals;
    assert t.totals == DraftTotals(seg, t.nodes);
    BoundedIsAttached(seg, surface, t.nodes, t.totals);
    assert WithInput(seg, t, surface).nodes[..|t.nodes|] == t.nodes;
  }

  /** The nodes from position `n` on are these surfaces, each after the nodes before it. */
  ghost predicate SurfacesAre(seg: Segmenter, nodes: seq<NodeDraft>, n: nat, surfaces: seq<TreeInput>,
                              cuts: seq<bool>)
  {
    && |surfaces| == |cuts| && |nodes| == n + |surfaces|
    && forall j :: 0 <= j < |surfaces| ==> IsAttached(seg, nodes[n + j], surfaces[j], nodes[..n + j], cuts[j])
  }

  function Listed(surface: Option<TreeInput>): seq<TreeInput> {
    match surface case None => [] case Some(s) => [s]
  }

  /** The preedit, if it hangs on what has the focus. */
  function Hanging(input: TreeProjectionInput, tab: TreeTab, focusedPane: bool,
                   nodes: seq<NodeDraft>): Option<TreeInput>
  {
    if PreeditHangs(input, tab, focusedPane, nodes) then input.preedit else None
  }

  ghost predicate PaneIsAmong(tab: TreeTab, id: NodeID, m: nat)
    requires m <= |tab.panes|
  {
    exists k :: 0 <= k < m && tab.panes[k].paneID == id
  }

  /** A composed draft, node by node. */
  ghost predicate NodesAre(seg: Segmenter, input: TreeProjectionInput, tab: TreeTab, m: nat, cuts: seq<bool>,
                           draft: DocumentDraft)
  {
    && m <= |tab.panes| && HeadAndPanes(seg, input, tab, m, draft.nodes)
    && var focused := PaneIsAmong(tab, input.focusedPane, m);
       var top := Listed(OnTop(input, focused));
       && |draft.nodes| >= m + 2 + |top|
       && var preedit := Listed(Hanging(input, tab, focused, draft.nodes[..m + 2 + |top|]));
          && SurfacesAre(seg, draft.nodes, m + 2, top + preedit, cuts)
          && draft.focus == FocusOf(input, focused)
          && (draft.truncated <==> m < |tab.panes| || PaneWasCut(seg, tab, m, draft.nodes) || true in cuts)
          && draft.providerID == input.providerID && draft.generation == input.generation
  }

  /** The tree after so many surfaces: what they are, and whether anything was left out. */
  ghost predicate Grown(seg: Segmenter, base: Tree, t: Tree, surfaces: seq<TreeInput>, cuts: seq<bool>) {
    && base.nodes <= t.nodes
    && SurfacesAre(seg, t.nodes, |base.nodes|, surfaces, cuts)
    && (t.truncated <==> base.truncated || true in cuts)
  }

  lemma GrowsByOne(seg: Segmenter, input: TreeProjectionInput, tab: TreeTab, base: Tree, t: Tree,
                   surfaces: seq<TreeInput>, cuts: seq<bool>, surface: TreeInput)
    returns (cut: bool)
    requires TreeInv(seg, input, tab, t) && Grown(seg, base, t, surfaces, cuts)
    ensures Grown(seg, base, WithInput(seg, t, surface), surfaces + [surface], cuts + [cut])
  {
    cut := AttachesOne(seg, input, tab, t, surface);
    hide TreeInv, WithInput, IsAttached, SurfacesAre;
    var u := WithInput(seg, t, surface);
    GrownLength(seg, base, t, surfaces, cuts);
    assert t.nodes <= u.nodes;
    OneMoreSurface(seg, t.nodes, u.nodes, |base.nodes|, surfaces, cuts, surface, cut);
    assert true in cuts + [cut] <==> true in cuts || cut;
  }

  lemma OneMoreSurface(seg: Segmenter, nodes: seq<NodeDraft>, more: seq<NodeDraft>, n: nat, surfaces: seq<TreeInput>,
                       cuts: seq<bool>, surface: TreeInput, cut: bool)
    requires SurfacesAre(seg, nodes, n, surfaces, cuts)
    requires |more| == |nodes| + 1 && more[..|nodes|] == nodes
    requires IsAttached(seg, more[|nodes|], surface, nodes, cut)
    ensures SurfacesAre(seg, more, n, surfaces + [surface], cuts + [cut])
  {
    hide IsAttached;
    forall j | 0 <= j < |surfaces| + 1
      ensures IsAttached(seg, more[n + j], (surfaces + [surface])[j], more[..n + j], (cuts + [cut])[j])
    {
      if j < |surfaces| {
        assert more[..n + j] == nodes[..n + j];
      }
    }
  }

  /** The topmost surface in front. */
  lemma TopGrows(seg: Segmenter, input: TreeProjectionInput, tab: TreeTab, t: Tree) returns (cuts: seq<bool>)
    requires TreeInv(seg, input, tab, t)
    ensures Grown(seg, t, WinnerAttached(seg, input, t), Listed(OnTop(input, t.focusedPane)), cuts)
  {
    hide TreeInv, WithInput, IsAttached, OnTop, KeptWinner;
    TopmostIsWinner(input, t);
    cuts := [];
    assert Grown(seg, t, t, [], cuts);
    if KeptWinner(input, t).Some? {
      var surface := KeptWinner(input, t).value;
      var cut := GrowsByOne(seg, input, tab, t, t, [], [], surface);
      cuts := [cut];
      assert [] + [surface] == [surface] && [] + [cut] == [cut];
    }
  }

  /** The surfaces of a composed draft and its focus. */
  lemma SurfacesGrow(seg: Segmenter, input: TreeProjectionInput, tab: TreeTab, t: Tree)
    returns (cuts: seq<bool>, end: Tree)
    requires TreeInv(seg, input, tab, t) && AttachInputs(seg, input, tab, t).Composed?
    ensures var draft := AttachInputs(seg, input, tab, t).draft;
            var top := OnTop(input, t.focusedPane);
            && |draft.nodes| >= |t.nodes| + |Listed(top)|
            && var preedit := Hanging(input, tab, t.focusedPane, draft.nodes[..|t.nodes| + |Listed(top)|]);
               && Grown(seg, t, end, Listed(top) + Listed(preedit), cuts)
               && draft == DocumentDraft(input.providerID, input.generation, end.nodes, FocusOf(input, t.focusedPane),
                                         end.truncated)
  {
    hide TreeInv, WithInput, WinnerAttached, OnTop, KeptWinner, Grown, PreeditHangs, PreeditKept, InputFits, WinnerFits,
         Focus, FocusSurface, FocusOf, Listed;
    var attached := WinnerAttached(seg, input, t);
    var top := OnTop(input, t.focusedPane);
    TopmostIsWinner(input, t);
    WinnerIsKept(seg, input, tab, t);
    cuts := TopGrows(seg, input, tab, t);
    GrownLength(seg, t, attached, Listed(top), cuts);
    HangsIsKept(input, tab, t, attached.nodes);
    end := attached;
    assert attached.nodes[..|attached.nodes|] == attached.nodes;
    if PreeditHangs(input, tab, t.focusedPane, attached.nodes) {
      var preedit := input.preedit.value;
      var cut := GrowsByOne(seg, input, tab, t, attached, Listed(top), cuts, preedit);
      end := WithInput(seg, attached, preedit);
      cuts := cuts + [cut];
      SurfaceAppends(seg, attached, preedit);
      assert end.nodes[..|attached.nodes|] == attached.nodes;
      ListedOne(preedit);
    } else {
      ListedNone(Listed(top));
    }
  }

  lemma ListedOne(surface: TreeInput)
    ensures Listed(Some(surface)) == [surface]
  {
  }

  lemma ListedNone(surfaces: seq<TreeInput>)
    ensures surfaces + Listed(None) == surfaces
  {
  }

  lemma GrownLength(seg: Segmenter, base: Tree, t: Tree, surfaces: seq<TreeInput>, cuts: seq<bool>)
    requires Grown(seg, base, t, surfaces, cuts)
    ensures |t.nodes| == |base.nodes| + |surfaces|
  {
    hide IsAttached;
  }

  lemma WinnerIsKept(seg: Segmenter, input: TreeProjectionInput, tab: TreeTab, t: Tree)
    requires TreeInv(seg, input, tab, t) && AttachInputs(seg, input, tab, t).Composed?
    ensures TreeInv(seg, input, tab, WinnerAttached(seg, input, t))
  {
    hide TreeInv, FinishTree, WinnerFits, WinnerAttached, KeptWinner, NodePresent, Focus;
    WinnerKeeps(seg, input, tab, t);
  }

  /** How many nodes are held back for the surfaces. */
  function Held(input: TreeProjectionInput, tab: TreeTab): nat {
    (if Topmost(input).Some? then 1 else 0) + (if PreeditCounts(input, tab) then 1 else 0)
  }

  /** One more pane may follow these nodes: a node, a row, a grapheme and a byte are left. */
  ghost predicate RoomForPane(seg: Segmenter, input: TreeProjectionInput, tab: TreeTab, before: seq<NodeDraft>) {
    var used := DraftTotals(seg, before);
    |before| < 256 - Held(input, tab) && used.rows < 512 && used.graphemes < 16_384 && used.utf8Bytes < 1_048_576
  }

  ghost predicate PanesHadRoom(seg: Segmenter, input: TreeProjectionInput, tab: TreeTab, m: nat,
                               nodes: seq<NodeDraft>)
  {
    |nodes| >= m + 2 && forall k :: 2 <= k < m + 2 ==> RoomForPane(seg, input, tab, nodes[..k])
  }

  lemma RoomIsLeft(seg: Segmenter, input: TreeProjectionInput, tab: TreeTab, t: Tree)
    requires TreeInv(seg, input, tab, t)
    ensures RoomForPane(seg, input, tab, t.nodes) <==> !NoRoom(t, Reserve(input, tab))
  {
    CountsIsPlanned(input, tab);
    assert Topmost(input) == input.Winner();
    hide PreeditPlanned, PreeditCounts, DraftTotals, TreeShaped, AllRowsAreSafe, AllSteady;
  }

  lemma RoomStays(seg: Segmenter, input: TreeProjectionInput, tab: TreeTab, m: nat, nodes: seq<NodeDraft>,
                  more: seq<NodeDraft>)
    requires PanesHadRoom(seg, input, tab, m, nodes) && nodes <= more
    ensures PanesHadRoom(seg, input, tab, m, more)
  {
    hide RoomForPane;
    forall k | 2 <= k < m + 2
      ensures RoomForPane(seg, input, tab, more[..k])
    {
      assert more[..k] == nodes[..k];
    }
  }

  /** Every pane taken had room, and the one that ended the loop had none. */
  lemma {:induction false} AddPanesHadRoom(seg: Segmenter, input: TreeProjectionInput, tab: TreeTab, n: nat)
    requires n <= |tab.panes| && !AddPanes(seg, input, tab, Reserve(input, tab), n).Bad?
    ensures var step := AddPanes(seg, input, tab, Reserve(input, tab), n);
            && |step.tree.nodes| >= 2
            && PanesHadRoom(seg, input, tab, |step.tree.nodes| - 2, step.tree.nodes)
            && (step.Full? ==> !RoomForPane(seg, input, tab, step.tree.nodes))
  {
    hide AddPane, RoomForPane, TreeInv, Reserve, NoRoom;
    var reserve := Reserve(input, tab);
    ReserveIsSmall(input, tab);
    if n > 0 {
      AddPanesHadRoom(seg, input, tab, n - 1);
      AddPanesKeeps(seg, input, tab, reserve, n - 1);
      var before := AddPanes(seg, input, tab, reserve, n - 1);
      if before.Going? {
        RoomIsLeft(seg, input, tab, before.tree);
        FullAtOnce(seg, input, tab, reserve, before.tree, tab.panes[n - 1]);
        LoopGrows(seg, input, tab, reserve, before.tree, tab.panes[n - 1]);
      }
    }
  }

  lemma LoopGrows(seg: Segmenter, input: TreeProjectionInput, tab: TreeTab, reserve: nat, t: Tree,
                  pane: TerminalInput)
    requires !AddPane(seg, input, tab, reserve, t, pane).Bad? && |t.nodes| >= 2
    requires PanesHadRoom(seg, input, tab, |t.nodes| - 2, t.nodes)
    requires AddPane(seg, input, tab, reserve, t, pane).Going? ==> RoomForPane(seg, input, tab, t.nodes)
    ensures var step := AddPane(seg, input, tab, reserve, t, pane);
            && |step.tree.nodes| >= 2
            && PanesHadRoom(seg, input, tab, |step.tree.nodes| - 2, step.tree.nodes)
            && (step.Full? ==> step.tree.nodes == t.nodes)
  {
    var step := AddPane(seg, input, tab, reserve, t, pane);
    hide ProjectNode, NodeTotals, RoomForPane, NoRoom, PaneBelongs;
    if step.Going? {
      var u := step.tree;
      assert u.nodes[..|t.nodes|] == t.nodes;
      RoomStays(seg, input, tab, |t.nodes| - 2, t.nodes, u.nodes);
    }
  }

  /** The panes were taken as long as there was room. */
  ghost predicate TakenWhileRoom(seg: Segmenter, input: TreeProjectionInput, tab: TreeTab, m: nat,
                                 nodes: seq<NodeDraft>)
  {
    && PanesHadRoom(seg, input, tab, m, nodes)
    && (m < |tab.panes| ==> !RoomForPane(seg, input, tab, nodes[..m + 2]))
  }

  lemma TabNodes(seg: Segmenter, input: TreeProjectionInput, tab: TreeTab) returns (m: nat, cuts: seq<bool>)
    requires ComposeTab(seg, input, tab).Composed?
    ensures NodesAre(seg, input, tab, m, cuts, ComposeTab(seg, input, tab).draft)
    ensures TakenWhileRoom(seg, input, tab, m, ComposeTab(seg, input, tab).draft.nodes)
  {
    hide AttachInputs, AddPanes, Reserve, PanesAre, TreeInv, Grown, RoomForPane, NodesAre;
    var n, reserve := |tab.panes|, Reserve(input, tab);
    ReserveIsSmall(input, tab);
    AddPanesKeeps(seg, input, tab, reserve, n);
    m := AddPanesAre(seg, input, tab, reserve, n);
    var t, end := AddPanes(seg, input, tab, reserve, n).tree, Start(input, tab);
    cuts, end := SurfacesGrow(seg, input, tab, t);
    PutTogether(seg, input, tab, m, t, end, cuts, ComposeTab(seg, input, tab).draft);
    AddPanesHadRoom(seg, input, tab, n);
    GrownFront(seg, t, end, m, input, tab, cuts, ComposeTab(seg, input, tab).draft);
    RoomStays(seg, input, tab, m, t.nodes, end.nodes);
  }

  lemma GrownFront(seg: Segmenter, t: Tree, end: Tree, m: nat, input: TreeProjectionInput, tab: TreeTab,
                   cuts: seq<bool>, draft: DocumentDraft)
    requires PanesAre(seg, input, tab, m, t, m < |tab.panes|)
    requires var top := OnTop(input, t.focusedPane);
             && |draft.nodes| >= |t.nodes| + |Listed(top)|
             && var preedit := Hanging(input, tab, t.focusedPane, draft.nodes[..|t.nodes| + |Listed(top)|]);
                Grown(seg, t, end, Listed(top) + Listed(preedit), cuts)
    ensures |t.nodes| == m + 2 && t.nodes <= end.nodes && end.nodes[..m + 2] == t.nodes
  {
    hide OnTop, Hanging, Listed, SurfacesAre, HeadAndPanes, PaneWasCut, PaneIsAmong;
  }

  lemma PutTogether(seg: Segmenter, input: TreeProjectionInput, tab: TreeTab, m: nat, t: Tree, end: Tree,
                    cuts: seq<bool>, draft: DocumentDraft)
    requires PanesAre(seg, input, tab, m, t, m < |tab.panes|)
    requires var top := OnTop(input, t.focusedPane);
             && |draft.nodes| >= |t.nodes| + |Listed(top)|
             && var preedit := Hanging(input, tab, t.focusedPane, draft.nodes[..|t.nodes| + |Listed(top)|]);
                Grown(seg, t, end, Listed(top) + Listed(preedit), cuts)
    requires draft == DocumentDraft(input.providerID, input.generation, end.nodes, FocusOf(input, t.focusedPane),
                                    end.truncated)
    ensures NodesAre(seg, input, tab, m, cuts, draft)
  {
    hide OnTop, FocusOf, Hanging, Listed, SurfacesAre, HeadAndPanes, PaneWasCut, PaneIsAmong;
    FrontStays(seg, input, tab, m, t.nodes, end.nodes);
  }

  /** Every composed draft, node by node, is the window and its one active tab by their own names and without text, the
      first panes of the tab, as long as there was room and each as it projects into what the nodes before it left, the
      topmost surface and the preedit, each with as much of its text as the nodes before it left room for. It is marked
      as truncated exactly when a pane was left out or any text was cut. */
  lemma ComposedNodes(seg: Segmenter, input: TreeProjectionInput) returns (tab: TreeTab, m: nat, cuts: seq<bool>)
    requires Compose(seg, input).Composed?
    ensures tab in input.window.tabs && tab.active && ActiveCount(input.window.tabs) == 1
    ensures NodesAre(seg, input, tab, m, cuts, Compose(seg, input).draft)
    ensures TakenWhileRoom(seg, input, tab, m, Compose(seg, input).draft.nodes)
  {
    hide ComposeTab, NodesAre, TakenWhileRoom, ActiveCount, LastActive;
    ActiveIsListed(input.window.tabs);
    OneActive(input.window.tabs);
    tab := LastActive(input.window.tabs).value;
    m, cuts := TabNodes(seg, input, tab);
  }
}
