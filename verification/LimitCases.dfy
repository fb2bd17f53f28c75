/** A terminal and two windows at the limits: text that the projection does not see it is losing, and a name that is
    not cut. */
module LimitCases {
  import opened Types
  import opened Utf8
  import opened Graphemes
  import opened DocumentSpec
  import opened DocumentOutcome
  import opened DocumentTruncation
  import opened TerminalSpec
  import opened TerminalDocument
  import opened TerminalLimits
  import opened TextRows
  import opened TreeSpec
  import opened TreeProperties
  import opened TreeOutcome
  import opened WindowCases

  /** Half of the graphemes a document has room for. */
  function HalfText(): (text: Text)
    ensures |text| == MAX_GRAPHEMES / 2 && Letters(text)
  {
    seq(MAX_GRAPHEMES / 2, i => 0x61)
  }

  /** A terminal of two hard rows that each hold half of the graphemes. */
  function FullInput(): TerminalInput {
    Screen([TextCell(HalfText())], true, PANE, [], None)
  }

  lemma HalfRow()
    ensures var cells := [TextCell(HalfText())];
            && Written(cells) && |CellText(cells)| == MAX_GRAPHEMES / 2
            && |Plain()(CellText(cells))| == MAX_GRAPHEMES / 2
  {
    hide HalfText, Written, CellText, CellChunks, Plain, ValidUtf8;
    LettersSplit(HalfText());
    OneCell(HalfText());
  }

  lemma FullScreen()
    ensures var input := FullInput();
            && input.Valid() && HasRow(input, 0, input.cells[..1]) && HasRow(input, 1, input.cells[..1])
            && input.cells[..1] == [TextCell(HalfText())] && input.rows == 2 && !input.truncated
            && input.providerID == input.generation == 1 && input.rootID == WINDOW && input.paneID == PANE
            && input.rootName == input.paneName == [] && input.selection == None && !input.cursorVisible
  {
    ScreenHasRows([TextCell(HalfText())], true, PANE, [], None);
    hide HasRow, TerminalInput.Valid, HalfText;
    assert FullInput().cells[..1] == [TextCell(HalfText())];
  }

  /** Two hard rows ask for one grapheme and one byte more than they hold. */
  lemma TwoRowsAsk(seg: Segmenter, first: TerminalRow, second: TerminalRow)
    requires first.text == second.text && !first.softWrapped
    ensures var rows := DraftsOfRows([first, second]);
            && |rows| == 2 && Clusters(seg, rows) == 2 * |seg(first.text)| && TextBytes(rows) == 2 * |first.text|
            && Breaks(rows) == 1
  {
    OneRowAsks(seg, first);
    DraftsAppend([first], second);
    assert [first] + [second] == [first, second];
    DraftParts(first);
    DraftParts(second);
    hide Clusters, TextBytes, Breaks, DraftOfRow, DraftsOfRows;
    assert DraftsOfRows([first]) == [DraftOfRow(first)];
    CountsAppend(seg, [DraftOfRow(first)], DraftOfRow(second));
  }

  lemma DraftParts(row: TerminalRow)
    ensures DraftOfRow(row).text == row.text && DraftOfRow(row).softWrapped == row.softWrapped
    ensures DraftsOfRows([row]) == [DraftOfRow(row)]
  {
  }

  /** The pane of that terminal: not marked, as every row fits. */
  lemma FullPane()
    ensures FullInput().Valid()
    ensures var pane := ProjectNode(Plain(), FullInput(), MAX_ROWS, MAX_UTF8_BYTES, MAX_GRAPHEMES);
            && pane == ProjectPane(Plain(), FullInput()) && pane.Ok? && !pane.value.truncated
            && pane.value.node.id == PANE && pane.value.node.role == RoleTerminal && pane.value.node.name == []
            && pane.value.node.caret == None && pane.value.node.selection == None
            && Clusters(Plain(), pane.value.node.rows) == MAX_GRAPHEMES && |pane.value.node.rows| == 2
            && TextBytes(pane.value.node.rows) == MAX_GRAPHEMES && Breaks(pane.value.node.rows) == 1
  {
    HalfRow();
    FullScreen();
    hide FullInput, HalfText, Written, CellText, ProjectNode, TerminalInput.Valid, HasRow, Plain, WithOffsets, Clusters,
         TextBytes, Breaks, DraftsOfRows;
    var first, second := TwoRowPane(Plain(), FullInput(), [TextCell(HalfText())], MAX_UTF8_BYTES, MAX_GRAPHEMES);
    TwoRowsAsk(Plain(), first, second);
    OffsetsKeepDrafts([first, second]);
  }

  lemma NoSelection(input: TerminalInput, rows: seq<TerminalRow>)
    requires input.selection == None
    ensures !SelectionReversed(input, rows)
  {
  }

  /** A terminal whose pane was projected whole and is not marked becomes a document that is cut and marked: the
      separator between its two rows is one grapheme too many. */
  lemma UnmarkedPaneIsCut(last: uint64)
    requires last != MAX_UINT64
    ensures ProjectPane(Plain(), FullInput()).Ok? && !ProjectPane(Plain(), FullInput()).value.truncated
    ensures TerminalResult(Plain(), FullInput(), last).Ok?
    ensures TerminalResult(Plain(), FullInput(), last).value.truncated
  {
    FullPane();
    FullScreen();
    hide FullInput, ProjectPane, ProjectNode, TerminalInput.Valid, HasRow, Plain, Clusters, TextBytes, Breaks, Projects,
         SelectionReversed, Compile, TerminalDraft;
    var rows := TerminalResultKnown(Plain(), FullInput(), last);
    PaneProjects(Plain(), FullInput());
    NoSelection(FullInput(), rows);
    TerminalTruncated(Plain(), FullInput());
  }

  const TAB := NodeID(KindTab, 1, 1, 0)

  function OneTab(panes: seq<TerminalInput>): TreeTab {
    TreeTab(TAB, [], true, panes)
  }

  /** A focused window of one tab, with the focus on the first pane. */
  function WindowOf(panes: seq<TerminalInput>): TreeProjectionInput {
    TreeProjectionInput(1, 1, true, TreeWindow(WINDOW, [], true, [OneTab(panes)]), PANE, None, None, None)
  }

  lemma WindowParts(panes: seq<TerminalInput>)
    ensures var input := WindowOf(panes);
            && input.visible && input.Valid() && ActiveTab(input.window.tabs) == Ok(Some(OneTab(panes)))
            && Reserve(input, OneTab(panes)) == 0
  {
    var tabs := [OneTab(panes)];
    assert tabs[..0] == [] && ActiveCount([]) == 0;
  }

  function WindowNode(): NodeDraft {
    NodeDraft(WINDOW, NO_NODE, RoleWindow, [], [], None, None)
  }

  function TabNode(): NodeDraft {
    NodeDraft(TAB, WINDOW, RoleTab, [], [], None, None)
  }

  /** The pane is the window's, has no name and projects to the node. */
  ghost predicate IsFirst(seg: Segmenter, pane: TerminalInput, node: NodeDraft) {
    && pane.providerID == pane.generation == 1 && pane.rootID == WINDOW && pane.paneID == PANE && pane.paneName == []
    && node.id == PANE
    && ProjectNode(seg, pane, MAX_ROWS, MAX_UTF8_BYTES, MAX_GRAPHEMES) == Ok(ProjectedNode(node, false))
  }

  /** The tree after the first pane. */
  ghost function FirstTree(seg: Segmenter, node: NodeDraft): Tree {
    Tree([WindowNode(), TabNode(), node.(parent := TAB)], NodeTotals(seg, node), false, true)
  }

  lemma FirstPaneTaken(seg: Segmenter, panes: seq<TerminalInput>, node: NodeDraft)
    requires panes != [] && IsFirst(seg, panes[0], node)
    ensures AddPanes(seg, WindowOf(panes), OneTab(panes), 0, 1) == Panes.Going(FirstTree(seg, node))
  {
    hide ProjectNode, RowTotals;
    var input, tab := WindowOf(panes), OneTab(panes);
    assert AddPanes(seg, input, tab, 0, 0) == Panes.Going(Start(input, tab));
    assert AddPane(seg, input, tab, 0, Start(input, tab), panes[0]) == Panes.Going(FirstTree(seg, node));
  }

  lemma TreeAttached(seg: Segmenter, panes: seq<TerminalInput>, node: NodeDraft)
    ensures var t := FirstTree(seg, node);
            AttachInputs(seg, WindowOf(panes), OneTab(panes), t)
            == Composed(DocumentDraft(1, 1, t.nodes, PANE, false), t.totals)
  {
    hide NodeTotals;
  }

  lemma OnePaneWindow(seg: Segmenter, pane: TerminalInput, node: NodeDraft)
    requires IsFirst(seg, pane, node)
    ensures var t := FirstTree(seg, node);
            Compose(seg, WindowOf([pane])) == Composed(DocumentDraft(1, 1, t.nodes, PANE, false), t.totals)
  {
    WindowParts([pane]);
    FirstPaneTaken(seg, [pane], node);
    TreeAttached(seg, [pane], node);
    hide AddPanes, AttachInputs, Reserve, FirstTree, ActiveTab, TreeProjectionInput.Valid, IsFirst;
  }

  lemma ThreeInOrder(node: NodeDraft)
    requires node.id == PANE && node.role == RoleTerminal && node.name == []
    requires node.caret == None && node.selection == None
    ensures NodesInOrder([WindowNode(), TabNode(), node.(parent := TAB)], 3)
  {
  }

  /** A window whose composition is not marked, with counters beyond the limit of graphemes; its document is cut and
      marked. */
  lemma UnmarkedWindowIsCut(last: uint64)
    requires last != MAX_UINT64
    ensures var composed := Compose(Plain(), WindowOf([FullInput()]));
            && composed.Composed? && !composed.draft.truncated && composed.totals.graphemes == MAX_GRAPHEMES + 1
    ensures var result := TreeResult(Plain(), WindowOf([FullInput()]), last);
            result.Visible? && result.document.truncated
  {
    FullPane();
    FullScreen();
    hide FullInput, ProjectPane, ProjectNode, TerminalInput.Valid, HasRow, Plain, Clusters, TextBytes, Breaks, Compile,
         Compose, NodesInOrder, RowTotals;
    var node := ProjectPane(Plain(), FullInput()).value.node;
    RowsAsk(Plain(), node.rows);
    OnePaneWindow(Plain(), FullInput(), node);
    ThreeInOrder(node);
    TreeResultKnown(Plain(), WindowOf([FullInput()]), last);
    ComposedDocument(Plain(), WindowOf([FullInput()]));
  }

  /** A letter with `n` combining grave accents. */
  function Accented(n: nat): (text: Text)
    ensures |text| == 2 * n + 1
  {
    if n == 0 then [0x61] else Accented(n - 1) + [0xCC, 0x80]
  }

  ghost function Marked(): Segmenter {
    MarkedLettersAreLawful();
    MarkedLetters
  }

  /** However many accents it has, it is one cluster. */
  lemma {:induction false} AccentedIsOne(n: nat)
    ensures ValidUtf8(Accented(n)) && !HasLineBreak(Accented(n)) && Marked()(Accented(n)) == [Accented(n)]
  {
    if n > 0 {
      AccentedIsOne(n - 1);
      AccentAttaches(Accented(n - 1));
    } else {
      assert [0x61][1..] == [] && [0x61][..0] == [];
    }
  }

  lemma AccentIsValid()
    ensures ValidUtf8([0xCC, 0x80])
  {
    assert [0xCC, 0x80][2..] == [];
  }

  lemma PieceGrows(starts: byte -> bool, text: Text, b: byte)
    requires PiecesBy(starts, text) == [text] && !starts(b)
    ensures PiecesBy(starts, text + [b]) == [text + [b]]
  {
    assert (text + [b])[..|text|] == text;
  }

  lemma AccentAttaches(text: Text)
    requires ValidUtf8(text) && Marked()(text) == [text]
    ensures ValidUtf8(text + [0xCC, 0x80]) && Marked()(text + [0xCC, 0x80]) == [text + [0xCC, 0x80]]
  {
    hide ValidUtf8, RuneLength, PiecesBy;
    AccentIsValid();
    ValidConcat(text, [0xCC, 0x80]);
    PieceGrows(StartsUnmarked, text, 0xCC);
    PieceGrows(StartsUnmarked, text + [0xCC], 0x80);
    assert text + [0xCC] + [0x80] == text + [0xCC, 0x80];
  }

  /** A terminal of one cell, a letter with `n` accents. */
  function LongInput(n: nat): TerminalInput {
    Screen([TextCell(Accented(n))], false, PANE, [], None)
  }

  /** A terminal of one letter whose pane has a name of two. */
  function NamedInput(): TerminalInput {
    Screen([TextCell([0x61])], false, NodeID(KindPane, 1, 3, 1), [0x61, 0x62], None)
  }

  lemma LongPane(n: nat) returns (node: NodeDraft)
    requires 2 * n + 1 < MAX_UTF8_BYTES
    ensures IsFirst(Marked(), LongInput(n), node)
    ensures NodeTotals(Marked(), node) == Totals(1, 1, 2 * n + 1)
  {
    AccentedIsOne(n);
    LongScreen(n);
    hide ProjectNode, TerminalInput.Valid, HasRow, Written, CellText, CellChunks, Marked, Accented, LongInput,
         ValidUtf8, Shows, WithOffsets, RowTotals, Clusters, TextBytes, Breaks, DraftsOfRows;
    OneCell(Accented(n));
    var row := OneRowPane(Marked(), LongInput(n), [TextCell(Accented(n))], MAX_UTF8_BYTES, MAX_GRAPHEMES);
    ShownText(Marked(), row, [TextCell(Accented(n))]);
    node := PaneOf(LongInput(n), WithOffsets([row]));
    OffsetsKeepDrafts([row]);
    OneRowAsks(Marked(), row);
    RowsAsk(Marked(), node.rows);
  }

  lemma LongScreen(n: nat)
    ensures var input := LongInput(n);
            && HasRow(input, 0, [TextCell(Accented(n))]) && input.rows == 1 && !input.truncated
            && input.providerID == input.generation == 1 && input.rootID == WINDOW && input.paneID == PANE
            && input.rootName == input.paneName == []
  {
    ScreenHasRows([TextCell(Accented(n))], false, PANE, [], None);
    hide HasRow, TerminalInput.Valid, Accented;
  }

  lemma OneRowAsks(seg: Segmenter, row: TerminalRow)
    ensures var rows := DraftsOfRows([row]);
            |rows| == 1 && Clusters(seg, rows) == |seg(row.text)| && TextBytes(rows) == |row.text| && Breaks(rows) == 0
  {
    DraftParts(row);
    hide DraftsOfRows, DraftOfRow;
    assert [] + [DraftOfRow(row)] == [DraftOfRow(row)];
    CountsAppend(seg, [], DraftOfRow(row));
  }

  /** The second pane projects alone, name and all. */
  lemma NamedProjects()
    ensures ProjectPane(Marked(), NamedInput()).Ok?
  {
    AccentedIsOne(0);
    NamedScreen();
    assert Accented(0) == [0x61] && 1 <= MAX_GRAPHEMES && 1 <= MAX_UTF8_BYTES - 2;
    hide *;
    OneCell([0x61]);
    PaneUnfolds(Marked(), NamedInput());
    var row := OneRowPane(Marked(), NamedInput(), [TextCell([0x61])], MAX_UTF8_BYTES - 2, MAX_GRAPHEMES);
  }

  lemma NamedScreen()
    ensures var input := NamedInput();
            && HasRow(input, 0, [TextCell([0x61])]) && input.rows == 1 && !input.truncated
            && input.rootName == [] && |input.paneName| == 2
  {
    LettersSplit([0x61, 0x62]);
    ScreenHasRows([TextCell([0x61])], false, NodeID(KindPane, 1, 3, 1), [0x61, 0x62], None);
    hide HasRow, TerminalInput.Valid;
  }

  lemma LongAlone(seg: Segmenter, pane: TerminalInput, node: NodeDraft)
    requires IsFirst(seg, pane, node) && pane.rootName == []
    ensures ProjectPane(seg, pane).Ok?
  {
    hide ProjectNode;
  }

  lemma LongNameIsRefused(n: nat, last: uint64)
    requires 2 * n + 1 == MAX_UTF8_BYTES - 1
    ensures var panes := [LongInput(n), NamedInput()];
            && ProjectPane(Marked(), panes[0]).Ok? && ProjectPane(Marked(), panes[1]).Ok?
            && TreeResult(Marked(), WindowOf(panes), last) == Failure(InvalidProjection)
  {
    var panes := [LongInput(n), NamedInput()];
    NamedProjects();
    NamedScreen();
    LongScreen(n);
    var node := LongPane(n);
    hide LongInput, NamedInput, Marked, ProjectNode, TerminalInput.Valid, HasRow, NodeTotals, AddPanes, Compose,
         Reserve, ActiveTab;
    LongAlone(Marked(), panes[0], node);
    WindowParts(panes);
    FirstPaneTaken(Marked(), panes, node);
    LongNameRefuses(Marked(), WindowOf(panes), OneTab(panes), 1);
  }

  /** So many accents that one byte of the document is left. */
  const ACCENTS: nat := MAX_UTF8_BYTES / 2 - 1

  /** A window of two panes that each project alone is refused when the first leaves one byte for the name of the
      second, which has two: the document would have cut that name, the composition does not. */
  lemma NameIsNotCut(last: uint64)
    ensures var panes := [LongInput(ACCENTS), NamedInput()];
            && ProjectPane(Marked(), panes[0]).Ok? && ProjectPane(Marked(), panes[1]).Ok?
            && TreeResult(Marked(), WindowOf(panes), last) == Failure(InvalidProjection)
  {
    assert 2 * ACCENTS + 1 == MAX_UTF8_BYTES - 1;
    hide *;
    LongNameIsRefused(ACCENTS, last);
  }
}
