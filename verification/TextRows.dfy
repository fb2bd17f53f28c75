/** Small terminals whose cells all hold text, and the rows and panes they project to. */
module TextRows {
  import opened Types
  import opened Utf8
  import opened Graphemes
  import opened TerminalSpec
  import opened TerminalChunks
  import opened TerminalProjection
  import opened TerminalProperties
  import opened WindowCases

  function TextCell(text: Text): TerminalCell {
    TerminalCell(text, false, false, false, 0)
  }

  /** Cells that each write text. */
  predicate Written(cells: seq<TerminalCell>) {
    && cells != []
    && forall i :: 0 <= i < |cells| ==>
         && cells[i] == TextCell(cells[i].text) && cells[i].text != []
         && ValidUtf8(cells[i].text) && !HasLineBreak(cells[i].text)
  }

  function CellText(cells: seq<TerminalCell>): Text {
    if cells == [] then [] else CellText(cells[..|cells| - 1]) + cells[|cells| - 1].text
  }

  /** One chunk for each cell. */
  function CellChunks(cells: seq<TerminalCell>): seq<TerminalChunk> {
    if cells == [] then []
    else
      var before, n := cells[..|cells| - 1], |cells| - 1;
      CellChunks(before) + [TerminalChunk(|CellText(before)|, |CellText(cells)|, n, n + 1)]
  }

  lemma OneCell(text: Text)
    requires text != [] && ValidUtf8(text) && !HasLineBreak(text)
    ensures var cells := [TextCell(text)];
            Written(cells) && CellText(cells) == text && CellChunks(cells) == [TerminalChunk(0, |text|, 0, 1)]
  {
    hide ValidUtf8, HasLineBreak;
    assert CellText([]) == [] && CellChunks([]) == [];
  }

  lemma NextCell(cells: seq<TerminalCell>, text: Text)
    requires Written(cells) && text != [] && ValidUtf8(text) && !HasLineBreak(text)
    ensures var more := cells + [TextCell(text)];
            && Written(more) && CellText(more) == CellText(cells) + text
            && CellChunks(more) == CellChunks(cells) + [TerminalChunk(|CellText(cells)|, |CellText(more)|, |cells|,
                                                                      |cells| + 1)]
  {
    hide ValidUtf8, HasLineBreak;
    assert (cells + [TextCell(text)])[..|cells|] == cells;
  }

  lemma WrittenAreValid(cells: seq<TerminalCell>)
    requires Written(cells)
    ensures ValidCells(cells) && ContentEnd(cells) == |cells|
  {
    hide ValidUtf8;
    forall i | 0 <= i < |cells|
      ensures CellFits(cells, i) && CellPlaced(cells, i)
    {
    }
  }

  lemma {:induction false} CollectWritten(cells: seq<TerminalCell>, n: nat, byteBudget: int)
    requires Written(cells) && n <= |cells| && |CellText(cells[..n])| <= byteBudget
    ensures Collect(cells, n, byteBudget) == Collected(CellText(cells[..n]), CellChunks(cells[..n]), false)
  {
    hide ValidUtf8;
    if n > 0 {
      assert cells[..n][..n - 1] == cells[..n - 1];
      CollectWritten(cells, n - 1, byteBudget);
    }
  }

  /** The first `k` clusters of the text of the cells, each over the cells it comes from. */
  ghost predicate Shows(seg: Segmenter, row: TerminalRow, cells: seq<TerminalCell>, k: nat) {
    var pieces := seg(CellText(cells));
    && |row.clusters| == k <= |pieces| && row.text == Concat(pieces[..k])
    && forall i :: 0 <= i < k ==>
         && row.clusters[i].text == pieces[i]
         && CoversItsChunks(CellChunks(cells), |Concat(pieces[..i])|, |Concat(pieces[..i + 1])|,
                            row.clusters[i].startCell, row.clusters[i].endCell)
  }

  /** Row `r` of the terminal is made of the cells, in their order, and ends its line. */
  ghost predicate HasRow(input: TerminalInput, r: nat, cells: seq<TerminalCell>) {
    && input.Valid() && r < input.rows
    && input.Row(r) == cells && input.Order(r) == None && !input.wrapped[r]
  }

  lemma RowUnfolds(seg: Segmenter, input: TerminalInput, r: nat, cells: seq<TerminalCell>, inverse: seq<int>,
                   byteBudget: int, graphemeBudget: nat)
    requires HasRow(input, r, cells) && ValidCells(cells) && inverse == seq(|cells|, i => i)
    ensures ProjectRow(seg, input, r, byteBudget, graphemeBudget)
         == Ok(RowOf(seg, input, r, Collect(cells, ContentEnd(cells), byteBudget), inverse, graphemeBudget))
  {
    hide RowOf, ValidCells, Collect, ContentEnd, TerminalInput.Valid;
    assert LogicalToVisual(None, |cells|) == Some(inverse);
  }

  lemma ColumnsOfRow(input: TerminalInput, r: nat, cells: seq<TerminalCell>)
    requires HasRow(input, r, cells)
    ensures input.cols == |cells| && input.Valid() && r < input.rows && !input.wrapped[r]
  {
    hide TerminalInput.Valid;
  }

  lemma RowOfShows(seg: Segmenter, input: TerminalInput, r: nat, cells: seq<TerminalCell>, inverse: seq<int>,
                   graphemeBudget: nat)
    requires input.Valid() && r < input.rows
    requires var c := Collected(CellText(cells), CellChunks(cells), false); ChunksTile(c.chunks, |c.text|, input.cols)
    ensures var k := Min(|seg(CellText(cells))|, graphemeBudget);
            var projected := RowOf(seg, input, r, Collected(CellText(cells), CellChunks(cells), false), inverse,
                                   graphemeBudget);
            && Shows(seg, projected.row, cells, k) && projected.row.softWrapped == input.wrapped[r]
            && (projected.truncated <==> k < |seg(CellText(cells))|)
  {
    hide ChunksTile, TerminalInput.Valid, CellText, CellChunks, ClusterAt, CoversItsChunks, Concat, ClustersInRow;
    RowOfCovers(seg, input, r, Collected(CellText(cells), CellChunks(cells), false), inverse, graphemeBudget);
  }

  /** A row whose text fits the bytes shows its clusters up to the budget. */
  lemma RowShows(seg: Segmenter, input: TerminalInput, r: nat, cells: seq<TerminalCell>, byteBudget: int,
                 graphemeBudget: nat)
    returns (row: TerminalRow)
    requires HasRow(input, r, cells) && Written(cells) && |CellText(cells)| <= byteBudget
    ensures input.Valid() && r < input.rows
    ensures var k := Min(|seg(CellText(cells))|, graphemeBudget);
            && ProjectRow(seg, input, r, byteBudget, graphemeBudget)
               == Ok(ProjectedRow(row, k < |seg(CellText(cells))|))
            && Shows(seg, row, cells, k) && !row.softWrapped
  {
    WrittenAreValid(cells);
    assert cells[..|cells|] == cells;
    CollectWritten(cells, |cells|, byteBudget);
    CollectTiles(cells, |cells|, byteBudget);
    ColumnsOfRow(input, r, cells);
    hide HasRow, Written, ValidCells, Collect, ContentEnd, RowOf, ProjectRow, Shows, ChunksTile, ChunksLead,
         TerminalInput.Valid, CellText, CellChunks, ValidUtf8;
    var inverse := seq(|cells|, i => i);
    RowUnfolds(seg, input, r, cells, inverse, byteBudget, graphemeBudget);
    RowOfShows(seg, input, r, cells, inverse, graphemeBudget);
    row := RowOf(seg, input, r, Collected(CellText(cells), CellChunks(cells), false), inverse, graphemeBudget).row;
  }

  lemma ShownText(seg: Segmenter, row: TerminalRow, cells: seq<TerminalCell>)
    requires Shows(seg, row, cells, |seg(CellText(cells))|)
    ensures row.text == CellText(cells) && |row.clusters| == |seg(CellText(cells))|
  {
    SegmentLaws(seg, CellText(cells));
    var pieces := seg(CellText(cells));
    assert pieces[..|pieces|] == pieces;
  }

  /** A row that fits both budgets is shown whole. */
  lemma WholeRow(seg: Segmenter, input: TerminalInput, r: nat, cells: seq<TerminalCell>, byteBudget: int,
                 graphemeBudget: nat)
    returns (row: TerminalRow)
    requires HasRow(input, r, cells) && Written(cells)
    requires |CellText(cells)| <= byteBudget && |seg(CellText(cells))| <= graphemeBudget
    ensures input.Valid() && r < input.rows
    ensures ProjectRow(seg, input, r, byteBudget, graphemeBudget) == Ok(ProjectedRow(row, false))
    ensures Shows(seg, row, cells, |seg(CellText(cells))|) && !row.softWrapped
    ensures row.text == CellText(cells) && |row.clusters| == |seg(CellText(cells))|
  {
    hide HasRow, Written, CellText, Shows, ProjectRow, TerminalInput.Valid;
    row := RowShows(seg, input, r, cells, byteBudget, graphemeBudget);
    ShownText(seg, row, cells);
  }

  const PANE := NodeID(KindPane, 1, 2, 1)

  /** A terminal in sight that shows the cells once or twice, in hard rows. */
  function Screen(cells: seq<TerminalCell>, twice: bool, pane: NodeID, name: Text, selection: Option<TerminalSelection>)
    : TerminalInput
  {
    TerminalInput(1, 1, WINDOW, pane, [], name, |cells|, if twice then 2 else 1, if twice then cells + cells else cells,
                  if twice then [false, false] else [false], false, [], false, CellPoint(0, 0), selection,
                  0.0, 0.0, 1.0, 1.0, Rect(0.0, 0.0, 100.0, 100.0), 0)
  }

  predicate ScreenFits(cells: seq<TerminalCell>, pane: NodeID, name: Text) {
    && 0 < |cells| <= 3 && pane.Valid() && pane.kind == KindPane && pane.projection == 1
    && ValidUtf8(name) && |name| <= MAX_NODE_NAME_BYTES
  }

  lemma ScreenIsValid(cells: seq<TerminalCell>, twice: bool, pane: NodeID, name: Text,
                      selection: Option<TerminalSelection>)
    requires ScreenFits(cells, pane, name)
    ensures var input := Screen(cells, twice, pane, name, selection);
            && input.Valid() && input.rows == (if twice then 2 else 1) && input.cols == |cells|
            && input.cells == (if twice then cells + cells else cells)
            && forall r :: 0 <= r < input.rows ==> !input.wrapped[r] && input.Order(r) == None
  {
    hide ValidUtf8;
    assert ValidUtf8([]) by {
      EmptyIsValid();
    }
  }

  lemma ScreenHasRows(cells: seq<TerminalCell>, twice: bool, pane: NodeID, name: Text,
                      selection: Option<TerminalSelection>)
    requires ScreenFits(cells, pane, name)
    ensures var input := Screen(cells, twice, pane, name, selection);
            input.Valid() && HasRow(input, 0, cells) && (twice ==> HasRow(input, 1, cells))
  {
    ScreenIsValid(cells, twice, pane, name, selection);
    hide Screen, ScreenFits, TerminalInput.Valid, TerminalInput.Order;
    var input := Screen(cells, twice, pane, name, selection);
    assert input.cells[0 * |cells|..1 * |cells|] == cells;
    assert twice ==> input.cells[1 * |cells|..2 * |cells|] == cells;
  }

  /** A screen of one row, shown whole. */
  lemma OneRowPane(seg: Segmenter, input: TerminalInput, cells: seq<TerminalCell>, byteBudget: int, graphemeBudget: int)
    returns (row: TerminalRow)
    requires HasRow(input, 0, cells) && input.rows == 1 && !input.truncated && Written(cells)
    requires |CellText(cells)| <= byteBudget && |seg(CellText(cells))| <= graphemeBudget
    ensures Shows(seg, row, cells, |seg(CellText(cells))|) && !row.softWrapped
    ensures ProjectNode(seg, input, MAX_ROWS, byteBudget, graphemeBudget)
         == Ok(ProjectedNode(PaneOf(input, WithOffsets([row])), false))
  {
    hide *;
    row := WholeRow(seg, input, 0, cells, byteBudget, graphemeBudget);
    NoRowsYet(seg, input, byteBudget, graphemeBudget);
    NextRow(seg, input, 0, byteBudget, graphemeBudget, [], byteBudget, graphemeBudget);
    assert [] + [row] == [row];
    WholePane(seg, input, byteBudget, graphemeBudget, [row], byteBudget - |row.text|,
              graphemeBudget - |row.clusters|);
  }

  lemma NoRowsYet(seg: Segmenter, input: TerminalInput, byteBudget: int, graphemeBudget: nat)
    requires input.Valid()
    ensures input.rows > 0
    ensures ProjectRows(seg, input, 0, byteBudget, graphemeBudget) == Rows.Going([], byteBudget, graphemeBudget)
  {
  }

  /** A screen of two rows whose first is cut. */
  lemma CutPane(seg: Segmenter, input: TerminalInput, cells: seq<TerminalCell>, byteBudget: int, graphemeBudget: int)
    returns (row: TerminalRow)
    requires HasRow(input, 0, cells) && input.rows == 2 && Written(cells)
    requires |CellText(cells)| <= byteBudget && 0 <= graphemeBudget < |seg(CellText(cells))|
    ensures Shows(seg, row, cells, graphemeBudget)
    ensures ProjectNode(seg, input, MAX_ROWS, byteBudget, graphemeBudget)
         == Ok(ProjectedNode(PaneOf(input, WithOffsets([row])), true))
  {
    row := RowShows(seg, input, 0, cells, byteBudget, graphemeBudget);
    hide ProjectRow, PaneOf, WithOffsets, TerminalInput.Valid, HasRow, Written, CellText, Shows;
    assert ProjectRows(seg, input, 0, byteBudget, graphemeBudget) == Rows.Going([], byteBudget, graphemeBudget);
    assert ProjectRows(seg, input, 1, byteBudget, graphemeBudget) == Rows.Cut([row]);
    assert ProjectRows(seg, input, 2, byteBudget, graphemeBudget) == Rows.Cut([row]);
  }

  /** A screen of two rows, shown whole. */
  lemma TwoRowPane(seg: Segmenter, input: TerminalInput, cells: seq<TerminalCell>, byteBudget: int, graphemeBudget: int)
    returns (first: TerminalRow, second: TerminalRow)
    requires HasRow(input, 0, cells) && HasRow(input, 1, cells) && input.rows == 2 && !input.truncated && Written(cells)
    requires 2 * |CellText(cells)| <= byteBudget && 2 * |seg(CellText(cells))| <= graphemeBudget
    ensures first.text == second.text == CellText(cells) && !first.softWrapped && !second.softWrapped
    ensures ProjectNode(seg, input, MAX_ROWS, byteBudget, graphemeBudget)
         == Ok(ProjectedNode(PaneOf(input, WithOffsets([first, second])), false))
  {
    hide *;
    var bytes, graphemes := |CellText(cells)|, |seg(CellText(cells))|;
    first := WholeRow(seg, input, 0, cells, byteBudget, graphemeBudget);
    second := WholeRow(seg, input, 1, cells, byteBudget - bytes, graphemeBudget - graphemes);
    NoRowsYet(seg, input, byteBudget, graphemeBudget);
    NextRow(seg, input, 0, byteBudget, graphemeBudget, [], byteBudget, graphemeBudget);
    NextRow(seg, input, 1, byteBudget, graphemeBudget, [first], byteBudget - bytes, graphemeBudget - graphemes);
    assert [] + [first] == [first] && [first] + [second] == [first, second];
    WholePane(seg, input, byteBudget, graphemeBudget, [first, second], byteBudget - 2 * bytes,
              graphemeBudget - 2 * graphemes);
  }

  lemma WholePane(seg: Segmenter, input: TerminalInput, byteBudget: int, graphemeBudget: nat, rows: seq<TerminalRow>,
                  bytes: int, graphemes: nat)
    requires input.Valid() && 0 < input.rows <= 2 && !input.truncated && byteBudget >= 0
    requires ProjectRows(seg, input, input.rows, byteBudget, graphemeBudget) == Rows.Going(rows, bytes, graphemes)
    ensures ProjectNode(seg, input, MAX_ROWS, byteBudget, graphemeBudget)
         == Ok(ProjectedNode(PaneOf(input, WithOffsets(rows)), false))
  {
    hide ProjectRows, PaneOf, WithOffsets, TerminalInput.Valid;
  }
}
