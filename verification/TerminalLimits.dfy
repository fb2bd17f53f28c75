/** When the document of a projected terminal is cut although the pane was not, and what the cutting of rows does to a
    selection. */
module TerminalLimits {
  import opened Types
  import opened Graphemes
  import opened DocumentSpec
  import opened DocumentProperties
  import opened DocumentTruncation
  import opened TerminalSpec
  import opened TerminalChunks
  import opened CellProperties
  import opened TerminalProperties
  import opened TerminalDocument

  /** The clusters of the rows. */
  ghost function Clusters(seg: Segmenter, rows: seq<RowDraft>): nat {
    if rows == [] then 0 else Clusters(seg, rows[..|rows| - 1]) + |seg(rows[|rows| - 1].text)|
  }

  function TextBytes(rows: seq<RowDraft>): nat {
    if rows == [] then 0 else TextBytes(rows[..|rows| - 1]) + |rows[|rows| - 1].text|
  }

  function HardRows(rows: seq<RowDraft>): nat {
    if rows == [] then 0 else HardRows(rows[..|rows| - 1]) + if rows[|rows| - 1].softWrapped then 0 else 1
  }

  /** The hard breaks between the rows; the last row has none after it. */
  function Breaks(rows: seq<RowDraft>): nat {
    if rows == [] then 0 else HardRows(rows[..|rows| - 1])
  }

  lemma CountsAppend(seg: Segmenter, rows: seq<RowDraft>, row: RowDraft)
    ensures Clusters(seg, rows + [row]) == Clusters(seg, rows) + |seg(row.text)|
    ensures TextBytes(rows + [row]) == TextBytes(rows) + |row.text|
    ensures Breaks(rows + [row]) == Breaks(rows) + |Separator(rows)|
  {
    assert (rows + [row])[..|rows|] == rows;
  }

  /** Rows ask for their clusters, their text and one separator for each inner hard break. */
  lemma {:induction false} RowsAsk(seg: Segmenter, rows: seq<RowDraft>)
    ensures RowTotals(seg, rows)
         == Totals(|rows|, Clusters(seg, rows) + Breaks(rows), TextBytes(rows) + Breaks(rows))
  {
    hide Separator;
    if rows != [] {
      var before, last := rows[..|rows| - 1], rows[|rows| - 1];
      assert rows == before + [last];
      RowsAsk(seg, before);
      CountsAppend(seg, before, last);
      RowTotalsGrow(seg, before, last);
    }
  }

  lemma DraftsAppend(rows: seq<TerminalRow>, row: TerminalRow)
    ensures DraftsOfRows(rows + [row]) == DraftsOfRows(rows) + [DraftOfRow(row)]
  {
  }

  /** What the row loop has taken and what it has left of its budgets. */
  ghost predicate Spent(seg: Segmenter, r: Rows, byteBudget: int, graphemeBudget: nat) {
    r.Bad? ||
    var drafts := DraftsOfRows(r.rows);
    && Clusters(seg, drafts) <= graphemeBudget && TextBytes(drafts) <= byteBudget
    && (r.Going? ==> r.graphemes == graphemeBudget - Clusters(seg, drafts)
                     && r.bytes == byteBudget - TextBytes(drafts))
  }

  lemma RowIsWithin(seg: Segmenter, input: TerminalInput, r: nat, byteBudget: int, graphemeBudget: nat)
    requires input.Valid() && r < input.rows && byteBudget >= 0
    requires ProjectRow(seg, input, r, byteBudget, graphemeBudget).Ok?
    ensures var row := ProjectRow(seg, input, r, byteBudget, graphemeBudget).value.row;
            && |row.text| <= byteBudget && |row.clusters| <= graphemeBudget && |seg(row.text)| == |row.clusters|
  {
    ProjectedRowIsSound(seg, input, r, byteBudget, graphemeBudget);
    var cells := input.Row(r);
    assert ValidCells(cells);
    hide ProjectRow, ValidCells, TerminalInput.Valid, TerminalInput.Row, Collect, ContentEnd, ClustersInRow,
         ClustersCoverChunks, ChunksTile, ChunksLead, RowAcceptable;
    CollectTiles(cells, ContentEnd(cells), byteBudget);
    AcceptableClusters(seg, ProjectRow(seg, input, r, byteBudget, graphemeBudget).value.row);
  }

  /** The rows a pane keeps are within its budgets; only the separators, which they do not count, are not. */
  lemma {:induction false} RowsAreWithin(seg: Segmenter, input: TerminalInput, n: nat, byteBudget: int,
                                         graphemeBudget: nat)
    requires input.Valid() && n <= input.rows && byteBudget >= 0
    ensures Spent(seg, ProjectRows(seg, input, n, byteBudget, graphemeBudget), byteBudget, graphemeBudget)
  {
    hide ProjectRow, TerminalInput.Valid, DraftsOfRows;
    if n == 0 {
      assert DraftsOfRows([]) == [];
    } else {
      RowsAreWithin(seg, input, n - 1, byteBudget, graphemeBudget);
      var before := ProjectRows(seg, input, n - 1, byteBudget, graphemeBudget);
      if before.Going? {
        var next := ProjectRow(seg, input, n - 1, before.bytes, before.graphemes);
        if next.Ok? {
          RowIsWithin(seg, input, n - 1, before.bytes, before.graphemes);
          DraftsAppend(before.rows, next.value.row);
          CountsAppend(seg, DraftsOfRows(before.rows), DraftOfRow(next.value.row));
        }
      }
    }
  }

  lemma OffsetsKeepDrafts(rows: seq<TerminalRow>)
    ensures DraftsOfRows(WithOffsets(rows)) == DraftsOfRows(rows)
  {
    hide OffsetOf;
    var placed := WithOffsets(rows);
    forall i | 0 <= i < |rows|
      ensures DraftOfRow(placed[i]) == DraftOfRow(rows[i])
    {
    }
  }

  lemma PaneRowsOf(input: TerminalInput, rows: seq<TerminalRow>)
    ensures PaneOf(input, rows).rows == DraftsOfRows(rows)
  {
  }

  lemma PaneIsWithin(seg: Segmenter, input: TerminalInput, rowBudget: int, byteBudget: int, graphemeBudget: int)
    requires ProjectNode(seg, input, rowBudget, byteBudget, graphemeBudget).Ok?
    ensures var rows := ProjectNode(seg, input, rowBudget, byteBudget, graphemeBudget).value.node.rows;
            |rows| <= rowBudget && Clusters(seg, rows) <= graphemeBudget && TextBytes(rows) <= byteBudget
  {
    var shape := ProjectedPaneShape(seg, input, rowBudget, byteBudget, graphemeBudget);
    hide TerminalInput.Valid, ProjectRows, PaneOf, DraftsOfRows, WithOffsets, RowsSound, RowsFollow;
    var limit := Min(input.rows, rowBudget);
    ValidParts(input);
    RowsAreWithin(seg, input, limit, byteBudget, graphemeBudget);
    var r := ProjectRows(seg, input, limit, byteBudget, graphemeBudget);
    OffsetsKeepDrafts(r.rows);
    PaneRowsOf(input, WithOffsets(r.rows));
    PaneRowsOf(input, shape);
  }

  /** A boundary of a projected row is a place in the text of the pane. */
  lemma BoundaryInText(rows: seq<TerminalRow>, r: nat, column: int, after: bool)
    requires RowsFollow(rows) && r < |rows|
    ensures CellBoundary(rows[r], column, after) <= rows[|rows| - 1].end
  {
    hide CellBoundary;
    BoundaryIsMonotone(rows[r], column, column, after);
    if r < |rows| - 1 {
      assert rows[r].end <= rows[|rows| - 1].start;
    }
  }

  /** The text of the pane ends where its last row does. */
  lemma TextEnds(seg: Segmenter, rows: seq<TerminalRow>, cols: int)
    requires RowsSound(seg, rows, cols) && RowsFollow(rows) && rows != []
    requires forall i :: 0 <= i < |rows| ==> rows[i].start == OffsetOf(rows, i)
    ensures |Unbudgeted(seg, DraftsOfRows(rows))| == rows[|rows| - 1].end
  {
    hide Unbudgeted, OffsetOf, RowAcceptable, DraftsOfRows;
    UnbudgetedRow(seg, rows, |rows| - 1);
    assert DraftsOfRows(rows)[..|rows|] == DraftsOfRows(rows);
  }

  lemma CaretInText(input: TerminalInput, rows: seq<TerminalRow>)
    requires RowsFollow(rows) && rows != []
    ensures CaretOf(input, rows).Some? ==> CaretOf(input, rows).value <= rows[|rows| - 1].end
  {
    hide CellBoundary, RowsFollow;
    if CaretOf(input, rows).Some? {
      BoundaryInText(rows, input.cursor.row, input.cursor.col, false);
    }
  }

  lemma SelectionInText(input: TerminalInput, rows: seq<TerminalRow>)
    requires RowsFollow(rows) && rows != []
    ensures var selection := SelectionOf(input, rows);
            selection.Some? ==>
              selection.value.start <= rows[|rows| - 1].end && selection.value.end <= rows[|rows| - 1].end
  {
    hide CellBoundary, RowsFollow;
    if input.selection.Some? {
      var start := ClampedStart(input.selection.value, input.cols, |rows|);
      var end := ClampedEnd(input.selection.value, input.cols, |rows|);
      BoundaryInText(rows, start.row, start.col, false);
      BoundaryInText(rows, end.row, end.col, true);
    }
  }

  /** The caret and the selection of a pane never lie beyond its text. */
  lemma PanePlacesFit(seg: Segmenter, input: TerminalInput, rows: seq<TerminalRow>)
    requires RowsSound(seg, rows, input.cols) && RowsFollow(rows) && rows != []
    requires forall i :: 0 <= i < |rows| ==> rows[i].start == OffsetOf(rows, i)
    ensures PlacesFit(seg, PaneOf(input, rows))
  {
    TextEnds(seg, rows, input.cols);
    CaretInText(input, rows);
    SelectionInText(input, rows);
    PaneParts(seg, input, rows);
    hide Unbudgeted, RowsSound, RowsFollow, OffsetOf, DraftsOfRows, PaneOf, CaretOf, SelectionOf, RowAcceptable;
  }

  /** The whole of what a terminal asks of its document. */
  lemma TerminalTotals(seg: Segmenter, input: TerminalInput, pane: ProjectedNode)
    ensures var nodes, rows := TerminalDraft(input, pane).nodes, pane.node.rows;
            DraftTotals(seg, nodes)
            == Totals(|rows|, Clusters(seg, rows) + Breaks(rows),
                      |input.rootName| + |pane.node.name| + TextBytes(rows) + Breaks(rows))
  {
    RowsAsk(seg, pane.node.rows);
    RowsAsk(seg, []);
    hide RowTotals, DraftFits;
    var root := RootDraft(input);
    DraftFitsGrows(seg, [], root);
    DraftFitsGrows(seg, [root], pane.node);
    assert [] + [root] == [root] && TerminalDraft(input, pane).nodes == [root] + [pane.node];
  }

  lemma TerminalPlacesFit(seg: Segmenter, input: TerminalInput, pane: ProjectedNode)
    ensures DraftFits(seg, TerminalDraft(input, pane).nodes)
       <==> DraftTotals(seg, TerminalDraft(input, pane).nodes).WithinLimits() && PlacesFit(seg, pane.node)
  {
    hide Unbudgeted, DraftTotals;
    var nodes := TerminalDraft(input, pane).nodes;
    assert nodes[0] == RootDraft(input) && nodes[1] == pane.node;
  }

  lemma PaneName(input: TerminalInput, rows: seq<TerminalRow>)
    ensures PaneOf(input, rows).name == input.paneName
  {
  }

  /** A terminal's document is marked truncated exactly when its pane was, or when its clusters and its inner hard
      breaks together pass the limit of graphemes, or when its names, its text and those breaks pass the limit of
      bytes. Without the breaks neither limit is ever passed: they are all that the projection does not count. */
  lemma TerminalTruncated(seg: Segmenter, input: TerminalInput)
    requires ProjectPane(seg, input).Ok?
    requires Compile(seg, TerminalDraft(input, ProjectPane(seg, input).value)).Ok?
    ensures var pane := ProjectPane(seg, input).value;
            var document, rows := Compile(seg, TerminalDraft(input, pane)).value, pane.node.rows;
            var names := |input.rootName| + |input.paneName|;
            && (document.truncated <==> pane.truncated
                                        || Clusters(seg, rows) + Breaks(rows) > MAX_GRAPHEMES
                                        || names + TextBytes(rows) + Breaks(rows) > MAX_UTF8_BYTES)
            && Clusters(seg, rows) <= MAX_GRAPHEMES && names + TextBytes(rows) <= MAX_UTF8_BYTES
  {
    assert 2 <= MAX_NODES;
    hide *;
    var pane := ProjectPane(seg, input).value;
    PaneFitsLimits(seg, input);
    TerminalTotals(seg, input, pane);
    TerminalPlacesFit(seg, input, pane);
    var draft := TerminalDraft(input, pane);
    DraftOfPane(input, pane);
    DraftIsMarked(input, pane);
    TruncatedExactly(seg, draft);
    assert draft.nodes[..2] == draft.nodes;
    LimitsUnfold(DraftTotals(seg, draft.nodes));
  }

  lemma PaneFitsLimits(seg: Segmenter, input: TerminalInput)
    requires ProjectPane(seg, input).Ok?
    ensures var node := ProjectPane(seg, input).value.node;
            && PlacesFit(seg, node) && node.name == input.paneName && |node.rows| <= MAX_ROWS
            && Clusters(seg, node.rows) <= MAX_GRAPHEMES
            && |input.rootName| + |input.paneName| + TextBytes(node.rows) <= MAX_UTF8_BYTES
  {
    var rows := ShapeOfPane(seg, input);
    assert rows != [];
    hide *;
    PaneUnfolds(seg, input);
    PaneIsWithin(seg, input, MAX_ROWS, MAX_UTF8_BYTES - |input.rootName| - |input.paneName|, MAX_GRAPHEMES);
    PanePlacesFit(seg, input, rows);
    PaneName(input, rows);
  }

  lemma LimitsUnfold(t: Totals)
    ensures t.WithinLimits() <==> t.rows <= MAX_ROWS && t.graphemes <= MAX_GRAPHEMES && t.utf8Bytes <= MAX_UTF8_BYTES
  {
  }

  lemma DraftIsMarked(input: TerminalInput, pane: ProjectedNode)
    ensures TerminalDraft(input, pane).truncated == pane.truncated
  {
  }

  /** The later endpoint lies beyond the kept rows and the earlier one in the last of them or beyond too, at a column
      that a whole cluster separates from that of the later one. */
  ghost predicate CutBehind(input: TerminalInput, rows: seq<TerminalRow>)
    requires input.selection.Some? && rows != []
  {
    var normal := NormalizeSelection(input.selection.value);
    var start, end := ClampPoint(normal.start, input.cols, |rows|), ClampPoint(normal.end, input.cols, |rows|);
    && normal.end.row >= |rows| && normal.start.row >= |rows| - 1
    && ClusterBetween(rows[|rows| - 1], end.col, start.col)
  }

  lemma NothingBetween(row: TerminalRow, low: int, high: int)
    requires InColumnOrder(row) && high <= low
    ensures !ClusterBetween(row, low, high)
  {
  }

  lemma ReversedInside(input: TerminalInput, rows: seq<TerminalRow>)
    requires RowsFollow(rows) && rows != [] && input.cols > 0 && input.selection.Some?
    requires input.selection.value.start.row >= 0 && input.selection.value.end.row >= 0
    ensures SelectionReversed(input, rows) <==> CutBehind(input, rows)
  {
    hide ClusterBetween, InColumnOrder;
    var normal := NormalizeSelection(input.selection.value);
    var start, end := ClampPoint(normal.start, input.cols, |rows|), ClampPoint(normal.end, input.cols, |rows|);
    if start.row == end.row && normal.end.row < |rows| {
      NothingBetween(rows[start.row], end.col, start.col);
    }
  }

  /** A selection whose endpoints are rows of the terminal is refused exactly when the projection cut the row of the
      later endpoint off and left the earlier one in the last kept row, or cut it off too, with a whole cluster between
      their columns. A terminal that is not cut never refuses one. */
  lemma SelectionOfRows(seg: Segmenter, input: TerminalInput, last: uint64) returns (rows: seq<TerminalRow>)
    requires ProjectPane(seg, input).Ok? && input.selection.Some?
    requires input.generation != MAX_UINT64 && input.paneID.activation != 0
    requires 0 <= input.selection.value.start.row < input.rows && 0 <= input.selection.value.end.row < input.rows
    ensures ProjectPane(seg, input).value.node == PaneOf(input, rows)
    ensures RowsOfPane(input, rows, ProjectPane(seg, input).value.truncated)
    ensures TerminalResult(seg, input, last) == Err(InvalidRange) <==> CutBehind(input, rows)
    ensures !ProjectPane(seg, input).value.truncated ==> !CutBehind(input, rows)
  {
    rows := TerminalResultKnown(seg, input, last);
    PaneProjects(seg, input);
    assert input.Valid();
    ValidCols(input);
    hide ProjectPane, Projects, PaneOf, SelectionReversed, TerminalResult, RowsFollow, RowsSound, TerminalInput.Valid,
         ClusterBetween;
    ReversedInside(input, rows);
  }
}
