/** Where the graphemes of a projected pane are shown: over the cells their text comes from, in the places the column
    order gives these, on a grid of equal cells, cut to the clip. */
module CellGeometry {
  import opened Types
  import opened Utf8
  import opened Graphemes
  import opened TerminalSpec
  import opened TerminalProjection
  import opened CellMeaning
  import opened CellProperties
  import opened TerminalProperties
  import opened TerminalDocument
  import opened TerminalLimits
  import opened PaneMeaning

  /** The text of the cell shares bytes with those of the row from `low` up to `high`. */
  predicate SharesText(cells: seq<TerminalCell>, low: int, high: int, c: nat)
    requires c < |cells|
  {
    Writes(cells[c]) && |Written(cells, c)| < high && low < |Written(cells, c)| + |cells[c].text|
  }

  /** The smallest stretch of columns with all the columns of the cells that share these bytes. */
  ghost predicate SpansCells(cells: seq<TerminalCell>, low: int, high: int, startCell: int, endCell: int) {
    && (forall c :: 0 <= c < |cells| && SharesText(cells, low, high, c) ==>
          startCell <= c && c + CellColumns(cells[c]) <= endCell)
    && (exists c :: 0 <= c < |cells| && SharesText(cells, low, high, c) && c == startCell)
    && (exists c :: 0 <= c < |cells| && SharesText(cells, low, high, c) && c + CellColumns(cells[c]) == endCell)
  }

  lemma ChunkSharesText(cells: seq<TerminalCell>, text: Text, chunk: TerminalChunk, low: int, high: int)
    requires ChunkHoldsText(chunk, text, cells)
    ensures Overlaps(chunk, low, high) <==> SharesText(cells, low, high, chunk.startCell)
  {
    hide Written;
    assert |text[chunk.startByte..chunk.endByte]| == |cells[chunk.startCell].text|;
  }

  /** The columns of the chunks that overlap are those of the cells that share the text. */
  lemma ChunksSpanCells(cells: seq<TerminalCell>, c: Collected, m: nat, low: int, high: int, startCell: int,
                        endCell: int)
    requires m <= |cells| && ChunksHoldText(c, cells) && WrittenAreHeld(c, cells, m) && c.text == Written(cells, m)
    requires high <= |c.text| && CoversItsChunks(c.chunks, low, high, startCell, endCell)
    ensures SpansCells(cells, low, high, startCell, endCell)
  {
    hide Written, Overlaps, SharesText;
    forall k | 0 <= k < |c.chunks|
      ensures Overlaps(c.chunks[k], low, high) <==> SharesText(cells, low, high, c.chunks[k].startCell)
    {
      ChunkSharesText(cells, c.text, c.chunks[k], low, high);
    }
    forall column | 0 <= column < |cells| && SharesText(cells, low, high, column)
      ensures startCell <= column && column + CellColumns(cells[column]) <= endCell
    {
      SharedIsHeld(cells, c, m, low, high, column);
      var k :| 0 <= k < |c.chunks| && c.chunks[k].startCell == column;
      assert ChunkHoldsText(c.chunks[k], c.text, cells);
    }
  }

  lemma SharedIsHeld(cells: seq<TerminalCell>, c: Collected, m: nat, low: int, high: int, column: nat)
    requires m <= |cells| && WrittenAreHeld(c, cells, m) && c.text == Written(cells, m) && high <= |c.text|
    requires column < |cells| && SharesText(cells, low, high, column)
    ensures HasChunk(c.chunks, column)
  {
    hide Written;
    if m <= column {
      WrittenGrows(cells, m, column);
    }
  }

  /** Cells of equal size side by side and row below row, from the origin on. */
  ghost predicate IsGrid(input: TerminalInput, grid: (nat, nat) -> Rect) {
    && grid(0, 0).x == input.originX && grid(0, 0).y == input.originY
    && (forall r: nat, v: nat {:trigger grid(r, v)} ::
          grid(r, v).width == input.cellWidth && grid(r, v).height == input.cellHeight)
    && (forall r: nat, v: nat {:trigger grid(r, v + 1)} ::
          grid(r, v + 1).x == grid(r, v).x + grid(r, v).width && grid(r, v + 1).y == grid(r, v).y)
    && (forall r: nat, v: nat {:trigger grid(r + 1, v)} ::
          grid(r + 1, v).y == grid(r, v).y + grid(r, v).height && grid(r + 1, v).x == grid(r, v).x)
  }

  /** There is one such grid, and the rectangles the projection computes are its cells. */
  lemma {:induction false} GridIsComputed(input: TerminalInput, grid: (nat, nat) -> Rect, r: nat, v: nat)
    requires IsGrid(input, grid)
    ensures CellRect(input, r, v) == grid(r, v)
    decreases r + v
  {
    hide CellRect, IsGrid;
    if r > 0 {
      GridIsComputed(input, grid, r - 1, v);
      GridBelow(input, grid, r - 1, v);
    } else if v > 0 {
      GridIsComputed(input, grid, r, v - 1);
      GridRight(input, grid, r, v - 1);
    } else {
      GridOrigin(input, grid);
    }
  }

  function Times(n: int, size: real): real {
    n as real * size
  }

  lemma TimesNext(n: int, size: real)
    ensures Times(0, size) == 0.0 && Times(n + 1, size) == Times(n, size) + size
  {
  }

  lemma CellParts(input: TerminalInput, r: int, v: int)
    ensures CellRect(input, r, v)
         == Rect(input.originX + Times(v, input.cellWidth), input.originY + Times(r, input.cellHeight),
                 input.cellWidth, input.cellHeight)
  {
  }

  lemma GridOrigin(input: TerminalInput, grid: (nat, nat) -> Rect)
    requires IsGrid(input, grid)
    ensures CellRect(input, 0, 0) == grid(0, 0)
  {
    hide Times, CellRect;
    CellParts(input, 0, 0);
    TimesNext(0, input.cellWidth);
    TimesNext(0, input.cellHeight);
    var cell := grid(0, 0);
    assert cell.width == input.cellWidth && cell.height == input.cellHeight;
  }

  lemma GridRight(input: TerminalInput, grid: (nat, nat) -> Rect, r: nat, v: nat)
    requires IsGrid(input, grid) && CellRect(input, r, v) == grid(r, v)
    ensures CellRect(input, r, v + 1) == grid(r, v + 1)
  {
    hide Times, CellRect;
    CellParts(input, r, v);
    CellParts(input, r, v + 1);
    TimesNext(v, input.cellWidth);
    var cell, next := grid(r, v), grid(r, v + 1);
    assert next.x == cell.x + cell.width && next.y == cell.y;
    assert next.width == cell.width == input.cellWidth && next.height == cell.height == input.cellHeight;
  }

  lemma GridBelow(input: TerminalInput, grid: (nat, nat) -> Rect, r: nat, v: nat)
    requires IsGrid(input, grid) && CellRect(input, r, v) == grid(r, v)
    ensures CellRect(input, r + 1, v) == grid(r + 1, v)
  {
    hide Times, CellRect;
    CellParts(input, r, v);
    CellParts(input, r + 1, v);
    TimesNext(r, input.cellHeight);
    var cell, next := grid(r, v), grid(r + 1, v);
    assert next.y == cell.y + cell.height && next.x == cell.x;
    assert next.width == cell.width == input.cellWidth && next.height == cell.height == input.cellHeight;
  }

  lemma ComputedIsGrid(input: TerminalInput)
    ensures IsGrid(input, (r: nat, v: nat) => CellRect(input, r, v))
  {
    hide Times, CellRect;
    CellParts(input, 0, 0);
    TimesNext(0, input.cellWidth);
    TimesNext(0, input.cellHeight);
    forall r: nat, v: nat
      ensures CellRect(input, r, v).width == input.cellWidth && CellRect(input, r, v).height == input.cellHeight
      ensures CellRect(input, r, v + 1).x == CellRect(input, r, v).x + input.cellWidth
      ensures CellRect(input, r, v + 1).y == CellRect(input, r, v).y
      ensures CellRect(input, r + 1, v).y == CellRect(input, r, v).y + input.cellHeight
      ensures CellRect(input, r + 1, v).x == CellRect(input, r, v).x
    {
      CellParts(input, r, v);
      CellParts(input, r, v + 1);
      CellParts(input, r + 1, v);
      TimesNext(v, input.cellWidth);
      TimesNext(r, input.cellHeight);
    }
  }

  /** What is left of a rectangle inside the clip is the largest rectangle inside both; nothing is left of it when no
      rectangle with an area is inside both. */
  lemma CutIsGreatest(rect: Rect, clip: Rect, box: Rect)
    requires box.width > 0.0 && box.height > 0.0 && Inside(box, rect) && Inside(box, clip)
    ensures var cut := Intersect(rect, clip);
            && cut.Some? && cut.value.width > 0.0 && cut.value.height > 0.0
            && Inside(cut.value, rect) && Inside(cut.value, clip) && Inside(box, cut.value)
  {
  }

  lemma CutHasArea(rect: Rect, clip: Rect)
    requires Intersect(rect, clip).Some?
    ensures var cut := Intersect(rect, clip).value;
            cut.width > 0.0 && cut.height > 0.0 && Inside(cut, rect) && Inside(cut, clip)
  {
  }

  /** The visual column `v` of the row shows the logical column `l`. */
  predicate StandsAt(input: TerminalInput, r: nat, l: int, v: int)
    requires input.Valid() && r < input.rows
  {
    && 0 <= v < input.cols
    && if input.visualToLogical == [] || input.visualToLogical[r].None? then v == l
       else v < |input.visualToLogical[r].value| && input.visualToLogical[r].value[v] == l
  }

  /** Where each logical column of the row is shown. */
  ghost predicate Places(input: TerminalInput, r: nat, places: seq<nat>)
    requires input.Valid() && r < input.rows
  {
    |places| == input.cols && forall l :: 0 <= l < input.cols ==> StandsAt(input, r, l, places[l])
  }

  /** Every column of a row that projects has one place: that of the inverse the projection computes. */
  lemma PlacesAreInverse(input: TerminalInput, r: nat, inverse: seq<int>, places: seq<nat>)
    requires input.Valid() && r < input.rows && LogicalToVisual(input.Order(r), input.cols) == Some(inverse)
    ensures |inverse| == input.cols && forall l :: 0 <= l < input.cols ==> 0 <= inverse[l]
    ensures Places(input, r, inverse)
    ensures Places(input, r, places) ==> places == inverse
  {
    hide PositionOf, ValidUtf8, InRangeOnce;
    if input.Order(r).Some? {
      InverseIsTwoSided(input.Order(r).value, input.cols);
      AcceptsPermutations(input.Order(r).value, input.cols);
    }
  }

  /** Part of the cell that shows column `l` is inside the clip. */
  predicate IsSeen(input: TerminalInput, grid: (nat, nat) -> Rect, r: nat, places: seq<nat>, l: int) {
    0 <= l < |places| && Intersect(grid(r, places[l]), input.clip).Some?
  }

  function Part(input: TerminalInput, grid: (nat, nat) -> Rect, r: nat, places: seq<nat>, l: int): Rect
    requires IsSeen(input, grid, r, places, l)
  {
    Intersect(grid(r, places[l]), input.clip).value
  }

  /** The bounds are the smallest rectangle around the visible parts of the cells of the stretch; without a visible part
      they are empty, at the corner of the clip. */
  ghost predicate AroundCells(input: TerminalInput, grid: (nat, nat) -> Rect, r: nat, places: seq<nat>, startCell: int,
                              endCell: int, bounds: Rect, box: Rect)
  {
    if exists l :: startCell <= l < endCell && IsSeen(input, grid, r, places, l) then
      && Inside(bounds, input.clip)
      && (forall l :: startCell <= l < endCell && IsSeen(input, grid, r, places, l) ==>
            Inside(Part(input, grid, r, places, l), bounds))
      && ((forall l :: startCell <= l < endCell && IsSeen(input, grid, r, places, l) ==>
             Inside(Part(input, grid, r, places, l), box)) ==> Inside(bounds, box))
    else bounds == Rect(input.clip.x, input.clip.y, 0.0, 0.0)
  }

  lemma SeenIsVisible(input: TerminalInput, grid: (nat, nat) -> Rect, r: nat, inverse: seq<nat>, l: int)
    requires IsGrid(input, grid) && 0 <= l < |inverse|
    ensures IsSeen(input, grid, r, inverse, l) <==> VisibleCell(input, r, l, inverse).Some?
    ensures IsSeen(input, grid, r, inverse, l) ==>
              VisibleCell(input, r, l, inverse) == Some(Part(input, grid, r, inverse, l))
  {
    GridIsComputed(input, grid, r, inverse[l]);
  }

  lemma BoundsAround(input: TerminalInput, grid: (nat, nat) -> Rect, r: nat, inverse: seq<nat>, startCell: int,
                     endCell: int, box: Rect)
    requires IsGrid(input, grid) && 0 <= startCell < endCell <= |inverse|
    ensures AroundCells(input, grid, r, inverse, startCell, endCell,
                        ClusterBounds(input, r, startCell, endCell, inverse), box)
  {
    VisibleUnionIsHull(input, r, startCell, endCell, inverse, box);
    forall l | startCell <= l < endCell
      ensures IsSeen(input, grid, r, inverse, l) <==> VisibleCell(input, r, l, inverse).Some?
      ensures IsSeen(input, grid, r, inverse, l) ==>
                VisibleCell(input, r, l, inverse) == Some(Part(input, grid, r, inverse, l))
    {
      SeenIsVisible(input, grid, r, inverse, l);
    }
    hide VisibleUnion, IsGrid, Inside, VisibleCell, IsSeen, Part;
  }

  lemma ClusterOfRow(seg: Segmenter, input: TerminalInput, r: nat, collected: Collected, inverse: seq<int>,
                     graphemeBudget: nat, i: nat)
    requires input.Valid() && r < input.rows
    requires i < |RowOf(seg, input, r, collected, inverse, graphemeBudget).row.clusters|
    ensures var cluster := RowOf(seg, input, r, collected, inverse, graphemeBudget).row.clusters[i];
            0 <= cluster.startCell ==>
              cluster.bounds == ClusterBounds(input, r, cluster.startCell, cluster.endCell, inverse)
  {
    hide TerminalInput.Valid, ClusterBounds, MinStart, MaxEnd, Concat;
  }

  /** The clusters of a projected row: each spans the cells that share its text. */
  lemma RowSpans(seg: Segmenter, input: TerminalInput, r: nat, byteBudget: int, graphemeBudget: nat, i: nat)
    requires input.Valid() && r < input.rows && byteBudget >= 0
    requires ProjectRow(seg, input, r, byteBudget, graphemeBudget).Ok?
    requires i < |ProjectRow(seg, input, r, byteBudget, graphemeBudget).value.row.clusters|
    ensures var row := ProjectRow(seg, input, r, byteBudget, graphemeBudget).value.row;
            var cluster, pieces := row.clusters[i], seg(row.text);
            && |pieces| == |row.clusters| && 0 <= cluster.startCell < cluster.endCell <= input.cols
            && SpansCells(GridRow(input, r), |Concat(pieces[..i])|, |Concat(pieces[..i + 1])|, cluster.startCell,
                          cluster.endCell)
  {
    ProjectedRowIsSound(seg, input, r, byteBudget, graphemeBudget);
    RowIsGridRow(input, r);
    var cells := input.Row(r);
    var row := ProjectRow(seg, input, r, byteBudget, graphemeBudget).value.row;
    var collected := Collect(cells, ContentEnd(cells), byteBudget);
    var inverse := LogicalToVisual(input.Order(r), input.cols).value;
    assert row == RowOf(seg, input, r, collected, inverse, graphemeBudget).row;
    assert ClustersInRow(row, input.cols) && ClustersCoverChunks(seg, row, collected);
    hide ProjectRow, TerminalInput.Valid, TerminalInput.Row, Collect, ContentEnd, ClustersInRow, GridRow,
         CoversItsChunks, SpansCells, ValidUtf8, Written, RowOf, LogicalToVisual, RowAcceptable;
    var m := CollectHoldsCells(cells, ContentEnd(cells), byteBudget);
    SamePieces(seg, input, r, collected, inverse, graphemeBudget, i);
    PieceOffset(seg, collected.text, i);
    ChunksSpanCells(cells, collected, m, |Concat(seg(collected.text)[..i])|, |Concat(seg(collected.text)[..i + 1])|,
                    row.clusters[i].startCell, row.clusters[i].endCell);
  }

  /** The graphemes of a row that was cut are the first ones of the whole. */
  lemma SamePieces(seg: Segmenter, input: TerminalInput, r: nat, collected: Collected, inverse: seq<int>,
                   graphemeBudget: nat, i: nat)
    requires input.Valid() && r < input.rows
    requires i < |RowOf(seg, input, r, collected, inverse, graphemeBudget).row.clusters|
    ensures var row := RowOf(seg, input, r, collected, inverse, graphemeBudget).row;
            && |seg(row.text)| == |row.clusters| <= |seg(collected.text)|
            && seg(row.text)[..i] == seg(collected.text)[..i] && seg(row.text)[..i + 1] == seg(collected.text)[..i + 1]
  {
    hide TerminalInput.Valid, ClusterAt, Concat;
    SegmentLaws(seg, collected.text);
    var pieces := seg(collected.text);
    var k := Min(|pieces|, graphemeBudget);
    assert seg(Concat(pieces[..k])) == pieces[..k];
    assert pieces[..k][..i] == pieces[..i] && pieces[..k][..i + 1] == pieces[..i + 1];
  }

  /** The grapheme `i` of row `r` of a projected pane is shown around the cells its text comes from: its rectangle is
      the smallest one around what the clip leaves of the cells in the places of their columns. */
  lemma GraphemeIsAroundItsCells(seg: Segmenter, input: TerminalInput, rowBudget: int, byteBudget: int,
                                 graphemeBudget: int, r: nat, i: nat, grid: (nat, nat) -> Rect, places: seq<nat>,
                                 box: Rect)
    returns (startCell: int, endCell: int)
    requires ProjectNode(seg, input, rowBudget, byteBudget, graphemeBudget).Ok? && input.Valid()
    requires var rows := ProjectNode(seg, input, rowBudget, byteBudget, graphemeBudget).value.node.rows;
             r < |rows| <= input.rows && i < |rows[r].bounds|
    requires IsGrid(input, grid) && Places(input, r, places)
    ensures var row := ProjectNode(seg, input, rowBudget, byteBudget, graphemeBudget).value.node.rows[r];
            && |row.bounds| == |seg(row.text)| && 0 <= startCell < endCell <= input.cols
            && SpansCells(GridRow(input, r), |Concat(seg(row.text)[..i])|, |Concat(seg(row.text)[..i + 1])|, startCell,
                          endCell)
            && AroundCells(input, grid, r, places, startCell, endCell, row.bounds[i], box)
  {
    ValidParts(input);
    var limit := Min(input.rows, rowBudget);
    var projected := ProjectRows(seg, input, limit, byteBudget, graphemeBudget);
    PaneRowsOf(input, WithOffsets(projected.rows));
    hide *;
    PlacedDraft(input, projected.rows, r);
    var bytes, graphemes := RowComesFrom(seg, input, limit, byteBudget, graphemeBudget, r);
    startCell, endCell := RowGeometry(seg, input, r, bytes, graphemes, i, grid, places, box);
  }

  /** The same of a projected row. */
  lemma RowGeometry(seg: Segmenter, input: TerminalInput, r: nat, byteBudget: int, graphemeBudget: nat, i: nat,
                    grid: (nat, nat) -> Rect, places: seq<nat>, box: Rect)
    returns (startCell: int, endCell: int)
    requires input.Valid() && r < input.rows && byteBudget >= 0
    requires ProjectRow(seg, input, r, byteBudget, graphemeBudget).Ok?
    requires i < |ProjectRow(seg, input, r, byteBudget, graphemeBudget).value.row.clusters|
    requires IsGrid(input, grid) && Places(input, r, places)
    ensures var row := ProjectRow(seg, input, r, byteBudget, graphemeBudget).value.row;
            && |row.clusters| == |seg(row.text)| && 0 <= startCell < endCell <= input.cols
            && SpansCells(GridRow(input, r), |Concat(seg(row.text)[..i])|, |Concat(seg(row.text)[..i + 1])|, startCell,
                          endCell)
            && AroundCells(input, grid, r, places, startCell, endCell, row.clusters[i].bounds, box)
  {
    var inverse := LogicalToVisual(input.Order(r), input.cols).value;
    var cells := input.Row(r);
    var collected := Collect(cells, ContentEnd(cells), byteBudget);
    assert ProjectRow(seg, input, r, byteBudget, graphemeBudget).value
        == RowOf(seg, input, r, collected, inverse, graphemeBudget);
    hide *;
    RowSpans(seg, input, r, byteBudget, graphemeBudget, i);
    var cluster := ProjectRow(seg, input, r, byteBudget, graphemeBudget).value.row.clusters[i];
    startCell, endCell := cluster.startCell, cluster.endCell;
    PlacesAreInverse(input, r, inverse, places);
    ClusterOfRow(seg, input, r, collected, inverse, graphemeBudget, i);
    BoundsAround(input, grid, r, places, startCell, endCell, box);
  }
}
