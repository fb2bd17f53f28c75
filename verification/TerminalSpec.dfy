/** The projection of a terminal cell grid into grapheme rows with cell bounds. */
module TerminalSpec {
  import opened Types
  import opened Utf8
  import opened Graphemes
  import DocumentSpec

  const MAX_TERMINAL_PROJECTION_CELLS: nat := 262_144
  const SPACE: Text := [0x20]

  datatype CellPoint = CellPoint(row: int, col: int)

  datatype TerminalCell = TerminalCell(text: Text, blank: bool, wideContinuation: bool, trimBarrier: bool, span: int) {
    /** A span of 0 stands for one column. */
    function Width(): int {
      if span == 0 then 1 else span
    }

    predicate Blank() {
      !trimBarrier && (wideContinuation || text == [] || blank)
    }
  }

  datatype TerminalSelection = TerminalSelection(start: CellPoint, end: CellPoint)

  /** One pane of a terminal. A row of `visualToLogical` maps visual to logical columns; None is the identity. */
  datatype TerminalInput = TerminalInput(
    providerID: uint64,
    generation: uint64,
    rootID: NodeID,
    paneID: NodeID,
    rootName: Text,
    paneName: Text,
    cols: int,
    rows: int,
    cells: seq<TerminalCell>,
    wrapped: seq<bool>,
    truncated: bool,
    visualToLogical: seq<Option<seq<int>>>,
    cursorVisible: bool,
    cursor: CellPoint,
    selection: Option<TerminalSelection>,
    originX: real,
    originY: real,
    cellWidth: real,
    cellHeight: real,
    clip: Rect,
    displayOffset: int)
  {
    predicate Valid() {
      && providerID != 0 && generation != 0 && rootID.Valid() && paneID.Valid()
      && rootID.kind == KindWindow && paneID.kind == KindPane && rootID.projection == paneID.projection
      && 0 < cols <= MAX_GRAPHEMES && 0 < rows <= MAX_TERMINAL_PROJECTION_CELLS / cols
      && |cells| == cols * rows && |wrapped| == rows
      && (visualToLogical == [] || |visualToLogical| == rows)
      && cellWidth > 0.0 && cellHeight > 0.0 && clip.Valid() && displayOffset >= 0
      && ValidUtf8(rootName) && ValidUtf8(paneName)
      && |rootName| <= MAX_NODE_NAME_BYTES && |paneName| <= MAX_NODE_NAME_BYTES
      && |rootName| + |paneName| <= MAX_UTF8_BYTES
    }

    function Row(row: nat): (cells: seq<TerminalCell>)
      requires Valid() && row < rows
      ensures |cells| == cols
    {
      RowFits(row, rows, cols);
      cells[row * cols..(row + 1) * cols]
    }

    function Order(row: nat): Option<seq<int>>
      requires Valid() && row < rows
    {
      if visualToLogical == [] then None else visualToLogical[row]
    }
  }

  lemma RowFits(row: nat, rows: int, cols: int)
    requires row < rows && cols > 0
    ensures 0 <= row * cols <= (row + 1) * cols <= cols * rows && (row + 1) * cols - row * cols == cols
  {
    assert (rows - row - 1) * cols >= 0;
    assert cols * rows == (row + 1) * cols + (rows - row - 1) * cols;
  }

  datatype TerminalCluster = TerminalCluster(text: Text, startCell: int, endCell: int, bounds: Rect)

  datatype TerminalRow = TerminalRow(text: Text, clusters: seq<TerminalCluster>, start: nat, end: nat,
                                     softWrapped: bool)

  datatype TerminalChunk = TerminalChunk(startByte: nat, endByte: nat, startCell: int, endCell: int)

  /** What any cell must satisfy at its column. */
  predicate CellFits(cells: seq<TerminalCell>, column: nat)
    requires column < |cells|
  {
    var cell := cells[column];
    && ValidUtf8(cell.text) && !HasLineBreak(cell.text)
    && 0 <= cell.span <= |cells| - column
    && (cell.trimBarrier ==> cell.text == [] && cell.span == 0 && !cell.blank)
  }

  /** The cell is one of the columns an earlier wide cell takes. */
  ghost predicate Covered(cells: seq<TerminalCell>, column: nat)
    requires column < |cells|
  {
    exists lead :: 0 <= lead < column && !cells[lead].wideContinuation && column < lead + cells[lead].Width()
  }

  /** The cell is an empty continuation of an earlier wide cell, or leads the columns it spans. */
  ghost predicate CellPlaced(cells: seq<TerminalCell>, column: nat)
    requires column < |cells|
  {
    var cell := cells[column];
    if cell.wideContinuation then cell.text == [] && cell.span == 0 && Covered(cells, column)
    else
      && (cell.blank ==> cell.text == [] || cell.text == SPACE)
      && forall k :: column < k < column + cell.Width() && k < |cells| ==> cells[k].wideContinuation
  }

  ghost predicate ValidCells(cells: seq<TerminalCell>) {
    forall column :: 0 <= column < |cells| ==> CellFits(cells, column) && CellPlaced(cells, column)
  }

  /** The number of columns up to the last that is not blank. */
  function ContentEnd(cells: seq<TerminalCell>): (n: nat)
    ensures n <= |cells|
  {
    if cells != [] && cells[|cells| - 1].Blank() then ContentEnd(cells[..|cells| - 1]) else |cells|
  }

  /** The text of a row with the stretch of it that each written cell holds. */
  datatype Collected = Collected(text: Text, chunks: seq<TerminalChunk>, truncated: bool)

  /** The first `n` columns, until a cell does not fit the byte budget. */
  function Collect(cells: seq<TerminalCell>, n: nat, byteBudget: int): Collected
    requires n <= |cells|
  {
    if n == 0 then Collected([], [], false)
    else
      var before, cell, column := Collect(cells, n - 1, byteBudget), cells[n - 1], n - 1;
      if before.truncated || cell.wideContinuation || cell.text == [] then before
      else if |cell.text| > byteBudget - |before.text| then before.(truncated := true)
      else
        Collected(before.text + cell.text,
                  before.chunks
                  + [TerminalChunk(|before.text|, |before.text| + |cell.text|, column, column + cell.Width())],
                  false)
  }

  predicate Overlaps(chunk: TerminalChunk, low: int, high: int) {
    chunk.startByte < high && low < chunk.endByte
  }

  /** The first column of the chunks that overlap the bytes from `low` to `high`, or `cols` if none does. */
  function MinStart(chunks: seq<TerminalChunk>, low: int, high: int, cols: int): int {
    if chunks == [] then cols
    else
      var m, last := MinStart(chunks[..|chunks| - 1], low, high, cols), chunks[|chunks| - 1];
      if Overlaps(last, low, high) then Min(m, last.startCell) else m
  }

  /** The column after the last of those chunks, or 0 if none overlaps. */
  function MaxEnd(chunks: seq<TerminalChunk>, low: int, high: int): int {
    if chunks == [] then 0
    else
      var m, last := MaxEnd(chunks[..|chunks| - 1], low, high), chunks[|chunks| - 1];
      if Overlaps(last, low, high) then Max(m, last.endCell) else m
  }

  function CellRect(input: TerminalInput, row: int, visual: int): Rect {
    Rect(input.originX + visual as real * input.cellWidth, input.originY + row as real * input.cellHeight,
         input.cellWidth, input.cellHeight)
  }

  function MinReal(a: real, b: real): real {
    if a < b then a else b
  }

  function MaxReal(a: real, b: real): real {
    if a > b then a else b
  }

  /** The part of a rectangle inside the clip, if they share an area. */
  function Intersect(rect: Rect, clip: Rect): Option<Rect> {
    var left, top := MaxReal(rect.x, clip.x), MaxReal(rect.y, clip.y);
    var right := MinReal(rect.x + rect.width, clip.x + clip.width);
    var bottom := MinReal(rect.y + rect.height, clip.y + clip.height);
    if right <= left || bottom <= top then None else Some(Rect(left, top, right - left, bottom - top))
  }

  function Union(a: Rect, b: Rect): Rect {
    var x, y := MinReal(a.x, b.x), MinReal(a.y, b.y);
    var farX := MaxReal(a.x + a.width, b.x + b.width);
    var farY := MaxReal(a.y + a.height, b.y + b.height);
    Rect(x, y, farX - x, farY - y)
  }

  /** The union of the visible parts of the cells from `startCell` up to `endCell`, if any part is visible. */
  function VisibleUnion(input: TerminalInput, row: int, startCell: int, endCell: int, inverse: seq<int>): Option<Rect>
    requires 0 <= startCell
    decreases endCell - startCell
  {
    if endCell <= startCell || endCell > |inverse| then None
    else
      var before := VisibleUnion(input, row, startCell, endCell - 1, inverse);
      match (before, Intersect(CellRect(input, row, inverse[endCell - 1]), input.clip))
      case (_, None) => before
      case (None, some) => some
      case (Some(a), Some(b)) => Some(Union(a, b))
  }

  function ClusterBounds(input: TerminalInput, row: int, startCell: int, endCell: int, inverse: seq<int>): Rect
    requires 0 <= startCell
  {
    match VisibleUnion(input, row, startCell, Min(endCell, |inverse|), inverse)
    case Some(rect) => rect
    case None => Rect(input.clip.x, input.clip.y, 0.0, 0.0)
  }

  predicate InRangeOnce(order: seq<int>, n: nat, cols: int)
    requires n <= |order|
  {
    && (forall i :: 0 <= i < n ==> 0 <= order[i] < cols)
    && (forall i, j :: 0 <= i < j < n ==> order[i] != order[j])
  }

  /** Where a value first occurs, or 0 if it does not. */
  function PositionOf(order: seq<int>, value: int): nat {
    if order == [] then 0
    else if value in order[..|order| - 1] then PositionOf(order[..|order| - 1], value)
    else if order[|order| - 1] == value then |order| - 1
    else 0
  }

  /** The visual column of each logical one, unless the order is not a list of distinct columns of the row. */
  function LogicalToVisual(order: Option<seq<int>>, cols: nat): Option<seq<int>> {
    match order
    case None => Some(seq(cols, i => i))
    case Some(o) =>
      if |o| != cols || !InRangeOnce(o, |o|, cols) then None else Some(seq(cols, logical => PositionOf(o, logical)))
  }

  function ClusterAt(input: TerminalInput, row: int, chunks: seq<TerminalChunk>, inverse: seq<int>, pieces: seq<Text>,
                     i: nat)
    : TerminalCluster
    requires i < |pieces|
  {
    var low, high := |Concat(pieces[..i])|, |Concat(pieces[..i + 1])|;
    var startCell, endCell := MinStart(chunks, low, high, input.cols), MaxEnd(chunks, low, high);
    TerminalCluster(pieces[i], startCell, endCell, ClusterBounds(input, row, Max(startCell, 0), endCell, inverse))
  }

  datatype ProjectedRow = ProjectedRow(row: TerminalRow, truncated: bool)

  /** The row made of the clusters of a row's text that fit the grapheme budget. */
  function RowOf(seg: Segmenter, input: TerminalInput, rowIndex: nat, collected: Collected, inverse: seq<int>,
                 graphemeBudget: nat): (projected: ProjectedRow)
    requires input.Valid() && rowIndex < input.rows
    ensures |projected.row.clusters| <= graphemeBudget
  {
    var pieces := seg(collected.text);
    var k := Min(|pieces|, graphemeBudget);
    ProjectedRow(
      TerminalRow(Concat(pieces[..k]),
                  seq(k, i requires 0 <= i < k => ClusterAt(input, rowIndex, collected.chunks, inverse, pieces, i)),
                  0, 0, input.wrapped[rowIndex]),
      collected.truncated || k < |pieces|)
  }

  ghost function ProjectRow(seg: Segmenter, input: TerminalInput, rowIndex: nat, byteBudget: int, graphemeBudget: nat)
    : (result: Result<ProjectedRow>)
    requires input.Valid() && rowIndex < input.rows
    ensures result.Ok? ==> |result.value.row.clusters| <= graphemeBudget
  {
    var cells, inverse := input.Row(rowIndex), LogicalToVisual(input.Order(rowIndex), input.cols);
    if !ValidCells(cells) || inverse.None? then Err(InvalidProjection)
    else Ok(RowOf(seg, input, rowIndex, Collect(cells, ContentEnd(cells), byteBudget), inverse.value, graphemeBudget))
  }

  /** The rows projected so far with what is left of the budgets; `Cut` when a row ended the projection. */
  datatype Rows = Going(rows: seq<TerminalRow>, bytes: int, graphemes: nat)
                | Cut(rows: seq<TerminalRow>)
                | Bad(error: Error)

  ghost function ProjectRows(seg: Segmenter, input: TerminalInput, n: nat, byteBudget: int,
                             graphemeBudget: nat): (r: Rows)
    requires input.Valid() && n <= input.rows
    ensures r.Going? ==> |r.rows| == n
  {
    if n == 0 then Going([], byteBudget, graphemeBudget)
    else
      match ProjectRows(seg, input, n - 1, byteBudget, graphemeBudget)
      case Going(rows, bytes, graphemes) =>
        (match ProjectRow(seg, input, n - 1, bytes, graphemes)
         case Err(e) => Bad(e)
         case Ok(projected) =>
           if projected.truncated then Cut(rows + [projected.row])
           else Going(rows + [projected.row], bytes - |projected.row.text|, graphemes - |projected.row.clusters|))
      case other => other
  }

  /** The grapheme offset at which row `i` starts, counting one separator after every hard row. */
  function OffsetOf(rows: seq<TerminalRow>, i: nat): nat
    requires i <= |rows|
  {
    if i == 0 then 0
    else OffsetOf(rows, i - 1) + |rows[i - 1].clusters| + if rows[i - 1].softWrapped then 0 else 1
  }

  function WithOffsets(rows: seq<TerminalRow>): (r: seq<TerminalRow>)
    ensures |r| == |rows|
  {
    seq(|rows|, i requires 0 <= i < |rows| =>
      rows[i].(start := OffsetOf(rows, i), end := OffsetOf(rows, i) + |rows[i].clusters|))
  }

  /** The grapheme boundary of a column: of the first cluster that ends beyond it, before or after that cluster if
      it holds the column, else before it. */
  function BoundaryFrom(row: TerminalRow, column: int, after: bool, from: nat): int
    requires from <= |row.clusters|
    decreases |row.clusters| - from
  {
    if from == |row.clusters| then row.end
    else
      var cluster := row.clusters[from];
      if column < cluster.startCell then row.start + from
      else if column < cluster.endCell then row.start + from + (if after then 1 else 0)
      else BoundaryFrom(row, column, after, from + 1)
  }

  function CellBoundary(row: TerminalRow, column: int, after: bool): int {
    BoundaryFrom(row, Max(column, 0), after, 0)
  }

  function NormalizeSelection(selection: TerminalSelection): TerminalSelection {
    if selection.end.row < selection.start.row
       || (selection.end.row == selection.start.row && selection.end.col < selection.start.col)
    then TerminalSelection(selection.end, selection.start) else selection
  }

  function ClampPoint(point: CellPoint, columns: int, rows: int): CellPoint {
    CellPoint(if point.row < 0 then 0 else if point.row >= rows then rows - 1 else point.row,
              if point.col < 0 then 0 else if point.col >= columns then columns - 1 else point.col)
  }

  function DraftOfRow(row: TerminalRow): RowDraft {
    RowDraft(row.text, seq(|row.clusters|, i requires 0 <= i < |row.clusters| => row.clusters[i].bounds),
             row.softWrapped)
  }

  function DraftsOfRows(rows: seq<TerminalRow>): (r: seq<RowDraft>)
    ensures |r| == |rows|
  {
    seq(|rows|, i requires 0 <= i < |rows| => DraftOfRow(rows[i]))
  }

  function CaretOf(input: TerminalInput, rows: seq<TerminalRow>): Option<int> {
    if input.cursorVisible && input.displayOffset == 0 && 0 <= input.cursor.row < |rows|
    then Some(CellBoundary(rows[input.cursor.row], input.cursor.col, false)) else None
  }

  function SpanOf(selection: TerminalSelection, cols: int, rows: seq<TerminalRow>): Span
    requires rows != []
  {
    var normal := NormalizeSelection(selection);
    var start, end := ClampPoint(normal.start, cols, |rows|), ClampPoint(normal.end, cols, |rows|);
    Span(CellBoundary(rows[start.row], start.col, false), CellBoundary(rows[end.row], end.col, true))
  }

  function SelectionOf(input: TerminalInput, rows: seq<TerminalRow>): Option<Span> {
    if input.selection.Some? && rows != [] then Some(SpanOf(input.selection.value, input.cols, rows)) else None
  }

  datatype ProjectedNode = ProjectedNode(node: NodeDraft, truncated: bool)

  function PaneOf(input: TerminalInput, rows: seq<TerminalRow>): NodeDraft {
    NodeDraft(input.paneID, input.rootID, RoleTerminal, input.paneName, DraftsOfRows(rows), CaretOf(input, rows),
              SelectionOf(input, rows))
  }

  ghost function ProjectNode(seg: Segmenter, input: TerminalInput, rowBudget: int, byteBudget: int, graphemeBudget: int)
    : Result<ProjectedNode>
  {
    if !input.Valid() || rowBudget < 0 || byteBudget < 0 || graphemeBudget < 0 then Err(InvalidProjection)
    else
      var limit := Min(input.rows, rowBudget);
      match ProjectRows(seg, input, limit, byteBudget, graphemeBudget)
      case Bad(e) => Err(e)
      case Going(rows, _, _) =>
        Ok(ProjectedNode(PaneOf(input, WithOffsets(rows)), input.truncated || input.rows > limit))
      case Cut(rows) => Ok(ProjectedNode(PaneOf(input, WithOffsets(rows)), true))
  }

  function RootDraft(input: TerminalInput): NodeDraft {
    NodeDraft(input.rootID, NO_NODE, RoleWindow, input.rootName, [], None, None)
  }

  /** The draft of a document with the window and its one pane. */
  function TerminalDraft(input: TerminalInput, pane: ProjectedNode): DocumentDraft {
    DocumentDraft(input.providerID, input.generation, [RootDraft(input), pane.node], input.paneID, pane.truncated)
  }

  ghost function ProjectPane(seg: Segmenter, input: TerminalInput): Result<ProjectedNode> {
    ProjectNode(seg, input, MAX_ROWS, MAX_UTF8_BYTES - |input.rootName| - |input.paneName|, MAX_GRAPHEMES)
  }

  /** The document of a terminal, with the number after the last one. */
  ghost function TerminalResult(seg: Segmenter, input: TerminalInput, last: uint64): Result<DocumentSpec.Document> {
    match ProjectPane(seg, input)
    case Err(e) => Err(e)
    case Ok(pane) => DocumentSpec.NewDocument(seg, TerminalDraft(input, pane), last)
  }
}
