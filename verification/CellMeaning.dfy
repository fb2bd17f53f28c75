/** What the columns of a terminal row come to mean: which cells reach the text, where the caret stands and which
    clusters a selection takes. */
module CellMeaning {
  import opened Types
  import opened Utf8
  import opened TerminalSpec
  import opened CellProperties

  /** The cell shows nothing: it is no barrier, and continues another cell, has no text or is marked blank. */
  predicate ShowsNothing(cell: TerminalCell) {
    !cell.trimBarrier && (cell.wideContinuation || cell.text == [] || cell.blank)
  }

  /** A row ends after its last cell that shows something. */
  lemma {:induction false} ContentEndsAtLastInk(cells: seq<TerminalCell>)
    ensures ContentEnd(cells) > 0 ==> !ShowsNothing(cells[ContentEnd(cells) - 1])
    ensures forall k :: ContentEnd(cells) <= k < |cells| ==> ShowsNothing(cells[k])
    decreases |cells|
  {
    if cells != [] && cells[|cells| - 1].Blank() {
      ContentEndsAtLastInk(cells[..|cells| - 1]);
    }
  }

  /** The cell writes text. */
  predicate Writes(cell: TerminalCell) {
    !cell.wideContinuation && cell.text != []
  }

  /** The texts of the first `n` cells one after the other; a continuation has none. */
  function Written(cells: seq<TerminalCell>, n: nat): Text
    requires n <= |cells|
  {
    if n == 0 then [] else Written(cells, n - 1) + if cells[n - 1].wideContinuation then [] else cells[n - 1].text
  }

  /** How many columns a cell takes: one, unless it says otherwise. */
  function CellColumns(cell: TerminalCell): int {
    if cell.span == 0 then 1 else cell.span
  }

  /** Each chunk holds the text of its cell. */
  ghost predicate ChunksHoldText(c: Collected, cells: seq<TerminalCell>) {
    forall i :: 0 <= i < |c.chunks| ==> ChunkHoldsText(c.chunks[i], c.text, cells)
  }

  predicate ChunkHoldsText(chunk: TerminalChunk, text: Text, cells: seq<TerminalCell>) {
    && 0 <= chunk.startByte <= chunk.endByte <= |text| && 0 <= chunk.startCell < |cells|
    && text[chunk.startByte..chunk.endByte] == cells[chunk.startCell].text
    && Writes(cells[chunk.startCell]) && chunk.startByte == |Written(cells, chunk.startCell)|
    && chunk.endCell == chunk.startCell + CellColumns(cells[chunk.startCell])
  }

  /** Each of the first `n` cells that writes has its chunk. */
  ghost predicate WrittenAreHeld(c: Collected, cells: seq<TerminalCell>, n: nat)
    requires n <= |cells|
  {
    forall column :: 0 <= column < n && Writes(cells[column]) ==> HasChunk(c.chunks, column)
  }

  ghost predicate HasChunk(chunks: seq<TerminalChunk>, column: nat) {
    exists i :: 0 <= i < |chunks| && chunks[i].startCell == column
  }

  lemma WrittenNext(cells: seq<TerminalCell>, n: nat)
    requires n < |cells|
    ensures Written(cells, n + 1) == Written(cells, n) + if Writes(cells[n]) then cells[n].text else []
  {
  }

  lemma HeldLater(c: Collected, cells: seq<TerminalCell>, text: Text, column: nat)
    requires ChunksHoldText(c, cells) && column < |cells| && cells[column].text == text && Writes(cells[column])
    requires c.text == Written(cells, column)
    ensures var d := Collected(c.text + text,
                               c.chunks + [TerminalChunk(|c.text|, |c.text| + |text|, column,
                                                         column + cells[column].Width())], false);
            ChunksHoldText(d, cells)
  {
    hide Written;
    var all := c.text + text;
    forall i | 0 <= i < |c.chunks|
      ensures ChunkHoldsText(c.chunks[i], all, cells)
    {
      assert ChunkHoldsText(c.chunks[i], c.text, cells);
      assert all[c.chunks[i].startByte..c.chunks[i].endByte] == c.text[c.chunks[i].startByte..c.chunks[i].endByte];
    }
    assert all[|c.text|..|c.text| + |text|] == text;
  }

  lemma WrittenLater(c: Collected, d: Collected, cells: seq<TerminalCell>, n: nat)
    requires n < |cells| && WrittenAreHeld(c, cells, n) && c.chunks <= d.chunks
    requires Writes(cells[n]) ==> |d.chunks| > |c.chunks| && d.chunks[|c.chunks|].startCell == n
    ensures WrittenAreHeld(d, cells, n + 1)
  {
    forall column | 0 <= column < n + 1 && Writes(cells[column])
      ensures HasChunk(d.chunks, column)
    {
      if column < n {
        assert HasChunk(c.chunks, column);
        var i :| 0 <= i < |c.chunks| && c.chunks[i].startCell == column;
        assert d.chunks[i].startCell == column;
      }
    }
  }

  /** The text of a row is the text of its cells in order, each in the chunk of its column; it leaves a written cell
      out only from the first one that the byte budget has no room for. */
  lemma {:induction false} CollectHoldsCells(cells: seq<TerminalCell>, n: nat, byteBudget: int) returns (m: nat)
    requires n <= |cells|
    ensures var c := Collect(cells, n, byteBudget);
            && m <= n && ChunksHoldText(c, cells) && WrittenAreHeld(c, cells, m) && c.text == Written(cells, m)
            && (if c.truncated then m < n && Writes(cells[m]) && |c.text| + |cells[m].text| > byteBudget else m == n)
  {
    hide ChunksHoldText, WrittenAreHeld;
    if n == 0 {
      m := 0;
      NothingHeld(cells);
    } else {
      m := CollectHoldsCells(cells, n - 1, byteBudget);
      WrittenNext(cells, n - 1);
      var before, after, cell := Collect(cells, n - 1, byteBudget), Collect(cells, n, byteBudget), cells[n - 1];
      if !before.truncated && !after.truncated {
        m := n;
        if Writes(cell) {
          HeldLater(before, cells, cell.text, n - 1);
        }
        WrittenLater(before, after, cells, n - 1);
      } else if !before.truncated {
        SameHeld(before, after, cells, m);
      }
    }
  }

  lemma NothingHeld(cells: seq<TerminalCell>)
    ensures ChunksHoldText(Collected([], [], false), cells) && WrittenAreHeld(Collected([], [], false), cells, 0)
  {
  }

  lemma SameHeld(c: Collected, d: Collected, cells: seq<TerminalCell>, n: nat)
    requires n <= |cells| && c.text == d.text && c.chunks == d.chunks
    requires ChunksHoldText(c, cells) && WrittenAreHeld(c, cells, n)
    ensures ChunksHoldText(d, cells) && WrittenAreHeld(d, cells, n)
  {
  }

  /** No earlier cluster of the row ends beyond the column. */
  ghost predicate NoneBeyond(row: TerminalRow, j: nat, column: int)
    requires j <= |row.clusters|
  {
    forall k :: 0 <= k < j ==> row.clusters[k].endCell <= column
  }

  lemma FirstBeyondMeaning(row: TerminalRow, column: int, j: nat)
    requires InColumnOrder(row) && j < |row.clusters|
    ensures var i := FirstBeyond(row.clusters, column, 0);
            && (i <= j <==> column < row.clusters[j].endCell)
            && (j <= i <==> NoneBeyond(row, j, column))
  {
  }

  /** The caret stands at the first cluster that ends beyond the cursor's column, or at the end of the row. */
  lemma CaretStandsAtCursor(row: TerminalRow, column: int)
    requires InColumnOrder(row)
    ensures var boundary, at := CellBoundary(row, column, false), Max(column, 0);
            && row.start <= boundary <= row.end
            && NoneBeyond(row, boundary - row.start, at)
            && (boundary < row.end ==> at < row.clusters[boundary - row.start].endCell)
  {
    BoundaryMeaning(row, Max(column, 0), false, 0);
  }

  /** A grapheme of a row lies after the boundary of the selection's start exactly when its cluster ends beyond it. */
  lemma AfterStart(row: TerminalRow, column: int, j: nat)
    requires InColumnOrder(row) && 0 <= column && j < |row.clusters|
    ensures CellBoundary(row, column, false) <= row.start + j <==> column < row.clusters[j].endCell
  {
    BoundaryMeaning(row, column, false, 0);
    FirstBeyondMeaning(row, column, j);
  }

  /** It lies before the boundary of the end exactly when its cluster begins at or before the end column and is
      first there. */
  lemma BeforeEnd(row: TerminalRow, column: int, j: nat)
    requires InColumnOrder(row) && 0 <= column && j < |row.clusters|
    ensures row.start + j < CellBoundary(row, column, true)
       <==> row.clusters[j].startCell <= column && NoneBeyond(row, j, column)
  {
    BoundaryMeaning(row, column, true, 0);
    FirstBeyondMeaning(row, column, j);
    var i := FirstBeyond(row.clusters, column, 0);
    assert j < i ==> row.clusters[j].startCell <= column;
  }

  /** A cluster is selected exactly when its row is between the rows of the clamped endpoints and, in the first and
      the last of them, its cells reach beyond the start column and begin by the end column. Of several clusters over
      the end column only the first is taken. */
  lemma SelectionTakes(selection: TerminalSelection, cols: int, rows: seq<TerminalRow>, r: nat, j: nat)
    requires RowsFollow(rows) && cols > 0 && r < |rows| && j < |rows[r].clusters|
    ensures var span := SpanOf(selection, cols, rows);
            var start, end := ClampedStart(selection, cols, |rows|), ClampedEnd(selection, cols, |rows|);
            span.start <= rows[r].start + j < span.end <==>
              && start.row <= r <= end.row
              && (r == start.row ==> start.col < rows[r].clusters[j].endCell)
              && (r == end.row ==> rows[r].clusters[j].startCell <= end.col && NoneBeyond(rows[r], j, end.col))
  {
    var start, end := ClampedStart(selection, cols, |rows|), ClampedEnd(selection, cols, |rows|);
    BoundaryIsMonotone(rows[start.row], start.col, start.col, false);
    BoundaryIsMonotone(rows[end.row], end.col, end.col, true);
    hide CellBoundary, NoneBeyond;
    if r == start.row {
      AfterStart(rows[r], start.col, j);
    }
    if r == end.row {
      BeforeEnd(rows[r], end.col, j);
    }
    assert InColumnOrder(rows[r]) && InColumnOrder(rows[start.row]) && InColumnOrder(rows[end.row]);
  }

  /** The cell leads the columns it takes, the column among them. */
  predicate Owns(cells: seq<TerminalCell>, l: nat, column: nat)
    requires l < |cells|
  {
    !cells[l].wideContinuation && l <= column < l + CellColumns(cells[l])
  }

  /** A cell in itself: its text is well-formed and ends no line, its columns are in the row, a barrier and a
      continuation write nothing, and a blank cell writes a space at most. */
  predicate CellClean(cells: seq<TerminalCell>, column: nat)
    requires column < |cells|
  {
    var cell := cells[column];
    && ValidUtf8(cell.text) && 0x0A !in cell.text && 0x0D !in cell.text
    && 0 <= cell.span && column + cell.span <= |cells|
    && (cell.trimBarrier ==> cell.text == [] && cell.span == 0 && !cell.blank)
    && (if cell.wideContinuation then cell.text == [] && cell.span == 0
        else cell.blank ==> cell.text == [] || cell.text == [0x20])
  }

  ghost predicate HasOwner(cells: seq<TerminalCell>, column: nat) {
    exists l :: 0 <= l < |cells| && Owns(cells, l, column)
  }

  ghost predicate OneOwner(cells: seq<TerminalCell>, column: nat) {
    forall l, m :: 0 <= l < m < |cells| ==> !(Owns(cells, l, column) && Owns(cells, m, column))
  }

  /** The cells of a row are accepted exactly when each is clean and every column belongs to one leading cell, neither
      to none nor to two. */
  lemma ValidCellsTile(cells: seq<TerminalCell>)
    ensures ValidCells(cells)
       <==> forall column :: 0 <= column < |cells| ==>
              CellClean(cells, column) && HasOwner(cells, column) && OneOwner(cells, column)
  {
    if ValidCells(cells) {
      forall column | 0 <= column < |cells|
        ensures CellClean(cells, column) && HasOwner(cells, column) && OneOwner(cells, column)
      {
        PlacedIsOwned(cells, column);
      }
    }
    if forall column :: 0 <= column < |cells| ==>
         CellClean(cells, column) && HasOwner(cells, column) && OneOwner(cells, column) {
      forall column | 0 <= column < |cells|
        ensures CellFits(cells, column) && CellPlaced(cells, column)
      {
        OwnedIsPlaced(cells, column);
      }
    }
  }

  lemma PlacedIsOwned(cells: seq<TerminalCell>, column: nat)
    requires column < |cells| && ValidCells(cells)
    ensures CellClean(cells, column) && HasOwner(cells, column) && OneOwner(cells, column)
  {
    hide ValidUtf8;
    assert CellFits(cells, column) && CellPlaced(cells, column);
    if cells[column].wideContinuation {
      var l :| 0 <= l < column && !cells[l].wideContinuation && column < l + cells[l].Width();
      assert Owns(cells, l, column);
    } else {
      assert CellFits(cells, column);
      assert Owns(cells, column, column);
    }
    forall l, m | 0 <= l < m < |cells|
      ensures !(Owns(cells, l, column) && Owns(cells, m, column))
    {
      assert CellPlaced(cells, l);
    }
  }

  lemma LeadOwnsItself(cells: seq<TerminalCell>, column: nat)
    requires column < |cells| && CellClean(cells, column)
    ensures cells[column].wideContinuation || Owns(cells, column, column)
  {
  }

  lemma OwnedIsPlaced(cells: seq<TerminalCell>, column: nat)
    requires column < |cells|
    requires forall c :: 0 <= c < |cells| ==> CellClean(cells, c) && HasOwner(cells, c) && OneOwner(cells, c)
    ensures CellFits(cells, column) && CellPlaced(cells, column)
  {
    hide ValidUtf8;
    assert CellClean(cells, column) && HasOwner(cells, column);
    if cells[column].wideContinuation {
      var l :| 0 <= l < |cells| && Owns(cells, l, column);
      assert Covered(cells, column);
    } else {
      forall k | column < k < column + cells[column].Width() && k < |cells|
        ensures cells[k].wideContinuation
      {
        assert CellClean(cells, k) && OneOwner(cells, k) && Owns(cells, column, k);
        LeadOwnsItself(cells, k);
      }
    }
  }

  /** The point comes before the other in reading order, or is the same. */
  predicate Precedes(p: CellPoint, q: CellPoint) {
    p.row < q.row || (p.row == q.row && p.col <= q.col)
  }

  function Distance(a: int, b: int): int {
    if a < b then b - a else a - b
  }

  /** Of the places from 0 up to `n`, `place` is nearest to the value. */
  predicate IsNearest(value: int, place: int, n: int) {
    0 <= place < n && forall k :: 0 <= k < n ==> Distance(value, place) <= Distance(value, k)
  }

  /** A selection runs in reading order, whichever way it was made, between the rows and columns nearest to its
      endpoints. */
  lemma EndpointsMeaning(selection: TerminalSelection, cols: int, rows: int)
    requires cols > 0 && rows > 0
    ensures var inOrder := Precedes(selection.start, selection.end);
            var first := if inOrder then selection.start else selection.end;
            var last := if inOrder then selection.end else selection.start;
            var start, end := ClampedStart(selection, cols, rows), ClampedEnd(selection, cols, rows);
            && Precedes(first, last)
            && IsNearest(first.row, start.row, rows) && IsNearest(first.col, start.col, cols)
            && IsNearest(last.row, end.row, rows) && IsNearest(last.col, end.col, cols)
  {
  }
}
