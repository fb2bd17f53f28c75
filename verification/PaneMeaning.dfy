/** What a projected pane shows of the terminal's cells: the text of its rows, what was left out, and the cells and the
    rectangles of every grapheme. */
module PaneMeaning {
  import opened Types
  import opened Utf8
  import opened Graphemes
  import opened DocumentSpec
  import opened DocumentProperties
  import opened TerminalSpec
  import opened TerminalProjection
  import opened CellMeaning
  import opened CellProperties
  import opened TerminalProperties
  import opened TerminalDocument
  import opened TerminalLimits

  /** A terminal that can be projected: somebody's document, a window and a pane of one projection, at most 262144
      cells in rows of at most 16384, with a wrap flag and, if there are any, an order for each row, cells with an area,
      and well-formed names of at most 4096 bytes. */
  predicate IsTerminal(input: TerminalInput) {
    && input.providerID != 0 && input.generation != 0
    && input.rootID.kind == KindWindow && input.paneID.kind == KindPane
    && input.rootID.projection == input.paneID.projection != 0
    && input.rootID.objectID != 0 && input.paneID.objectID != 0
    && 1 <= input.cols <= 16_384 && 1 <= input.rows && input.rows * input.cols <= 262_144
    && |input.cells| == input.rows * input.cols && |input.wrapped| == input.rows
    && |input.visualToLogical| in {0, input.rows}
    && input.cellWidth > 0.0 && input.cellHeight > 0.0 && input.clip.width >= 0.0 && input.clip.height >= 0.0
    && input.displayOffset >= 0
    && ValidUtf8(input.rootName) && ValidUtf8(input.paneName) && |input.rootName| <= 4_096 && |input.paneName| <= 4_096
  }

  lemma ProductGrows(a: int, b: int, c: int)
    requires a <= b && c > 0
    ensures a * c <= b * c
  {
    assert (b - a) * c >= 0;
  }

  lemma AtMostCells(n: nat, rows: int, cols: int)
    requires cols > 0
    ensures rows <= n / cols <==> rows * cols <= n
  {
    var q := n / cols;
    assert n == q * cols + n % cols;
    if rows <= q {
      ProductGrows(rows, q, cols);
    } else {
      ProductGrows(q + 1, rows, cols);
      assert (q + 1) * cols == q * cols + cols;
    }
  }

  lemma ValidIsTerminal(input: TerminalInput)
    ensures input.Valid() <==> IsTerminal(input)
  {
    hide ValidUtf8;
    if input.cols > 0 {
      AtMostCells(MAX_TERMINAL_PROJECTION_CELLS, input.rows, input.cols);
    }
  }

  /** The cells of a row, as the input lists them one row after the other. */
  function GridRow(input: TerminalInput, r: nat): (cells: seq<TerminalCell>)
    requires input.Valid() && r < input.rows
    ensures |cells| == input.cols
  {
    RowFits(r, input.rows, input.cols);
    seq(input.cols, c requires 0 <= c < input.cols => input.cells[r * input.cols + c])
  }

  lemma RowIsGridRow(input: TerminalInput, r: nat)
    requires input.Valid() && r < input.rows
    ensures input.Row(r) == GridRow(input, r)
  {
    RowFits(r, input.rows, input.cols);
    hide ValidUtf8;
    var a, b := input.Row(r), GridRow(input, r);
    forall c | 0 <= c < input.cols
      ensures a[c] == b[c]
    {
    }
  }

  /** All text of a row, up to its last cell that shows something. */
  function RowText(input: TerminalInput, r: nat): Text
    requires input.Valid() && r < input.rows
  {
    Written(GridRow(input, r), ContentEnd(GridRow(input, r)))
  }

  lemma {:induction false} WrittenGrows(cells: seq<TerminalCell>, m: nat, n: nat)
    requires m <= n <= |cells|
    ensures Written(cells, m) <= Written(cells, n)
    ensures m < n && Writes(cells[m]) ==> |Written(cells, m)| + |cells[m].text| <= |Written(cells, n)|
    decreases n
  {
    if m < n {
      WrittenGrows(cells, m, n - 1);
    }
  }

  /** The text collected is the text of the cells, or a proper part of it when it was cut. */
  lemma CollectedText(cells: seq<TerminalCell>, n: nat, byteBudget: int)
    requires n <= |cells|
    ensures var c := Collect(cells, n, byteBudget);
            && c.text <= Written(cells, n)
            && (c.truncated <==> |c.text| < |Written(cells, n)|)
  {
    hide Collect, Written;
    var m := CollectHoldsCells(cells, n, byteBudget);
    WrittenGrows(cells, m, n);
  }

  /** The row is that of the terminal: its wrap flag, and its text or, when it was cut, a proper part of it. */
  ghost predicate RowShown(input: TerminalInput, r: nat, text: Text, softWrapped: bool, cut: bool)
    requires input.Valid() && r < input.rows
  {
    && softWrapped == input.wrapped[r]
    && text <= RowText(input, r)
    && (cut <==> text != RowText(input, r))
  }

  lemma RowOfText(seg: Segmenter, input: TerminalInput, r: nat, collected: Collected, inverse: seq<int>,
                  graphemeBudget: nat)
    requires input.Valid() && r < input.rows
    ensures var projected := RowOf(seg, input, r, collected, inverse, graphemeBudget);
            && projected.row.softWrapped == input.wrapped[r]
            && projected.row.text <= collected.text
            && (projected.truncated <==> collected.truncated || |projected.row.text| < |collected.text|)
  {
    hide ClusterAt, TerminalInput.Valid, Concat;
    var pieces := seg(collected.text);
    var k := Min(|pieces|, graphemeBudget);
    PrefixText(seg, collected.text, k);
    if k < |pieces| {
      PieceOffset(seg, collected.text, k);
    }
  }

  lemma RowIsShown(seg: Segmenter, input: TerminalInput, r: nat, byteBudget: int, graphemeBudget: nat)
    requires input.Valid() && r < input.rows
    requires ProjectRow(seg, input, r, byteBudget, graphemeBudget).Ok?
    ensures var projected := ProjectRow(seg, input, r, byteBudget, graphemeBudget).value;
            RowShown(input, r, projected.row.text, projected.row.softWrapped, projected.truncated)
  {
    RowIsGridRow(input, r);
    var cells := input.Row(r);
    var collected := Collect(cells, ContentEnd(cells), byteBudget);
    hide RowOf, Collect, ContentEnd, ValidCells, TerminalInput.Valid, TerminalInput.Row, GridRow, Written;
    CollectedText(cells, ContentEnd(cells), byteBudget);
    RowOfText(seg, input, r, collected, LogicalToVisual(input.Order(r), input.cols).value, graphemeBudget);
  }

  /** The budgets a row was projected under. */
  lemma {:induction false} RowComesFrom(seg: Segmenter, input: TerminalInput, n: nat, byteBudget: int,
                                        graphemeBudget: nat, r: nat)
    returns (bytes: int, graphemes: nat)
    requires input.Valid() && n <= input.rows && byteBudget >= 0
    requires var rows := ProjectRows(seg, input, n, byteBudget, graphemeBudget); !rows.Bad? && r < |rows.rows|
    ensures r < n && bytes >= 0
    ensures var rows, projected := ProjectRows(seg, input, n, byteBudget, graphemeBudget),
                                   ProjectRow(seg, input, r, bytes, graphemes);
            && projected.Ok? && projected.value.row == rows.rows[r]
            && (projected.value.truncated <==> rows.Cut? && r == |rows.rows| - 1)
  {
    hide ProjectRow, TerminalInput.Valid;
    var before := ProjectRows(seg, input, n - 1, byteBudget, graphemeBudget);
    if before.Going? && r == |before.rows| {
      RowsAreWithin(seg, input, n - 1, byteBudget, graphemeBudget);
      bytes, graphemes := before.bytes, before.graphemes;
    } else {
      bytes, graphemes := RowComesFrom(seg, input, n - 1, byteBudget, graphemeBudget, r);
    }
  }

  lemma PlacedDraft(input: TerminalInput, rows: seq<TerminalRow>, r: nat)
    requires r < |rows|
    ensures var node := PaneOf(input, WithOffsets(rows));
            && |node.rows| == |rows| && node.rows[r].text == rows[r].text
            && node.rows[r].softWrapped == rows[r].softWrapped && |node.rows[r].bounds| == |rows[r].clusters|
            && forall i :: 0 <= i < |rows[r].clusters| ==> node.rows[r].bounds[i] == rows[r].clusters[i].bounds
  {
    OffsetsKeepDrafts(rows);
    PaneRowsOf(input, WithOffsets(rows));
    hide PaneOf, WithOffsets;
  }

  /** What is left out of a pane, and nothing else is marked: rows, or the end of its last one. */
  ghost predicate LeftOut(input: TerminalInput, rows: seq<RowDraft>)
    requires input.Valid() && |rows| <= input.rows
  {
    || |rows| < input.rows
    || (rows != [] && rows[|rows| - 1].text != RowText(input, |rows| - 1))
  }

  /** A projected pane shows the rows of its terminal from the first on, each with its own wrap flag and all its text,
      but the last one perhaps only in part. It is marked truncated exactly when the terminal was, or when rows or the
      end of its last row are left out. */
  lemma PaneShows(seg: Segmenter, input: TerminalInput, rowBudget: int, byteBudget: int, graphemeBudget: int)
    requires ProjectNode(seg, input, rowBudget, byteBudget, graphemeBudget).Ok?
    ensures input.Valid()
    ensures var pane := ProjectNode(seg, input, rowBudget, byteBudget, graphemeBudget).value;
            && |pane.node.rows| <= input.rows
            && (forall r :: 0 <= r < |pane.node.rows| ==>
                  && pane.node.rows[r].softWrapped == input.wrapped[r]
                  && pane.node.rows[r].text <= RowText(input, r)
                  && (r < |pane.node.rows| - 1 ==> pane.node.rows[r].text == RowText(input, r)))
            && (pane.truncated <==> input.truncated || LeftOut(input, pane.node.rows))
  {
    hide TerminalInput.Valid, ProjectRows, PaneOf, WithOffsets, RowText, ProjectRow;
    var limit := Min(input.rows, rowBudget);
    ValidParts(input);
    RowsCounted(seg, input, limit, byteBudget, graphemeBudget);
    var projected := ProjectRows(seg, input, limit, byteBudget, graphemeBudget);
    var pane := ProjectNode(seg, input, rowBudget, byteBudget, graphemeBudget).value;
    PaneRowsOf(input, WithOffsets(projected.rows));
    forall r | 0 <= r < |projected.rows|
      ensures |pane.node.rows| == |projected.rows|
      ensures RowShown(input, r, pane.node.rows[r].text, pane.node.rows[r].softWrapped,
                       projected.Cut? && r == |projected.rows| - 1)
    {
      PlacedDraft(input, projected.rows, r);
      var bytes, graphemes := RowComesFrom(seg, input, limit, byteBudget, graphemeBudget, r);
      RowIsShown(seg, input, r, bytes, graphemes);
    }
  }

  /** A pane has a caret exactly when the cursor is shown, the terminal is not scrolled back and the cursor's row is
      one of the pane's: before the first grapheme of that row that ends beyond the cursor's column, or at its end. */
  lemma CaretMeans(input: TerminalInput, rows: seq<TerminalRow>)
    requires RowsFollow(rows)
    ensures var caret, row := PaneOf(input, rows).caret, input.cursor.row;
            && (caret.Some? <==> input.cursorVisible && input.displayOffset == 0 && 0 <= row < |rows|)
            && (caret.Some? ==>
                  && rows[row].start <= caret.value <= rows[row].end
                  && NoneBeyond(rows[row], caret.value - rows[row].start, Max(input.cursor.col, 0))
                  && (caret.value < rows[row].end ==>
                        Max(input.cursor.col, 0) < rows[row].clusters[caret.value - rows[row].start].endCell))
  {
    if 0 <= input.cursor.row < |rows| {
      CaretStandsAtCursor(rows[input.cursor.row], input.cursor.col);
    }
    hide CellBoundary, NoneBeyond;
  }

  /** A pane with rows has a selection exactly when its terminal has one, and it takes the clusters between the clamped
      endpoints. */
  lemma SelectionMeans(input: TerminalInput, rows: seq<TerminalRow>, r: nat, j: nat)
    requires RowsFollow(rows) && input.cols > 0 && r < |rows| && j < |rows[r].clusters|
    ensures PaneOf(input, rows).selection.Some? <==> input.selection.Some?
    ensures input.selection.Some? ==>
              var span := PaneOf(input, rows).selection.value;
              var start, end := ClampedStart(input.selection.value, input.cols, |rows|),
                                ClampedEnd(input.selection.value, input.cols, |rows|);
              span.start <= rows[r].start + j < span.end <==>
                && start.row <= r <= end.row
                && (r == start.row ==> start.col < rows[r].clusters[j].endCell)
                && (r == end.row ==> rows[r].clusters[j].startCell <= end.col && NoneBeyond(rows[r], j, end.col))
  {
    if input.selection.Some? {
      SelectionTakes(input.selection.value, input.cols, rows, r, j);
    }
    hide SpanOf, NoneBeyond, ClampedStart, ClampedEnd, CaretOf;
  }

  /** The names of a terminal always fit. */
  lemma NamesKept(seg: Segmenter, input: TerminalInput, rows: seq<TerminalRow>, pane: ProjectedNode, document: Document)
    requires input.Valid() && RowsSound(seg, rows, input.cols) && RowsFollow(rows) && pane.node == PaneOf(input, rows)
    requires Compile(seg, TerminalDraft(input, pane)) == Ok(document)
    ensures |document.nodes| == 2
    ensures document.nodes[0].name == input.rootName && document.nodes[0].rows == []
    ensures document.nodes[1].name == input.paneName
  {
    RootIsAccepted(seg, input, pane.truncated);
    var start := Partial([], map[], Totals(0, 0, 0), pane.truncated);
    var d := AddNode(seg, start, RootDraft(input), 0, input.rootID.projection).value;
    PaneOutcome(seg, input, rows, d);
    hide AddNode, AddNodes, TerminalInput.Valid, PaneOf, RowsSound, RowsFollow;
    TwoNodes(seg, RootDraft(input), pane.node, pane.truncated);
    assert TerminalDraft(input, pane).nodes == [RootDraft(input), pane.node];
  }

  /** A document of a terminal has two nodes: the window with its name and no text, and under it the pane, which has the
      focus. */
  lemma TerminalNodes(seg: Segmenter, input: TerminalInput, document: Document)
    requires ProjectPane(seg, input).Ok?
    requires Compile(seg, TerminalDraft(input, ProjectPane(seg, input).value)) == Ok(document)
    ensures document.providerID == input.providerID && document.generation == input.generation
    ensures document.focus == input.paneID && |document.nodes| == 2
    ensures var window, pane := document.nodes[0], document.nodes[1];
            && window.id == input.rootID && window.parent == NO_NODE && window.role == RoleWindow
            && window.name == input.rootName && window.rows == [] && window.text == []
            && pane.id == input.paneID && pane.parent == input.rootID && pane.role == RoleTerminal
            && pane.name == input.paneName
  {
    var rows := TerminalOutcome(seg, input);
    var pane := ProjectPane(seg, input).value;
    var draft := TerminalDraft(input, pane);
    CompileKeeps(seg, draft);
    PaneProjects(seg, input);
    hide ProjectPane, Compile, RowsSound, RowsFollow, AllSound, SomethingLost, WellFormed, ValidUtf8;
    SoundAt(seg, document.nodes, draft.nodes, 0);
    SoundAt(seg, document.nodes, draft.nodes, 1);
    NamesKept(seg, input, rows, pane, document);
    PaneFacts(input, rows);
    hide PaneOf;
  }
}
