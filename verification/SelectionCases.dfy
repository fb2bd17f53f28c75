/** Terminals on which a selection does not do what one might expect, projected from their cells. */
module SelectionCases {
  import opened Types
  import opened Utf8
  import opened TerminalSpec
  import opened TerminalProperties
  import opened TerminalDocument
  import opened TerminalLimits
  import opened TextRows
  import opened WindowCases

  lemma {:induction false} SingleBytes(pieces: seq<Text>, k: nat)
    requires k <= |pieces| && forall i :: 0 <= i < |pieces| ==> |pieces[i]| == 1
    ensures |Concat(pieces[..k])| == k
  {
    if k > 0 {
      SingleBytes(pieces, k - 1);
      assert pieces[..k][..k - 1] == pieces[..k - 1];
    }
  }

  /** In a row of letters, cluster `i` is byte `i` of the text. */
  lemma LetterCovers(row: TerminalRow, cells: seq<TerminalCell>, k: nat, i: nat)
    requires Shows(Plain(), row, cells, k) && Letters(CellText(cells)) && i < k
    ensures i < |row.clusters|
    ensures CoversItsChunks(CellChunks(cells), i, i + 1, row.clusters[i].startCell, row.clusters[i].endCell)
  {
    LettersSplit(CellText(cells));
    var pieces := Plain()(CellText(cells));
    hide Letters, CellText, CellChunks, CoversItsChunks, Plain;
    SingleBytes(pieces, i);
    SingleBytes(pieces, i + 1);
  }

  lemma PaneSelects(input: TerminalInput, rows: seq<TerminalRow>)
    ensures PaneOf(input, rows).selection == SelectionOf(input, rows)
  {
  }

  /** The row has the clusters of its first `n` bytes over the columns given. */
  predicate Over(row: TerminalRow, columns: seq<int>) {
    && |columns| <= |row.clusters|
    && forall i :: 0 <= i < |columns| ==>
         row.clusters[i].startCell == columns[i] && row.clusters[i].endCell == columns[i] + 1
  }

  /** The one cell "ab", selected from itself to itself. */
  function HalfCells(): seq<TerminalCell> {
    [TextCell([0x61, 0x62])]
  }

  function HalfCellInput(): TerminalInput {
    Screen(HalfCells(), false, PANE, [], Some(TerminalSelection(CellPoint(0, 0), CellPoint(0, 0))))
  }

  lemma OneChunk()
    ensures var cells := HalfCells();
            && Written(cells) && CellText(cells) == [0x61, 0x62] && Letters(CellText(cells))
            && |Plain()(CellText(cells))| == 2
            && CellChunks(cells) == [TerminalChunk(0, 2, 0, 1)]
  {
    LettersSplit([0x61, 0x62]);
    OneCell([0x61, 0x62]);
  }

  lemma TwoClusters(row: TerminalRow)
    requires Shows(Plain(), row, HalfCells(), 2)
    ensures |row.clusters| == 2 && Over(row, [0, 0])
  {
    OneChunk();
    hide HalfCells, Written, CellText, CellChunks, Plain, Letters, Concat;
    LetterCovers(row, HalfCells(), 2, 0);
    LetterCovers(row, HalfCells(), 2, 1);
  }

  lemma HalfCellSpan(row: TerminalRow)
    requires |row.clusters| == 2 && Over(row, [0, 0])
    ensures SelectionOf(HalfCellInput(), WithOffsets([row])) == Some(Span(0, 1))
  {
    var placed := WithOffsets([row])[0];
    assert placed.start == 0 && placed.clusters == row.clusters;
    assert CellBoundary(placed, 0, false) == 0 && CellBoundary(placed, 0, true) == 1;
  }

  /** A selection that ends in a cell of two graphemes takes only the first of them: both clusters lie over the
      selected cell, and the span is that of "a". */
  lemma SelectionTakesHalfACell() returns (row: TerminalRow)
    ensures |row.clusters| == 2 && Over(row, [0, 0])
    ensures ProjectPane(Plain(), HalfCellInput())
         == Ok(ProjectedNode(PaneOf(HalfCellInput(), WithOffsets([row])), false))
    ensures PaneOf(HalfCellInput(), WithOffsets([row])).selection == Some(Span(0, 1))
  {
    OneChunk();
    HalfScreen();
    hide HalfCellInput, HalfCells, Written, CellText, ProjectNode, PaneOf, Shows, Over, TerminalInput.Valid, HasRow,
         Plain, SelectionOf, WithOffsets;
    row := OneRowPane(Plain(), HalfCellInput(), HalfCells(), MAX_UTF8_BYTES, MAX_GRAPHEMES);
    TwoClusters(row);
    HalfCellSpan(row);
    PaneSelects(HalfCellInput(), WithOffsets([row]));
  }

  lemma HalfScreen()
    ensures var input := HalfCellInput();
            && HasRow(input, 0, HalfCells()) && input.rows == 1 && !input.truncated
            && input.rootName == input.paneName == []
  {
    ScreenHasRows(HalfCells(), false, PANE, [], HalfCellInput().selection);
    hide HasRow, TerminalInput.Valid;
  }

  function AbcCells(): seq<TerminalCell> {
    [TextCell([0x61]), TextCell([0x62]), TextCell([0x63])]
  }

  /** The cells "a", "b" and "c", selected from column 2 of row -2 to column 0 of row -1. */
  function BackwardInput(): TerminalInput {
    Screen(AbcCells(), false, PANE, [], Some(TerminalSelection(CellPoint(-2, 2), CellPoint(-1, 0))))
  }

  lemma ThreeChunks()
    ensures var cells := AbcCells();
            && Written(cells) && CellText(cells) == [0x61, 0x62, 0x63] && Letters(CellText(cells))
            && |Plain()(CellText(cells))| == 3
            && CellChunks(cells) == [TerminalChunk(0, 1, 0, 1), TerminalChunk(1, 2, 1, 2), TerminalChunk(2, 3, 2, 3)]
  {
    hide Written, CellText, CellChunks, Plain, ValidUtf8, HasLineBreak;
    LettersSplit([0x61]);
    LettersSplit([0x62]);
    LettersSplit([0x63]);
    LettersSplit([0x61, 0x62, 0x63]);
    OneCell([0x61]);
    NextCell([TextCell([0x61])], [0x62]);
    NextCell([TextCell([0x61])] + [TextCell([0x62])], [0x63]);
    assert AbcCells() == [TextCell([0x61])] + [TextCell([0x62])] + [TextCell([0x63])];
  }

  lemma ThreeClusters(row: TerminalRow)
    requires Shows(Plain(), row, AbcCells(), 3)
    ensures |row.clusters| == 3 && Over(row, [0, 1, 2])
  {
    ThreeChunks();
    hide AbcCells, Written, CellText, CellChunks, Plain, Letters, Concat;
    LetterCovers(row, AbcCells(), 3, 0);
    LetterCovers(row, AbcCells(), 3, 1);
    LetterCovers(row, AbcCells(), 3, 2);
  }

  lemma BackwardSpan(row: TerminalRow)
    requires |row.clusters| == 3 && Over(row, [0, 1, 2])
    ensures SelectionOf(BackwardInput(), WithOffsets([row])) == Some(Span(2, 1))
  {
    var placed := WithOffsets([row])[0];
    assert placed.start == 0 && placed.clusters == row.clusters;
    assert BoundaryFrom(placed, 2, false, 0) == BoundaryFrom(placed, 2, false, 1) == BoundaryFrom(placed, 2, false, 2);
  }

  lemma BackwardScreen()
    ensures var input := BackwardInput();
            && HasRow(input, 0, AbcCells()) && input.Valid() && input.rows == 1 && !input.truncated
            && input.rootName == input.paneName == [] && input.generation == 1 && input.paneID.activation == 1
  {
    ScreenHasRows(AbcCells(), false, PANE, [], BackwardInput().selection);
    hide HasRow, TerminalInput.Valid;
  }

  /** A selection above the rows can refuse the whole terminal: clamped to the one row, it runs backwards from column
      2 to column 0, and no document is built. */
  lemma SelectionOutsideCanReverse(last: uint64)
    ensures ProjectPane(Plain(), BackwardInput()).Ok?
    ensures ProjectPane(Plain(), BackwardInput()).value.node.selection == Some(Span(2, 1))
    ensures TerminalResult(Plain(), BackwardInput(), last) == Err(InvalidRange)
  {
    ThreeChunks();
    BackwardScreen();
    hide BackwardInput, AbcCells, Written, CellText, ProjectNode, PaneOf, Shows, Over, TerminalInput.Valid, HasRow,
         Plain, SelectionOf, WithOffsets, TerminalResult;
    var row := OneRowPane(Plain(), BackwardInput(), AbcCells(), MAX_UTF8_BYTES, MAX_GRAPHEMES);
    ThreeClusters(row);
    BackwardSpan(row);
    PaneSelects(BackwardInput(), WithOffsets([row]));
    BackwardSelectionIsRefused(Plain(), BackwardInput(), last);
  }

  /** As many letters as a document has room for, but one. */
  function ManyLetters(): (text: Text)
    ensures |text| == MAX_GRAPHEMES - 1 && Letters(text)
  {
    seq(MAX_GRAPHEMES - 1, i => 0x61)
  }

  /** The cell "ab", and a cell that fills the document. */
  function FullCells(): seq<TerminalCell> {
    [TextCell([0x61, 0x62]), TextCell(ManyLetters())]
  }

  /** Two such rows, selected from column 1 of the first to column 0 of the second. */
  function CutInput(): TerminalInput {
    Screen(FullCells(), true, PANE, [], Some(TerminalSelection(CellPoint(0, 1), CellPoint(1, 0))))
  }

  lemma FullChunks()
    ensures var cells := FullCells();
            && Written(cells) && Letters(CellText(cells)) && |CellText(cells)| == MAX_GRAPHEMES + 1
            && |Plain()(CellText(cells))| == MAX_GRAPHEMES + 1
            && CellChunks(cells) == [TerminalChunk(0, 2, 0, 1), TerminalChunk(2, MAX_GRAPHEMES + 1, 1, 2)]
  {
    hide ManyLetters, Written, CellText, CellChunks, Plain, ValidUtf8;
    OneChunk();
    LettersSplit(ManyLetters());
    NextCell(HalfCells(), ManyLetters());
    assert FullCells() == HalfCells() + [TextCell(ManyLetters())];
    LettersSplit(CellText(FullCells()));
  }

  lemma CutClusters(row: TerminalRow)
    requires Shows(Plain(), row, FullCells(), MAX_GRAPHEMES)
    ensures Over(row, [0, 0, 1])
  {
    FullChunks();
    hide FullCells, Written, CellText, CellChunks, Plain, Letters, Concat;
    LetterCovers(row, FullCells(), MAX_GRAPHEMES, 0);
    LetterCovers(row, FullCells(), MAX_GRAPHEMES, 1);
    LetterCovers(row, FullCells(), MAX_GRAPHEMES, 2);
  }

  lemma CutSpan(row: TerminalRow)
    requires Over(row, [0, 0, 1])
    ensures SelectionOf(CutInput(), WithOffsets([row])) == Some(Span(2, 1))
  {
    hide ManyLetters;
    var placed := WithOffsets([row])[0];
    assert placed.start == 0 && placed.clusters == row.clusters;
    assert BoundaryFrom(placed, 1, false, 0) == BoundaryFrom(placed, 1, false, 1) == BoundaryFrom(placed, 1, false, 2);
  }

  lemma CutScreen()
    ensures var input := CutInput();
            && HasRow(input, 0, FullCells()) && input.Valid() && input.rows == 2
            && input.rootName == input.paneName == [] && input.generation == 1 && input.paneID.activation == 1
  {
    ScreenHasRows(FullCells(), true, PANE, [], CutInput().selection);
    hide HasRow, TerminalInput.Valid, ManyLetters;
  }

  /** So can one within the rows when the row it ends in was cut off: the second row is lost to the limit of graphemes,
      and the selection that ran forwards into it runs backwards in the first. */
  lemma SelectionInsideCanReverse(last: uint64)
    ensures var selection := CutInput().selection.value;
            0 <= selection.start.row < selection.end.row < CutInput().rows
    ensures ProjectPane(Plain(), CutInput()).Ok?
    ensures |ProjectPane(Plain(), CutInput()).value.node.rows| == 1
    ensures ProjectPane(Plain(), CutInput()).value.node.selection == Some(Span(2, 1))
    ensures TerminalResult(Plain(), CutInput(), last) == Err(InvalidRange)
  {
    FullChunks();
    CutScreen();
    hide CutInput, FullCells, Written, CellText, ProjectNode, PaneOf, Shows, Over, TerminalInput.Valid, HasRow,
         Plain, SelectionOf, WithOffsets, TerminalResult, DraftsOfRows;
    var row := CutPane(Plain(), CutInput(), FullCells(), MAX_UTF8_BYTES, MAX_GRAPHEMES);
    CutClusters(row);
    CutSpan(row);
    CutSelection();
    PaneSelects(CutInput(), WithOffsets([row]));
    PaneRowsOf(CutInput(), WithOffsets([row]));
    BackwardSelectionIsRefused(Plain(), CutInput(), last);
  }

  lemma CutSelection()
    ensures CutInput().selection == Some(TerminalSelection(CellPoint(0, 1), CellPoint(1, 0)))
  {
  }
}
