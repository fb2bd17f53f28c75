/** The document of a projected terminal: the offsets the projection assigned are the ones the document computes,
    and the outcomes of the projection are known exactly. */
module TerminalDocument {
  import opened Types
  import opened Utf8
  import opened Graphemes
  import opened DocumentSpec
  import opened DocumentProperties
  import opened DocumentOutcome
  import opened DocumentRows
  import opened TerminalSpec
  import opened CellProperties
  import opened TerminalProperties

  /** A projected row is one that a document takes whatever its totals are. */
  lemma AcceptableIsSafe(seg: Segmenter, row: TerminalRow)
    requires RowAcceptable(seg, row)
    ensures RowIsSafe(seg, DraftOfRow(row))
  {
  }

  /** A kept row starts where the projection put it, and ends there too if it is exact. */
  ghost predicate RowAgrees(row: DocumentRow, rows: seq<TerminalRow>, i: nat, exact: bool)
    requires i < |rows|
  {
    && row.start == OffsetOf(rows, i)
    && row.softWrapped == rows[i].softWrapped
    && row.end <= OffsetOf(rows, i) + |rows[i].clusters|
    && (exact ==> row.end == OffsetOf(rows, i) + |rows[i].clusters|)
  }

  /** The kept rows agree with the projected ones, all exactly but the last when it was cut. */
  ghost predicate Agrees(kept: seq<DocumentRow>, graphemes: seq<Text>, rows: seq<TerminalRow>, cut: bool) {
    && |kept| <= |rows|
    && (forall i :: 0 <= i < |kept| ==> RowAgrees(kept[i], rows, i, !cut || i < |kept| - 1))
    && |graphemes| == if kept == [] then 0 else kept[|kept| - 1].end
  }

  lemma SeparatedLength(p: Progress, rows: seq<TerminalRow>)
    requires Agrees(p.rows, p.graphemes, rows, false)
    ensures |p.Separated().graphemes| == OffsetOf(rows, |p.rows|)
  {
    if |p.rows| > 0 {
      assert RowAgrees(p.rows[|p.rows| - 1], rows, |p.rows| - 1, true);
    }
  }

  lemma AgreesGrows(kept: seq<DocumentRow>, graphemes: seq<Text>, rows: seq<TerminalRow>, row: DocumentRow,
                    later: seq<Text>, exact: bool)
    requires Agrees(kept, graphemes, rows, false) && |kept| < |rows|
    requires RowAgrees(row, rows, |kept|, exact) && |later| == row.end
    ensures Agrees(kept + [row], later, rows, !exact)
  {
    hide OffsetOf;
    forall i | 0 <= i < |kept|
      ensures RowAgrees((kept + [row])[i], rows, i, true)
    {
      assert (kept + [row])[i] == kept[i] && RowAgrees(kept[i], rows, i, true);
    }
  }

  lemma AddRowAgrees(seg: Segmenter, p: Progress, rows: seq<TerminalRow>, draft: RowDraft)
    requires |p.rows| < |rows| && Agrees(p.rows, p.graphemes, rows, false)
    requires draft.softWrapped == rows[|p.rows|].softWrapped && |seg(draft.text)| == |rows[|p.rows|].clusters|
    ensures var step := AddRow(seg, p, draft);
            && (step.More? ==> Agrees(step.progress.rows, step.progress.graphemes, rows, false)
                               && |step.progress.rows| == |p.rows| + 1)
            && (step.Stopped? ==> Agrees(step.progress.rows, step.progress.graphemes, rows, true))
  {
    hide Fits, Concat, ValidUtf8, OffsetOf;
    SeparatedLength(p, rows);
    var q := p.Separated();
    var k := Fits(seg(draft.text), q.totals.graphemes, q.totals.utf8Bytes);
    var next := q.WithRow(draft, seg(draft.text)[..k]);
    AgreesGrows(p.rows, p.graphemes, rows, next.rows[|p.rows|], next.graphemes, k == |seg(draft.text)|);
    AgreesWeakens(p.rows, p.graphemes, rows);
  }

  lemma AgreesWeakens(kept: seq<DocumentRow>, graphemes: seq<Text>, rows: seq<TerminalRow>)
    requires Agrees(kept, graphemes, rows, false)
    ensures Agrees(kept, graphemes, rows, true)
  {
  }

  /** The offsets a node's rows get while the document inserts its separators are the ones the projection assigned:
      all starts, and all ends but that of a last row the budgets cut. */
  lemma {:induction false} AddRowsAgrees(seg: Segmenter, start: Totals, rows: seq<TerminalRow>, n: nat)
    requires n <= |rows|
    requires forall i :: 0 <= i < |rows| ==> RowAcceptable(seg, rows[i])
    ensures var step := AddRows(seg, start, DraftsOfRows(rows), n);
            && !step.Failed?
            && (step.More? ==>
                  |step.progress.rows| == n && Agrees(step.progress.rows, step.progress.graphemes, rows, false))
            && (step.Stopped? ==> Agrees(step.progress.rows, step.progress.graphemes, rows, true))
  {
    hide AddRow, RowAcceptable, RowIsSafe;
    if n > 0 {
      AddRowsAgrees(seg, start, rows, n - 1);
      var before := AddRows(seg, start, DraftsOfRows(rows), n - 1);
      AcceptableIsSafe(seg, rows[n - 1]);
      AcceptableClusters(seg, rows[n - 1]);
      if before.More? {
        SafeRowIsTaken(seg, before.progress, DraftOfRow(rows[n - 1]));
        AddRowAgrees(seg, before.progress, rows, DraftOfRow(rows[n - 1]));
      }
    }
  }

  /** One more row adds its separator and its graphemes. */
  lemma UnbudgetedNext(seg: Segmenter, rows: seq<TerminalRow>, n: nat)
    requires n < |rows|
    ensures var before, all := Unbudgeted(seg, DraftsOfRows(rows)[..n]), Unbudgeted(seg, DraftsOfRows(rows)[..n + 1]);
            var separators := if n > 0 && !rows[n - 1].softWrapped then 1 else 0;
            && |all| == |before| + separators + |seg(rows[n].text)|
            && all[..|before|] == before && all[|before| + separators..] == seg(rows[n].text)
  {
    var drafts := DraftsOfRows(rows);
    assert drafts[..n + 1] == drafts[..n] + [drafts[n]];
    UnbudgetedAppend(seg, drafts[..n], drafts[n]);
    hide Unbudgeted, DraftsOfRows;
  }

  /** The graphemes up to row `n` are those before it, a separator, and the clusters of the row at its offset. */
  lemma {:induction false} UnbudgetedRow(seg: Segmenter, rows: seq<TerminalRow>, n: nat)
    requires forall k :: 0 <= k < |rows| ==> RowAcceptable(seg, rows[k])
    requires n < |rows|
    ensures var before, all := Unbudgeted(seg, DraftsOfRows(rows)[..n]), Unbudgeted(seg, DraftsOfRows(rows)[..n + 1]);
            && |before| <= OffsetOf(rows, n) && |all| == OffsetOf(rows, n) + |rows[n].clusters|
            && all[..|before|] == before && all[OffsetOf(rows, n)..] == seg(rows[n].text)
  {
    NoGraphemes(seg, rows);
    hide RowAcceptable, Unbudgeted, DraftsOfRows;
    AcceptableClusters(seg, rows[n]);
    UnbudgetedNext(seg, rows, n);
    if n > 0 {
      UnbudgetedRow(seg, rows, n - 1);
    }
  }

  lemma NoGraphemes(seg: Segmenter, rows: seq<TerminalRow>)
    ensures Unbudgeted(seg, DraftsOfRows(rows)[..0]) == []
  {
    assert DraftsOfRows(rows)[..0] == [];
  }

  lemma AcceptableClusters(seg: Segmenter, row: TerminalRow)
    requires RowAcceptable(seg, row)
    ensures ClustersAreGraphemes(seg, row)
  {
  }

  /** The graphemes of the drafts are the clusters of the rows at their offsets. */
  lemma {:induction false} ClusterAtOffset(seg: Segmenter, rows: seq<TerminalRow>, n: nat, i: nat, j: nat)
    requires forall k :: 0 <= k < |rows| ==> RowAcceptable(seg, rows[k])
    requires i < n <= |rows| && j < |rows[i].clusters|
    ensures OffsetOf(rows, i) + j < |Unbudgeted(seg, DraftsOfRows(rows)[..n])|
    ensures Unbudgeted(seg, DraftsOfRows(rows)[..n])[OffsetOf(rows, i) + j] == rows[i].clusters[j].text
    decreases n
  {
    hide RowAcceptable, OffsetOf, Unbudgeted, DraftsOfRows;
    UnbudgetedRow(seg, rows, n - 1);
    AcceptableClusters(seg, rows[i]);
    var before, all := Unbudgeted(seg, DraftsOfRows(rows)[..n - 1]), Unbudgeted(seg, DraftsOfRows(rows)[..n]);
    if i < n - 1 {
      ClusterAtOffset(seg, rows, n - 1, i, j);
      assert all[..|before|][OffsetOf(rows, i) + j] == all[OffsetOf(rows, i) + j];
    } else {
      assert all[OffsetOf(rows, i)..][j] == all[OffsetOf(rows, i) + j];
    }
  }

  lemma {:induction false} OffsetsUnchanged(rows: seq<TerminalRow>, i: nat)
    requires i <= |rows|
    ensures OffsetOf(WithOffsets(rows), i) == OffsetOf(rows, i)
  {
    if i > 0 {
      OffsetsUnchanged(rows, i - 1);
    }
  }

  lemma {:induction false} OffsetsGrow(rows: seq<TerminalRow>, i: nat, j: nat)
    requires i < j <= |rows|
    ensures OffsetOf(rows, i) + |rows[i].clusters| <= OffsetOf(rows, j)
    decreases j
  {
    if i < j - 1 {
      OffsetsGrow(rows, i, j - 1);
    }
  }

  /** Assigning offsets changes nothing else: the rows stay sound and follow each other. */
  lemma OffsetsKeepRows(seg: Segmenter, rows: seq<TerminalRow>, cols: int)
    requires RowsSound(seg, rows, cols)
    ensures RowsSound(seg, WithOffsets(rows), cols)
    ensures RowsFollow(WithOffsets(rows))
    ensures forall i :: 0 <= i < |rows| ==> WithOffsets(rows)[i].start == OffsetOf(WithOffsets(rows), i)
  {
    var placed := WithOffsets(rows);
    hide RowAcceptable, OffsetOf;
    forall i | 0 <= i < |rows|
      ensures RowAcceptable(seg, placed[i]) && ClustersInRow(placed[i], cols)
      ensures InColumnOrder(placed[i])
      ensures placed[i].start == OffsetOf(placed, i)
    {
      AcceptableElsewhere(seg, rows[i], placed[i]);
      OffsetsUnchanged(rows, i);
      assert ClustersInRow(rows[i], cols);
    }
    forall i, j | 0 <= i < j < |rows|
      ensures placed[i].end <= placed[j].start
    {
      OffsetsGrow(rows, i, j);
    }
  }

  lemma AcceptableElsewhere(seg: Segmenter, row: TerminalRow, other: TerminalRow)
    requires RowAcceptable(seg, row) && row.text == other.text && row.clusters == other.clusters
    ensures RowAcceptable(seg, other)
  {
  }

  /** The row loop keeps one row for each it went through, the last one too when it was cut. */
  lemma {:induction false} RowsCounted(seg: Segmenter, input: TerminalInput, n: nat, byteBudget: int,
                                       graphemeBudget: nat)
    requires input.Valid() && n <= input.rows
    ensures var r := ProjectRows(seg, input, n, byteBudget, graphemeBudget);
            r.Bad? || if r.Going? then |r.rows| == n else 0 < |r.rows| <= n
  {
    hide ProjectRow, TerminalInput.Valid;
    if n > 0 {
      RowsCounted(seg, input, n - 1, byteBudget, graphemeBudget);
    }
  }

  /** A projected pane is the draft of sound rows with their offsets, one for each row of the input unless it is marked
      truncated. */
  lemma ProjectedPaneShape(seg: Segmenter, input: TerminalInput, rowBudget: int, byteBudget: int, graphemeBudget: int)
    returns (rows: seq<TerminalRow>)
    requires ProjectNode(seg, input, rowBudget, byteBudget, graphemeBudget).Ok?
    ensures input.Valid() && rowBudget >= 0 && |rows| <= rowBudget
    ensures ProjectNode(seg, input, rowBudget, byteBudget, graphemeBudget).value.node == PaneOf(input, rows)
    ensures RowsSound(seg, rows, input.cols) && RowsFollow(rows)
    ensures forall i :: 0 <= i < |rows| ==> rows[i].start == OffsetOf(rows, i)
    ensures |rows| <= input.rows && (rowBudget > 0 ==> rows != [])
    ensures !ProjectNode(seg, input, rowBudget, byteBudget, graphemeBudget).value.truncated ==> |rows| == input.rows
  {
    var limit := Min(input.rows, rowBudget);
    ValidParts(input);
    assert limit >= 0;
    RowsCounted(seg, input, limit, byteBudget, graphemeBudget);
    hide ProjectRows, PaneOf, TerminalInput.Valid, WithOffsets, RowsSound, RowsFollow;
    var r := ProjectRows(seg, input, limit, byteBudget, graphemeBudget);
    ProjectedRowsAreSound(seg, input, limit, byteBudget, graphemeBudget);
    OffsetsKeepRows(seg, r.rows, input.cols);
    rows := WithOffsets(r.rows);
  }

  /** The caret lies in its row, which is not before the text. */
  lemma CaretIsPlaced(input: TerminalInput, rows: seq<TerminalRow>)
    requires RowsFollow(rows)
    ensures CaretOf(input, rows).Some? ==> CaretOf(input, rows).value >= 0
  {
    if CaretOf(input, rows).Some? {
      BoundaryIsMonotone(rows[input.cursor.row], input.cursor.col, input.cursor.col, false);
    }
  }

  /** The selection of the pane runs backwards: both its endpoints clamp to one row, and a whole cluster lies
      between the clamped end column and the clamped start column. */
  ghost predicate SelectionReversed(input: TerminalInput, rows: seq<TerminalRow>) {
    && input.selection.Some? && rows != []
    && var start, end := ClampedStart(input.selection.value, input.cols, |rows|),
                         ClampedEnd(input.selection.value, input.cols, |rows|);
       start.row == end.row && ClusterBetween(rows[start.row], end.col, start.col)
  }

  lemma PaneSelection(input: TerminalInput, rows: seq<TerminalRow>)
    requires RowsFollow(rows) && input.cols > 0
    ensures SelectionFails(PaneOf(input, rows)) <==> SelectionReversed(input, rows)
  {
    hide CellBoundary, ClusterBetween, RowsFollow, CaretOf;
    if input.selection.Some? && rows != [] {
      SpanOrdered(input.selection.value, input.cols, rows);
    }
  }

  lemma PaneIdentity(input: TerminalInput, rows: seq<TerminalRow>)
    ensures PaneOf(input, rows).id == input.paneID
  {
  }

  lemma NoRows(seg: Segmenter, start: Totals)
    ensures AddRows(seg, start, [], 0) == More(Progress(start, [], []))
  {
  }

  lemma RootIsAccepted(seg: Segmenter, input: TerminalInput, truncated: bool)
    requires input.Valid()
    ensures var root := AddNode(seg, Partial([], map[], Totals(0, 0, 0), truncated), RootDraft(input), 0,
                                input.rootID.projection);
            && root.Ok? && root.value.index == map[input.rootID := 0] && |root.value.nodes| == 1
            && root.value.totals == Totals(0, 0, |input.rootName|)
            && root.value.nodes[0].name == input.rootName && root.value.nodes[0].rows == []
            && root.value.truncated == truncated
  {
    NoRows(seg, Totals(0, 0, |input.rootName|));
    hide AddRows;
  }

  lemma PaneIsSafe(seg: Segmenter, input: TerminalInput, rows: seq<TerminalRow>)
    requires RowsSound(seg, rows, input.cols)
    ensures RowsAreSafe(seg, PaneOf(input, rows).rows) && DraftsBounded(seg, PaneOf(input, rows).rows)
  {
    hide RowIsSafe, RowAcceptable, CaretOf, SelectionOf, DraftOfRow, DraftBounded;
    forall i | 0 <= i < |rows|
      ensures RowIsSafe(seg, PaneOf(input, rows).rows[i]) && DraftBounded(seg, PaneOf(input, rows).rows[i])
    {
      AcceptableIsSafe(seg, rows[i]);
      AcceptableIsBounded(seg, rows[i]);
    }
  }

  /** A projected row has a rectangle for every grapheme. */
  lemma AcceptableIsBounded(seg: Segmenter, row: TerminalRow)
    requires RowAcceptable(seg, row)
    ensures DraftBounded(seg, DraftOfRow(row))
  {
  }

  /** The identity of a pane is in order but for its activation, and its caret is not negative. */
  lemma PaneFacts(input: TerminalInput, rows: seq<TerminalRow>)
    requires input.Valid() && RowsFollow(rows)
    ensures var draft := PaneOf(input, rows);
            && draft.id == input.paneID && draft.parent == input.rootID && draft.role == RoleTerminal
            && draft.name == input.paneName && ValidUtf8(draft.name) && |draft.name| <= MAX_NODE_NAME_BYTES
            && |input.rootName| + |draft.name| <= MAX_UTF8_BYTES
            && input.paneID.Valid() && input.rootID.Valid() && input.paneID != input.rootID
            && input.paneID.kind == KindPane && input.paneID.projection == input.rootID.projection
            && !CaretFails(draft)
  {
    CaretIsPlaced(input, rows);
    hide CaretOf, SelectionOf, DraftsOfRows, RowsFollow, ValidUtf8;
  }

  /** Whether the pane's draft becomes a node. */
  lemma PaneOutcome(seg: Segmenter, input: TerminalInput, rows: seq<TerminalRow>, d: Partial)
    requires input.Valid() && RowsSound(seg, rows, input.cols) && RowsFollow(rows)
    requires d.index == map[input.rootID := 0] && d.totals == Totals(0, 0, |input.rootName|)
    ensures var pane := AddNode(seg, d, PaneOf(input, rows), 1, input.rootID.projection);
            && (pane.Ok? <==> input.paneID.activation != 0 && !SelectionReversed(input, rows))
            && (pane.Err? ==> pane.error == if input.paneID.activation == 0 then InvalidIdentity(ActivationFault)
                                            else InvalidRange)
            && (pane.Ok? ==> pane.value.index == d.index[input.paneID := |d.nodes|])
            && (pane.Ok? ==> |pane.value.nodes| == |d.nodes| + 1 && pane.value.nodes[..|d.nodes|] == d.nodes
                             && pane.value.nodes[|d.nodes|].name == input.paneName)
  {
    PaneSelection(input, rows);
    PaneIsSafe(seg, input, rows);
    PaneFacts(input, rows);
    hide PaneOf, SelectionReversed, SelectionFails, CaretFails, RowsSound, RowsFollow, RowsAreSafe, DraftsBounded,
         BuildNode, ValidUtf8;
    var draft := PaneOf(input, rows);
    assert NamedDraft(draft, d.totals) == draft;
    SafeNodeOutcome(seg, Charged(d.totals, draft), draft);
  }

  /** The node list of a terminal document is the root and the pane. */
  lemma TwoNodes(seg: Segmenter, root: NodeDraft, pane: NodeDraft, truncated: bool)
    ensures AddNodes(seg, [root, pane], 2, truncated)
         == match AddNode(seg, Partial([], map[], Totals(0, 0, 0), truncated), root, 0, root.id.projection)
            case Err(e) => Err(e)
            case Ok(d) => AddNode(seg, d, pane, 1, root.id.projection)
  {
    hide AddNode;
    assert AddNodes(seg, [root, pane], 0, truncated) == Ok(Partial([], map[], Totals(0, 0, 0), truncated));
    assert AddNodes(seg, [root, pane], 1, truncated)
        == AddNode(seg, Partial([], map[], Totals(0, 0, 0), truncated), root, 0, root.id.projection);
  }

  lemma PaneUnfolds(seg: Segmenter, input: TerminalInput)
    ensures ProjectPane(seg, input)
         == ProjectNode(seg, input, MAX_ROWS, MAX_UTF8_BYTES - |input.rootName| - |input.paneName|, MAX_GRAPHEMES)
  {
  }

  /** The document of a terminal is refused for its generation, or else for its pane. */
  lemma TerminalCompiles(seg: Segmenter, input: TerminalInput, pane: ProjectedNode, d: Partial)
    requires input.Valid()
    requires AddNode(seg, Partial([], map[], Totals(0, 0, 0), pane.truncated), RootDraft(input), 0,
                     input.rootID.projection) == Ok(d)
    ensures var added := AddNode(seg, d, pane.node, 1, input.rootID.projection);
            var result := Compile(seg, TerminalDraft(input, pane));
            && (input.generation == MAX_UINT64 ==> result == Err(InvalidDocument))
            && (input.generation != MAX_UINT64 && added.Err? ==> result == Err(added.error))
            && (input.generation != MAX_UINT64 && added.Ok? && input.paneID in added.value.index ==> result.Ok?)
  {
    ValidParts(input);
    hide AddNode, AddNodes, TerminalInput.Valid;
    var draft := TerminalDraft(input, pane);
    TwoNodes(seg, RootDraft(input), pane.node, pane.truncated);
    assert draft.nodes == [RootDraft(input), pane.node];
    assert CompileNodes(seg, draft) == AddNode(seg, d, pane.node, 1, input.rootID.projection);
  }

  lemma ValidParts(input: TerminalInput)
    requires input.Valid()
    ensures input.providerID != 0 && input.generation != 0 && input.paneID.Valid() && input.rows > 0
    ensures |input.rootName| + |input.paneName| <= MAX_UTF8_BYTES
  {
  }

  /** How many rows a projected pane has. */
  ghost predicate RowsOfPane(input: TerminalInput, rows: seq<TerminalRow>, truncated: bool) {
    && 0 < |rows| <= MAX_ROWS && |rows| <= input.rows
    && (!truncated ==> |rows| == input.rows)
  }

  lemma ShapeOfPane(seg: Segmenter, input: TerminalInput) returns (rows: seq<TerminalRow>)
    requires ProjectPane(seg, input).Ok?
    ensures input.Valid() && ProjectPane(seg, input).value.node == PaneOf(input, rows)
    ensures RowsSound(seg, rows, input.cols) && RowsFollow(rows)
    ensures forall i :: 0 <= i < |rows| ==> rows[i].start == OffsetOf(rows, i)
    ensures RowsOfPane(input, rows, ProjectPane(seg, input).value.truncated)
  {
    hide ProjectPane, ProjectNode, RowsSound, RowsFollow, PaneOf, OffsetOf, TerminalInput.Valid;
    PaneUnfolds(seg, input);
    rows := ProjectedPaneShape(seg, input, MAX_ROWS, MAX_UTF8_BYTES - |input.rootName| - |input.paneName|,
                               MAX_GRAPHEMES);
  }

  /** The exact outcome of a projected terminal: besides the generation that is no generation and a pane without an
      activation, only a selection that runs backwards is refused. The bounds and the text of the rows never are. */
  lemma TerminalOutcome(seg: Segmenter, input: TerminalInput) returns (rows: seq<TerminalRow>)
    requires ProjectPane(seg, input).Ok?
    ensures ProjectPane(seg, input).value.node == PaneOf(input, rows)
    ensures RowsSound(seg, rows, input.cols) && RowsFollow(rows)
    ensures forall i :: 0 <= i < |rows| ==> rows[i].start == OffsetOf(rows, i)
    ensures RowsOfPane(input, rows, ProjectPane(seg, input).value.truncated)
    ensures var result := Compile(seg, TerminalDraft(input, ProjectPane(seg, input).value));
            && (result.Ok? <==>
                  input.generation != MAX_UINT64 && input.paneID.activation != 0 && !SelectionReversed(input, rows))
            && (result.Err? ==>
                  result.error == if input.generation == MAX_UINT64 then InvalidDocument
                                  else if input.paneID.activation == 0 then InvalidIdentity(ActivationFault)
                                  else InvalidRange)
  {
    hide *;
    rows := ShapeOfPane(seg, input);
    var pane := ProjectPane(seg, input).value;
    RootIsAccepted(seg, input, pane.truncated);
    var d := AddNode(seg, Partial([], map[], Totals(0, 0, 0), pane.truncated), RootDraft(input), 0,
                     input.rootID.projection).value;
    PaneOutcome(seg, input, rows, d);
    TerminalCompiles(seg, input, pane, d);
  }

  /** The cells of the row are placed and its order is one of distinct columns. */
  ghost predicate RowProjects(input: TerminalInput, r: nat)
    requires input.Valid() && r < input.rows
  {
    ValidCells(input.Row(r)) && LogicalToVisual(input.Order(r), input.cols).Some?
  }

  /** The rows before it project and leave it room. */
  ghost predicate Reached(seg: Segmenter, input: TerminalInput, r: nat, byteBudget: int, graphemeBudget: nat)
    requires input.Valid() && r < input.rows
  {
    ProjectRows(seg, input, r, byteBudget, graphemeBudget).Going?
  }

  lemma RowOutcome(seg: Segmenter, input: TerminalInput, r: nat, byteBudget: int, graphemeBudget: nat)
    requires input.Valid() && r < input.rows
    ensures var row := ProjectRow(seg, input, r, byteBudget, graphemeBudget);
            (row.Ok? <==> RowProjects(input, r)) && (row.Err? ==> row.error == InvalidProjection)
  {
    hide RowOf, ValidCells, LogicalToVisual, Collect, ContentEnd, TerminalInput.Valid, TerminalInput.Row;
  }

  /** The row loop is refused exactly when a row it reaches does not project, and then always for the projection. */
  lemma {:induction false} RowsOutcome(seg: Segmenter, input: TerminalInput, n: nat, byteBudget: int,
                                       graphemeBudget: nat)
    requires input.Valid() && n <= input.rows
    ensures var rows := ProjectRows(seg, input, n, byteBudget, graphemeBudget);
            && (rows.Bad? <==>
                  exists r :: 0 <= r < n && Reached(seg, input, r, byteBudget, graphemeBudget)
                              && !RowProjects(input, r))
            && (rows.Bad? ==> rows.error == InvalidProjection)
  {
    hide ProjectRow, RowProjects, TerminalInput.Valid;
    if n > 0 {
      RowsOutcome(seg, input, n - 1, byteBudget, graphemeBudget);
      var before := ProjectRows(seg, input, n - 1, byteBudget, graphemeBudget);
      if before.Going? {
        RowOutcome(seg, input, n - 1, before.bytes, before.graphemes);
        assert Reached(seg, input, n - 1, byteBudget, graphemeBudget);
      }
    }
  }

  /** What a pane is projected from: a valid input, budgets that are not overdrawn, and rows that project as far as the
      budgets reach. */
  ghost predicate ProjectsWithin(seg: Segmenter, input: TerminalInput, rowBudget: int, byteBudget: int,
                                 graphemeBudget: int) {
    && input.Valid() && rowBudget >= 0 && byteBudget >= 0 && graphemeBudget >= 0
    && forall r :: 0 <= r < Min(input.rows, rowBudget) && Reached(seg, input, r, byteBudget, graphemeBudget) ==>
         RowProjects(input, r)
  }

  /** A pane projects exactly then; otherwise the projection is refused as invalid and as nothing else. */
  lemma NodeProjects(seg: Segmenter, input: TerminalInput, rowBudget: int, byteBudget: int, graphemeBudget: int)
    ensures var node := ProjectNode(seg, input, rowBudget, byteBudget, graphemeBudget);
            && (node.Ok? <==> ProjectsWithin(seg, input, rowBudget, byteBudget, graphemeBudget))
            && (node.Err? ==> node.error == InvalidProjection)
  {
    hide ProjectRows, RowProjects, Reached, PaneOf, WithOffsets;
    if input.Valid() && rowBudget >= 0 && byteBudget >= 0 && graphemeBudget >= 0 {
      ValidParts(input);
      hide TerminalInput.Valid;
      RowsOutcome(seg, input, Min(input.rows, rowBudget), byteBudget, graphemeBudget);
    }
  }

  /** What a terminal is projected from: a valid input whose rows project as far as the limits reach. */
  ghost predicate Projects(seg: Segmenter, input: TerminalInput) {
    && input.Valid()
    && forall r :: 0 <= r < Min(input.rows, MAX_ROWS)
                   && Reached(seg, input, r, MAX_UTF8_BYTES - |input.rootName| - |input.paneName|, MAX_GRAPHEMES) ==>
         RowProjects(input, r)
  }

  /** So with a terminal alone. */
  lemma PaneProjects(seg: Segmenter, input: TerminalInput)
    ensures ProjectPane(seg, input).Ok? <==> Projects(seg, input)
    ensures ProjectPane(seg, input).Err? ==> ProjectPane(seg, input).error == InvalidProjection
  {
    hide ProjectNode, RowProjects, Reached;
    NodeProjects(seg, input, MAX_ROWS, MAX_UTF8_BYTES - |input.rootName| - |input.paneName|, MAX_GRAPHEMES);
    if input.Valid() {
      ValidParts(input);
      hide TerminalInput.Valid;
    }
  }

  /** End to end, a terminal becomes a document if and only if it projects, its generation is below the maximum, its
      pane has an activation, its selection is not reversed and the counter is not exhausted. What can be wrong is a
      projection, a generation, an activation, a reversed selection or the counter: never bounds, never text. */
  lemma TerminalResultKnown(seg: Segmenter, input: TerminalInput, last: uint64) returns (rows: seq<TerminalRow>)
    ensures ProjectPane(seg, input).Ok? ==>
              && ProjectPane(seg, input).value.node == PaneOf(input, rows)
              && RowsSound(seg, rows, input.cols) && RowsFollow(rows)
              && RowsOfPane(input, rows, ProjectPane(seg, input).value.truncated)
    ensures var result := TerminalResult(seg, input, last);
            && (result.Ok? <==>
                  && Projects(seg, input) && input.generation != MAX_UINT64 && input.paneID.activation != 0
                  && !SelectionReversed(input, rows) && last != MAX_UINT64)
            && (result.Err? ==>
                  result.error == if !Projects(seg, input) then InvalidProjection
                                  else if input.generation == MAX_UINT64 then InvalidDocument
                                  else if input.paneID.activation == 0 then InvalidIdentity(ActivationFault)
                                  else if SelectionReversed(input, rows) then InvalidRange
                                  else CounterExhausted)
  {
    PaneProjects(seg, input);
    hide ProjectPane, Projects, PaneOf, SelectionReversed, Compile, TerminalDraft, RowsSound, RowsFollow, OffsetOf;
    rows := [];
    if ProjectPane(seg, input).Ok? {
      rows := TerminalOutcome(seg, input);
    }
  }

  /** A pane whose selection came out backwards refuses the terminal. */
  lemma BackwardSelectionIsRefused(seg: Segmenter, input: TerminalInput, last: uint64)
    requires input.Valid() && ProjectPane(seg, input).Ok?
    requires SelectionFails(ProjectPane(seg, input).value.node)
    requires input.generation != MAX_UINT64 && input.paneID.activation != 0
    ensures TerminalResult(seg, input, last) == Err(InvalidRange)
  {
    var rows := TerminalResultKnown(seg, input, last);
    PaneProjects(seg, input);
    ValidCols(input);
    hide ProjectPane, Projects, PaneOf, SelectionReversed, SelectionFails, TerminalResult, RowsFollow, RowsSound;
    PaneSelection(input, rows);
  }

  lemma ValidCols(input: TerminalInput)
    requires input.Valid()
    ensures input.cols > 0
  {
  }

  /** The pane of the compiled document: every kept row begins where the projection put it and ends there too,
      unless it is a last row that the budgets cut; every kept grapheme is the cluster the projection placed at its
      offset; and the caret and the selection are the projected ones, moved back only where they lay beyond what
      was kept. */
  lemma OffsetsAgree(seg: Segmenter, input: TerminalInput, rows: seq<TerminalRow>, document: Document)
    requires ProjectPane(seg, input).Ok? && ProjectPane(seg, input).value.node == PaneOf(input, rows)
    requires RowsSound(seg, rows, input.cols)
    requires Compile(seg, TerminalDraft(input, ProjectPane(seg, input).value)) == Ok(document)
    ensures |document.nodes| == 2
    ensures var node := document.nodes[1];
            && (exists cut :: Agrees(node.rows, node.graphemes, rows, cut) && (cut ==> document.truncated))
            && (forall i, j ::
                  0 <= i < |rows| && 0 <= j < |rows[i].clusters| && OffsetOf(rows, i) + j < |node.graphemes| ==>
                  node.graphemes[OffsetOf(rows, i) + j] == rows[i].clusters[j].text)
            && (CaretOf(input, rows).Some? ==>
                   node.hasCaret && node.caret == Min(CaretOf(input, rows).value, |node.graphemes|))
            && (SelectionOf(input, rows).Some? ==>
                   node.hasSelect && node.selection == Clipped(SelectionOf(input, rows).value, |node.graphemes|))
  {
    hide *;
    var pane := ProjectPane(seg, input).value;
    var draft := TerminalDraft(input, pane);
    DraftOfPane(input, pane);
    CompileKeeps(seg, draft);
    PaneRows(seg, draft, document, input, rows);
    SoundAt(seg, document.nodes, draft.nodes, 1);
    SoundGraphemes(seg, input, rows, document.nodes[1]);
  }

  lemma DraftOfPane(input: TerminalInput, pane: ProjectedNode)
    ensures KeptNodes(TerminalDraft(input, pane)) == 2 && |TerminalDraft(input, pane).nodes| == 2
    ensures TerminalDraft(input, pane).nodes[1] == pane.node
  {
  }

  lemma SoundAt(seg: Segmenter, nodes: seq<DocumentNode>, drafts: seq<NodeDraft>, i: nat)
    requires i < |nodes| <= |drafts| && AllSound(seg, nodes, drafts)
    ensures NodeSound(seg, drafts[i], nodes[i])
  {
  }

  /** The kept graphemes of a sound pane are the clusters of the projected rows, and its caret is the projected one. */
  lemma SoundGraphemes(seg: Segmenter, input: TerminalInput, rows: seq<TerminalRow>, node: DocumentNode)
    requires NodeSound(seg, PaneOf(input, rows), node) && RowsSound(seg, rows, input.cols)
    ensures forall i, j ::
              0 <= i < |rows| && 0 <= j < |rows[i].clusters| && OffsetOf(rows, i) + j < |node.graphemes| ==>
              node.graphemes[OffsetOf(rows, i) + j] == rows[i].clusters[j].text
    ensures CaretOf(input, rows).Some? ==>
        node.hasCaret && node.caret == Min(CaretOf(input, rows).value, |node.graphemes|)
    ensures SelectionOf(input, rows).Some? ==>
        node.hasSelect && node.selection == Clipped(SelectionOf(input, rows).value, |node.graphemes|)
  {
    hide *;
    SoundPrefix(seg, PaneOf(input, rows), node);
    SoundCaret(seg, PaneOf(input, rows), node);
    PaneParts(seg, input, rows);
    forall i, j | 0 <= i < |rows| && 0 <= j < |rows[i].clusters| && OffsetOf(rows, i) + j < |node.graphemes|
      ensures node.graphemes[OffsetOf(rows, i) + j] == rows[i].clusters[j].text
    {
      ClusterAtOffset(seg, rows, |rows|, i, j);
    }
  }

  lemma PaneParts(seg: Segmenter, input: TerminalInput, rows: seq<TerminalRow>)
    requires RowsSound(seg, rows, input.cols)
    ensures PaneOf(input, rows).rows == DraftsOfRows(rows) == DraftsOfRows(rows)[..|rows|]
    ensures PaneOf(input, rows).caret == CaretOf(input, rows)
    ensures PaneOf(input, rows).selection == SelectionOf(input, rows)
    ensures forall k :: 0 <= k < |rows| ==> RowAcceptable(seg, rows[k])
  {
  }

  lemma SoundPrefix(seg: Segmenter, draft: NodeDraft, node: DocumentNode)
    requires NodeSound(seg, draft, node)
    ensures node.graphemes <= Unbudgeted(seg, draft.rows)
  {
  }

  lemma SoundCaret(seg: Segmenter, draft: NodeDraft, node: DocumentNode)
    requires NodeSound(seg, draft, node)
    ensures node.hasCaret == draft.caret.Some?
    ensures draft.caret.Some? ==> node.caret == Min(draft.caret.value, |node.graphemes|)
    ensures node.hasSelect == draft.selection.Some?
    ensures draft.selection.Some? ==> node.selection == Clipped(draft.selection.value, |node.graphemes|)
  {
  }

  lemma PaneRows(seg: Segmenter, draft: DocumentDraft, document: Document, input: TerminalInput, rows: seq<TerminalRow>)
    requires |draft.nodes| == 2 && draft.nodes[1] == PaneOf(input, rows)
    requires RowsSound(seg, rows, input.cols)
    requires Compile(seg, draft) == Ok(document)
    ensures |document.nodes| == 2
    ensures exists cut ::
              Agrees(document.nodes[1].rows, document.nodes[1].graphemes, rows, cut) && (cut ==> document.truncated)
  {
    hide Agrees, RowsSound, PaneOf, AddNode;
    var d := AddNodes(seg, draft.nodes, 1, draft.truncated).value;
    NodeCount(seg, draft.nodes, 1, draft.truncated);
    var e := AddNode(seg, d, draft.nodes[1], 1, draft.nodes[0].id.projection).value;
    assert AddNodes(seg, draft.nodes, 2, draft.truncated) == Ok(e);
    assert document.nodes == e.nodes && document.truncated == e.truncated;
    PaneNodeRows(seg, d, input, rows, draft.nodes[0].id.projection);
  }

  lemma PaneNodeRows(seg: Segmenter, d: Partial, input: TerminalInput, rows: seq<TerminalRow>, projection: uint64)
    requires AddNode(seg, d, PaneOf(input, rows), 1, projection).Ok?
    requires RowsSound(seg, rows, input.cols)
    ensures var e := AddNode(seg, d, PaneOf(input, rows), 1, projection).value;
            && |e.nodes| == |d.nodes| + 1
            && var node := e.nodes[|d.nodes|];
               exists cut :: Agrees(node.rows, node.graphemes, rows, cut) && (cut ==> e.truncated)
  {
    var draft := PaneOf(input, rows);
    var named := NamedDraft(draft, d.totals);
    AddRowsAgrees(seg, Charged(d.totals, named), rows, |rows|);
    hide AddRows, Agrees, RowsSound, DraftsOfRows, CaretOf, SelectionOf, ValidateNode;
    var step := AddRows(seg, Charged(d.totals, named), named.rows, |named.rows|);
    assert named.rows == DraftsOfRows(rows);
    var built := BuildNode(seg, Charged(d.totals, named), named).value;
    assert built.node.rows == step.progress.rows && built.node.graphemes == step.progress.graphemes;
    assert step.Stopped? ==> built.stopped;
    var e := AddNode(seg, d, draft, 1, projection).value;
    assert e == Attach(d, NameIsCut(draft, d.totals), built);
    assert e.nodes[|d.nodes|] == built.node;
    assert Agrees(e.nodes[|d.nodes|].rows, e.nodes[|d.nodes|].graphemes, rows, step.Stopped?)
        && (step.Stopped? ==> e.truncated);
  }
}
