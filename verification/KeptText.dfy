/** Nothing is left out that there was room for: what a document keeps of a draft and a pane of its terminal goes as far
    as the limits and the budgets allow. */
module KeptText {
  import opened Types
  import opened Utf8
  import opened Graphemes
  import opened DocumentSpec
  import opened DocumentProperties
  import opened TerminalSpec
  import opened TerminalDocument
  import opened TerminalLimits
  import opened CellMeaning
  import opened PaneMeaning

  /** The rows were cut because the document has no row left, or because the next grapheme does not fit. */
  ghost predicate CutAtLimit(seg: Segmenter, drafts: seq<RowDraft>, rows: nat, graphemes: nat, totals: Totals) {
    || (totals.rows == 512 && rows < |drafts|)
    || (graphemes < |Unbudgeted(seg, drafts)|
        && (totals.graphemes == 16_384
            || totals.utf8Bytes + |Unbudgeted(seg, drafts)[graphemes]| > 1_048_576))
  }

  /** Why a row step stopped, if it did. */
  ghost predicate StoppedAtLimit(seg: Segmenter, step: Step, drafts: seq<RowDraft>) {
    step.Stopped? ==>
      CutAtLimit(seg, drafts, |step.progress.rows|, |step.progress.graphemes|, step.progress.totals)
  }

  lemma CutLater(seg: Segmenter, drafts: seq<RowDraft>, draft: RowDraft, rows: nat, graphemes: nat, totals: Totals)
    requires CutAtLimit(seg, drafts, rows, graphemes, totals)
    ensures CutAtLimit(seg, drafts + [draft], rows, graphemes, totals)
  {
    hide Unbudgeted, Separator;
    UnbudgetedAppend(seg, drafts, draft);
  }

  lemma TakenMost(seg: Segmenter, p: Progress, draft: RowDraft, full: seq<Text>, k: nat)
    requires p.totals.WithinLimits() && k < |seg(draft.text)|
    requires k == Fits(seg(draft.text), p.totals.graphemes, p.totals.utf8Bytes)
    requires full == p.graphemes + seg(draft.text)
    ensures var q := p.WithRow(draft, seg(draft.text)[..k]);
            && |q.graphemes| < |full|
            && (q.totals.graphemes == 16_384 || q.totals.utf8Bytes + |full[|q.graphemes|]| > 1_048_576)
  {
    var pieces := seg(draft.text);
    FitsIsMaximal(pieces, p.totals.graphemes, p.totals.utf8Bytes);
    hide Fits, Concat;
    assert pieces[..k + 1] == pieces[..k] + [pieces[k]];
    ConcatOne(pieces[..k], pieces[k]);
    assert full[|p.graphemes| + k] == pieces[k];
  }

  lemma SeparatedWithin(p: Progress)
    requires p.totals.WithinLimits() && !(p.NeedsSeparator() && p.Full())
    ensures p.Separated().totals.WithinLimits()
  {
  }

  lemma RowStops(seg: Segmenter, p: Progress, drafts: seq<RowDraft>, draft: RowDraft)
    requires AllRowsComplete(p, seg, drafts) && p.totals.WithinLimits()
    ensures StoppedAtLimit(seg, AddRow(seg, p, draft), drafts + [draft])
  {
    UnbudgetedAppend(seg, drafts, draft);
    SeparatedCopies(seg, p, drafts);
    var q, full := p.Separated(), Unbudgeted(seg, drafts + [draft]);
    var pieces := seg(draft.text);
    var k := Fits(pieces, q.totals.graphemes, q.totals.utf8Bytes);
    hide Unbudgeted, Fits, BoundsMatch, ValidUtf8, Concat;
    if p.totals.rows < MAX_ROWS && !(p.NeedsSeparator() && p.Full()) && k < |pieces| {
      SeparatedWithin(p);
      TakenMost(seg, q, draft, full, k);
    } else if p.totals.rows < MAX_ROWS && p.NeedsSeparator() {
      assert full[|p.graphemes|] == NEWLINE;
    }
  }

  lemma {:induction false} RowsStop(seg: Segmenter, start: Totals, drafts: seq<RowDraft>, n: nat)
    requires n <= |drafts| && start.WithinLimits()
    ensures StoppedAtLimit(seg, AddRows(seg, start, drafts, n), drafts[..n])
  {
    hide AddRow, CutAtLimit, AllRowsComplete, Tiles, Copies;
    if n > 0 {
      RowsStop(seg, start, drafts, n - 1);
      AddRowsKeeps(seg, start, drafts, n - 1);
      var before := AddRows(seg, start, drafts, n - 1);
      assert drafts[..n] == drafts[..n - 1] + [drafts[n - 1]];
      if before.More? {
        RowStops(seg, before.progress, drafts[..n - 1], drafts[n - 1]);
      } else if before.Stopped? {
        var p := before.progress;
        CutLater(seg, drafts[..n - 1], drafts[n - 1], |p.rows|, |p.graphemes|, p.totals);
      }
    }
  }

  /** The node keeps all rows and their text, or was cut at a limit. */
  ghost predicate KeepsMost(seg: Segmenter, drafts: seq<RowDraft>, node: DocumentNode, totals: Totals) {
    || (|node.rows| == |drafts| && node.graphemes == Unbudgeted(seg, drafts))
    || CutAtLimit(seg, drafts, |node.rows|, |node.graphemes|, totals)
  }

  lemma NodeKeepsMost(seg: Segmenter, start: Totals, draft: NodeDraft)
    requires start.WithinLimits() && BuildNode(seg, start, draft).Ok?
    ensures var built := BuildNode(seg, start, draft).value; KeepsMost(seg, draft.rows, built.node, built.totals)
  {
    var n := |draft.rows|;
    AddRowsKeeps(seg, start, draft.rows, n);
    RowsStop(seg, start, draft.rows, n);
    assert draft.rows[..n] == draft.rows;
    hide AddRows, CutAtLimit, Unbudgeted, Copies, Concat, Tiles;
  }

  /** Each row has rectangles of its draft, from the first on. */
  ghost predicate BoundsOfDrafts(rows: seq<DocumentRow>, drafts: seq<RowDraft>) {
    |rows| <= |drafts| && forall i :: 0 <= i < |rows| ==> rows[i].bounds <= drafts[i].bounds
  }

  lemma RowBoundsFollow(seg: Segmenter, p: Progress, draft: RowDraft)
    ensures var step := AddRow(seg, p, draft);
            || step.Failed? || (step.Stopped? && step.progress.rows == p.rows)
            || (|step.progress.rows| == |p.rows| + 1 && step.progress.rows[..|p.rows|] == p.rows
                && step.progress.rows[|p.rows|].bounds <= draft.bounds)
  {
    hide Fits, Concat, ValidUtf8, BoundsMatch;
  }

  lemma {:induction false} BoundsFollow(seg: Segmenter, start: Totals, drafts: seq<RowDraft>, n: nat)
    requires n <= |drafts|
    ensures var step := AddRows(seg, start, drafts, n);
            step.Failed? || (BoundsOfDrafts(step.progress.rows, drafts) && |step.progress.rows| <= n
                             && (step.More? ==> |step.progress.rows| == n))
  {
    hide AddRow, BoundsOfDrafts;
    if n == 0 {
      BoundsOfNone(drafts);
    } else {
      BoundsFollow(seg, start, drafts, n - 1);
      var before := AddRows(seg, start, drafts, n - 1);
      if before.More? {
        RowBoundsFollow(seg, before.progress, drafts[n - 1]);
        MoreAdds(seg, before.progress, drafts[n - 1]);
        var step := AddRow(seg, before.progress, drafts[n - 1]);
        if !step.Failed? && step.progress.rows != before.progress.rows {
          BoundsOfMore(before.progress.rows, step.progress.rows, drafts);
        }
      }
    }
  }

  lemma BoundsOfNone(drafts: seq<RowDraft>)
    ensures BoundsOfDrafts([], drafts)
  {
  }

  lemma MoreAdds(seg: Segmenter, p: Progress, draft: RowDraft)
    ensures AddRow(seg, p, draft).More? ==> |AddRow(seg, p, draft).progress.rows| == |p.rows| + 1
  {
    hide Fits, Concat, ValidUtf8, BoundsMatch;
  }

  lemma BoundsOfMore(rows: seq<DocumentRow>, more: seq<DocumentRow>, drafts: seq<RowDraft>)
    requires BoundsOfDrafts(rows, drafts) && |rows| < |drafts|
    requires |more| == |rows| + 1 && more[..|rows|] == rows && more[|rows|].bounds <= drafts[|rows|].bounds
    ensures BoundsOfDrafts(more, drafts)
  {
    forall i | 0 <= i < |more|
      ensures more[i].bounds <= drafts[i].bounds
    {
      if i < |rows| {
        assert more[..|rows|][i] == rows[i];
      }
    }
  }

  lemma NodeKeepsBounds(seg: Segmenter, start: Totals, draft: NodeDraft)
    requires BuildNode(seg, start, draft).Ok?
    ensures BoundsOfDrafts(BuildNode(seg, start, draft).value.node.rows, draft.rows)
  {
    BoundsFollow(seg, start, draft.rows, |draft.rows|);
    hide AddRows, Concat, BoundsOfDrafts;
  }

  /** The longest well-formed beginning of the text within the limit. */
  ghost predicate IsLongest(kept: Text, text: Text, limit: int) {
    && kept <= text && ValidUtf8(kept) && |kept| <= limit
    && forall other :: other <= text && ValidUtf8(other) && |other| <= limit ==> |other| <= |kept|
  }

  lemma NamedIsShortened(draft: NodeDraft, totals: Totals)
    requires totals.WithinLimits()
    ensures NamedDraft(draft, totals).name == Shortened(draft.name, MAX_UTF8_BYTES - totals.utf8Bytes)
  {
    hide RuneCut;
  }

  lemma NameIsLongest(draft: NodeDraft, totals: Totals)
    requires totals.WithinLimits() && ValidUtf8(draft.name)
    ensures IsLongest(NamedDraft(draft, totals).name, draft.name, MAX_UTF8_BYTES - totals.utf8Bytes)
  {
    hide ValidUtf8, Shortened, NamedDraft;
    NamedIsShortened(draft, totals);
    var limit := MAX_UTF8_BYTES - totals.utf8Bytes;
    ShortenedIsLongest(draft.name, limit, []);
    forall other | other <= draft.name && ValidUtf8(other) && |other| <= limit
      ensures |other| <= |Shortened(draft.name, limit)|
    {
      ShortenedIsLongest(draft.name, limit, other);
    }
  }

  /** All of the draft's name, rows and rectangles that the nodes before it and the limits leave room for. */
  ghost predicate NodeKept(seg: Segmenter, draft: NodeDraft, node: DocumentNode, before: Totals, after: Totals) {
    && IsLongest(node.name, draft.name, 1_048_576 - before.utf8Bytes)
    && KeepsMost(seg, draft.rows, node, after) && BoundsOfDrafts(node.rows, draft.rows)
  }

  lemma AddedIsKept(seg: Segmenter, d: Partial, draft: NodeDraft, position: nat, projection: uint64)
    requires d.totals.WithinLimits() && d.totals == SumTotals(d.nodes)
    requires AddNode(seg, d, draft, position, projection).Ok?
    ensures var e := AddNode(seg, d, draft, position, projection).value;
            && |e.nodes| == |d.nodes| + 1 && e.nodes[..|d.nodes|] == d.nodes
            && NodeKept(seg, draft, e.nodes[|d.nodes|], SumTotals(d.nodes), SumTotals(e.nodes))
  {
    hide *;
    AddedNode(seg, d, draft, position, projection);
    WhatIsAdded(seg, d, draft, position, projection);
    var named := NamedDraft(draft, d.totals);
    var start := Charged(d.totals, named);
    NamedIsWithin(draft, d.totals);
    NameIsLongest(draft, d.totals);
    BuildNodeKeeps(seg, start, named);
    NodeKeepsMost(seg, start, named);
    NodeKeepsBounds(seg, start, named);
    IsKept(seg, draft, named, BuildNode(seg, start, named).value, d.totals);
  }

  lemma WhatIsAdded(seg: Segmenter, d: Partial, draft: NodeDraft, position: nat, projection: uint64)
    requires AddNode(seg, d, draft, position, projection).Ok?
    ensures ValidUtf8(draft.name)
    ensures var e, named := AddNode(seg, d, draft, position, projection).value, NamedDraft(draft, d.totals);
            var built := BuildNode(seg, Charged(d.totals, named), named);
            built.Ok? && e.nodes == d.nodes + [built.value.node] && e.totals == built.value.totals
  {
    hide ValidUtf8, NamedDraft, BuildNode;
  }

  lemma NamedIsWithin(draft: NodeDraft, totals: Totals)
    requires totals.WithinLimits() && ValidUtf8(draft.name)
    ensures var named := NamedDraft(draft, totals);
            named.rows == draft.rows && Charged(totals, named).WithinLimits()
  {
    hide ValidUtf8, NamedDraft;
    NamedKeeps(draft, totals);
  }

  lemma IsKept(seg: Segmenter, draft: NodeDraft, named: NodeDraft, built: Built, before: Totals)
    requires IsLongest(named.name, draft.name, MAX_UTF8_BYTES - before.utf8Bytes) && named.rows == draft.rows
    requires built.node.name == named.name && KeepsMost(seg, named.rows, built.node, built.totals)
    requires BoundsOfDrafts(built.node.rows, named.rows)
    ensures NodeKept(seg, draft, built.node, before, built.totals)
  {
    hide IsLongest, KeepsMost, BoundsOfDrafts;
  }

  lemma {:induction false} AddNodesKeepMost(seg: Segmenter, drafts: seq<NodeDraft>, n: nat, truncated: bool, i: nat)
    requires i < n <= |drafts| && AddNodes(seg, drafts, n, truncated).Ok?
    ensures var nodes := AddNodes(seg, drafts, n, truncated).value.nodes;
            |nodes| == n
            && NodeKept(seg, drafts[i], nodes[i], SumTotals(nodes[..i]), SumTotals(nodes[..i + 1]))
    decreases n
  {
    hide AddNode, SumTotals, NodeKept;
    var d, e := AddNodes(seg, drafts, n - 1, truncated).value, AddNodes(seg, drafts, n, truncated).value;
    PartialIs(seg, drafts, n - 1, truncated);
    AddedIsKept(seg, d, drafts[n - 1], n - 1, drafts[0].id.projection);
    if i < n - 1 {
      AddNodesKeepMost(seg, drafts, n - 1, truncated, i);
      assert e.nodes[..i] == d.nodes[..i] && e.nodes[..i + 1] == d.nodes[..i + 1] && e.nodes[i] == d.nodes[i];
    } else {
      assert e.nodes[..i] == d.nodes && e.nodes[..i + 1] == e.nodes;
    }
  }

  lemma PartialIs(seg: Segmenter, drafts: seq<NodeDraft>, n: nat, truncated: bool)
    requires n <= |drafts| && AddNodes(seg, drafts, n, truncated).Ok?
    ensures var d := AddNodes(seg, drafts, n, truncated).value;
            |d.nodes| == n && d.totals.WithinLimits() && d.totals == SumTotals(d.nodes)
  {
    AddNodesKeeps(seg, drafts, n, truncated);
    hide AddNodes, SumTotals, Indexed, ParentsFirst, AllSound, SomethingLost;
  }

  /** Every document keeps of each node the longest name that fits, and its rows and their text to the end or up to a
      limit: no row was left, no grapheme, or the next one has more bytes than were left. */
  lemma DocumentKeepsMost(seg: Segmenter, draft: DocumentDraft, i: nat)
    requires Compile(seg, draft).Ok? && i < |draft.nodes| && i < 256
    ensures var nodes := Compile(seg, draft).value.nodes;
            i < |nodes|
            && NodeKept(seg, draft.nodes[i], nodes[i], SumTotals(nodes[..i]), SumTotals(nodes[..i + 1]))
  {
    hide AddNodes, SumTotals, NodeKept;
    AddNodesKeepMost(seg, draft.nodes, KeptNodes(draft), draft.truncated || |draft.nodes| > MAX_NODES, i);
  }

  /** The text ends before a cell whose text does not fit the bytes any more. */
  ghost predicate NextDoesNotFit(cells: seq<TerminalCell>, n: nat, text: Text, bytes: int)
    requires n <= |cells|
  {
    exists m :: 0 <= m < n && text == Written(cells, m) && Writes(cells[m]) && |text| + |cells[m].text| > bytes
  }

  /** A row that was cut holds as many clusters as there was room for, or ends before a cell that does not fit. */
  lemma RowCutAt(seg: Segmenter, input: TerminalInput, r: nat, byteBudget: int, graphemeBudget: nat)
    requires input.Valid() && r < input.rows && byteBudget >= 0
    requires ProjectRow(seg, input, r, byteBudget, graphemeBudget).Ok?
    requires ProjectRow(seg, input, r, byteBudget, graphemeBudget).value.truncated
    ensures var row, cells := ProjectRow(seg, input, r, byteBudget, graphemeBudget).value.row, GridRow(input, r);
            |row.clusters| == graphemeBudget || NextDoesNotFit(cells, ContentEnd(cells), row.text, byteBudget)
  {
    RowIsGridRow(input, r);
    var cells := input.Row(r);
    var collected := Collect(cells, ContentEnd(cells), byteBudget);
    hide Collect, ContentEnd, ValidCells, TerminalInput.Valid, TerminalInput.Row, GridRow, Written, ClusterAt,
         WrittenAreHeld, ChunksHoldText, Writes;
    var m := CollectHoldsCells(cells, ContentEnd(cells), byteBudget);
    WholeRow(seg, input, r, collected, LogicalToVisual(input.Order(r), input.cols).value, graphemeBudget);
  }

  lemma WholeRow(seg: Segmenter, input: TerminalInput, r: nat, collected: Collected, inverse: seq<int>,
                 graphemeBudget: nat)
    requires input.Valid() && r < input.rows
    ensures var projected := RowOf(seg, input, r, collected, inverse, graphemeBudget);
            && (projected.truncated ==>
                  |projected.row.clusters| == graphemeBudget
                  || (collected.truncated && projected.row.text == collected.text))
  {
    hide ClusterAt, TerminalInput.Valid, Concat;
    SegmentLaws(seg, collected.text);
    var pieces := seg(collected.text);
    assert pieces[..|pieces|] == pieces;
  }

  /** The row that ended the loop, and what the rows before it left. */
  lemma {:induction false} LastRowCut(seg: Segmenter, input: TerminalInput, n: nat, byteBudget: int,
                                      graphemeBudget: nat)
    requires input.Valid() && n <= input.rows && byteBudget >= 0
    requires ProjectRows(seg, input, n, byteBudget, graphemeBudget).Cut?
    ensures var rows := DraftsOfRows(ProjectRows(seg, input, n, byteBudget, graphemeBudget).rows);
            0 < |rows| <= n && CutAtBudget(seg, input, rows, byteBudget, graphemeBudget)
  {
    hide ProjectRow, TerminalInput.Valid, DraftsOfRows, CutAtBudget;
    var before := ProjectRows(seg, input, n - 1, byteBudget, graphemeBudget);
    if before.Cut? {
      LastRowCut(seg, input, n - 1, byteBudget, graphemeBudget);
    } else {
      RowsAreWithin(seg, input, n - 1, byteBudget, graphemeBudget);
      RowCutAt(seg, input, n - 1, before.bytes, before.graphemes);
      RowIsWithin(seg, input, n - 1, before.bytes, before.graphemes);
      var row := ProjectRow(seg, input, n - 1, before.bytes, before.graphemes).value.row;
      DraftsAppend(before.rows, row);
      RowEndsHere(seg, input, DraftsOfRows(before.rows), DraftOfRow(row), |row.clusters|, before.bytes,
                  before.graphemes, byteBudget, graphemeBudget);
    }
  }

  /** The last row holds the last cluster of the budget, or ends before a cell whose text does not fit what the rows
      before it left of the bytes. */
  ghost predicate CutAtBudget(seg: Segmenter, input: TerminalInput, rows: seq<RowDraft>, byteBudget: int,
                              graphemeBudget: int)
    requires input.Valid() && 0 < |rows| <= input.rows
  {
    var last := |rows| - 1;
    var cells := GridRow(input, last);
    || Clusters(seg, rows) == graphemeBudget
    || NextDoesNotFit(cells, ContentEnd(cells), rows[last].text, byteBudget - TextBytes(rows[..last]))
  }

  lemma RowEndsHere(seg: Segmenter, input: TerminalInput, before: seq<RowDraft>, row: RowDraft, clusters: nat,
                    bytes: int, graphemes: int, byteBudget: int, graphemeBudget: int)
    requires input.Valid() && |before| < input.rows && clusters == |seg(row.text)|
    requires graphemes == graphemeBudget - Clusters(seg, before) && bytes == byteBudget - TextBytes(before)
    requires var cells := GridRow(input, |before|);
             clusters == graphemes || NextDoesNotFit(cells, ContentEnd(cells), row.text, bytes)
    ensures CutAtBudget(seg, input, before + [row], byteBudget, graphemeBudget)
  {
    hide GridRow, TerminalInput.Valid, ContentEnd, NextDoesNotFit, TextBytes, Clusters;
    CountsAppend(seg, before, row);
    assert (before + [row])[..|before|] == before;
  }

  /** A pane leaves rows out only if the budget has no row left, and the end of its last row only where a budget
      ends. */
  lemma PaneKeepsMost(seg: Segmenter, input: TerminalInput, rowBudget: int, byteBudget: int, graphemeBudget: int)
    requires ProjectNode(seg, input, rowBudget, byteBudget, graphemeBudget).Ok?
    ensures input.Valid()
    ensures var rows := ProjectNode(seg, input, rowBudget, byteBudget, graphemeBudget).value.node.rows;
            && |rows| <= input.rows
            && (|rows| < input.rows ==>
                  |rows| == rowBudget || (rows != [] && rows[|rows| - 1].text != RowText(input, |rows| - 1)))
            && (rows != [] && rows[|rows| - 1].text != RowText(input, |rows| - 1) ==>
                  CutAtBudget(seg, input, rows, byteBudget, graphemeBudget))
  {
    var pane := ProjectNode(seg, input, rowBudget, byteBudget, graphemeBudget).value;
    hide TerminalInput.Valid, ProjectRows, PaneOf, WithOffsets, RowText, ProjectRow, DraftsOfRows, CutAtBudget;
    var limit := Min(input.rows, rowBudget);
    ValidParts(input);
    RowsCounted(seg, input, limit, byteBudget, graphemeBudget);
    var projected := ProjectRows(seg, input, limit, byteBudget, graphemeBudget);
    OffsetsKeepDrafts(projected.rows);
    PaneRowsOf(input, WithOffsets(projected.rows));
    if projected.rows != [] {
      var r := |projected.rows| - 1;
      PlacedDraft(input, projected.rows, r);
      var bytes, graphemes := RowComesFrom(seg, input, limit, byteBudget, graphemeBudget, r);
      RowIsShown(seg, input, r, bytes, graphemes);
    }
    if projected.Cut? {
      LastRowCut(seg, input, limit, byteBudget, graphemeBudget);
    }
  }
}
