/** The rows of a built document: each is segmented as its own text is, and keeps its rectangles. */
module DocumentRows {
  import opened Types
  import opened Utf8
  import opened Graphemes
  import opened DocumentSpec

  /** The graphemes a row covers are those of its text. */
  ghost predicate RowSegmented(seg: Segmenter, row: DocumentRow, graphemes: seq<Text>) {
    row.start <= row.end <= |graphemes| && graphemes[row.start..row.end] == seg(row.text)
  }

  ghost predicate RowsSegmented(seg: Segmenter, rows: seq<DocumentRow>, graphemes: seq<Text>) {
    forall i :: 0 <= i < |rows| ==> RowSegmented(seg, rows[i], graphemes)
  }

  /** The row has a rectangle for every grapheme it covers. */
  predicate RowBounded(row: DocumentRow) {
    |row.bounds| == row.end - row.start
  }

  /** Every row has a rectangle for every grapheme, as those of projected terminals have. */
  ghost predicate FullyBounded(node: DocumentNode) {
    forall i :: 0 <= i < |node.rows| ==> RowBounded(node.rows[i])
  }

  /** The draft of a row has a rectangle for every grapheme. */
  ghost predicate DraftBounded(seg: Segmenter, draft: RowDraft) {
    |draft.bounds| == |seg(draft.text)|
  }

  ghost predicate DraftsBounded(seg: Segmenter, drafts: seq<RowDraft>) {
    forall i :: 0 <= i < |drafts| ==> DraftBounded(seg, drafts[i])
  }

  /** The row a draft adds covers the clusters taken, which are the graphemes of its text. */
  lemma NewRowSegmented(seg: Segmenter, p: Progress, draft: RowDraft, k: nat)
    requires k <= |seg(draft.text)|
    ensures var q := p.WithRow(draft, seg(draft.text)[..k]);
            RowSegmented(seg, q.rows[|p.rows|], q.graphemes)
  {
    SegmentLaws(seg, draft.text);
    var taken := seg(draft.text)[..k];
    SliceAppended(p.graphemes, taken);
  }

  lemma SegmentedLater(seg: Segmenter, rows: seq<DocumentRow>, graphemes: seq<Text>, more: seq<Text>)
    requires RowsSegmented(seg, rows, graphemes)
    ensures RowsSegmented(seg, rows, graphemes + more)
  {
    forall i | 0 <= i < |rows|
      ensures RowSegmented(seg, rows[i], graphemes + more)
    {
      assert RowSegmented(seg, rows[i], graphemes);
      assert (graphemes + more)[rows[i].start..rows[i].end] == graphemes[rows[i].start..rows[i].end];
    }
  }

  lemma RowsSegmentedGrow(seg: Segmenter, rows: seq<DocumentRow>, row: DocumentRow, graphemes: seq<Text>)
    requires RowsSegmented(seg, rows, graphemes) && RowSegmented(seg, row, graphemes)
    ensures RowsSegmented(seg, rows + [row], graphemes)
  {
  }

  lemma AddRowSegments(seg: Segmenter, p: Progress, draft: RowDraft)
    requires RowsSegmented(seg, p.rows, p.graphemes)
    ensures var step := AddRow(seg, p, draft);
            step.Failed? || RowsSegmented(seg, step.progress.rows, step.progress.graphemes)
  {
    hide RowsSegmented, RowSegmented, Fits, Concat, ValidUtf8, HasLineBreak, BoundsMatch;
    var q := p.Separated();
    var k := Fits(seg(draft.text), q.totals.graphemes, q.totals.utf8Bytes);
    var taken := seg(draft.text)[..k];
    var r := q.WithRow(draft, taken);
    SegmentedLater(seg, p.rows, p.graphemes, if p.NeedsSeparator() then [NEWLINE] else []);
    assert p.graphemes + [] == p.graphemes;
    SegmentedLater(seg, p.rows, q.graphemes, taken);
    NewRowSegmented(seg, q, draft, k);
    RowsSegmentedGrow(seg, p.rows, r.rows[|p.rows|], r.graphemes);
  }

  lemma {:induction false} AddRowsSegment(seg: Segmenter, start: Totals, drafts: seq<RowDraft>, n: nat)
    requires n <= |drafts|
    ensures var step := AddRows(seg, start, drafts, n);
            step.Failed? || RowsSegmented(seg, step.progress.rows, step.progress.graphemes)
  {
    hide AddRow;
    if n > 0 {
      AddRowsSegment(seg, start, drafts, n - 1);
      var before := AddRows(seg, start, drafts, n - 1);
      if before.More? {
        AddRowSegments(seg, before.progress, drafts[n - 1]);
      }
    }
  }

  /** Rows drafted with a rectangle for every grapheme keep one for every grapheme, wherever the budgets cut them. */
  lemma {:induction false} AddRowsBound(seg: Segmenter, start: Totals, drafts: seq<RowDraft>, n: nat)
    requires n <= |drafts| && DraftsBounded(seg, drafts)
    ensures var step := AddRows(seg, start, drafts, n);
            step.Failed? || forall i :: 0 <= i < |step.progress.rows| ==> RowBounded(step.progress.rows[i])
  {
    hide Fits, Concat, ValidUtf8, HasLineBreak, BoundsMatch;
    if n > 0 {
      AddRowsBound(seg, start, drafts, n - 1);
      assert DraftBounded(seg, drafts[n - 1]);
    }
  }

  /** A node of a document is what building its draft, up to its name, yields in some state of the counters. */
  lemma {:induction false} BuiltFrom(seg: Segmenter, drafts: seq<NodeDraft>, n: nat, truncated: bool, i: nat)
    returns (start: Totals, named: NodeDraft)
    requires i < n <= |drafts| && AddNodes(seg, drafts, n, truncated).Ok?
    ensures i < |AddNodes(seg, drafts, n, truncated).value.nodes| == n
    ensures named == drafts[i].(name := named.name) && BuildNode(seg, start, named).Ok?
    ensures AddNodes(seg, drafts, n, truncated).value.nodes[i] == BuildNode(seg, start, named).value.node
    decreases n
  {
    hide BuildNode, ValidateNode, Shortened;
    var d := AddNodes(seg, drafts, n - 1, truncated).value;
    NodeCount(seg, drafts, n - 1, truncated);
    if i < n - 1 {
      start, named := BuiltFrom(seg, drafts, n - 1, truncated, i);
    } else {
      named := NamedDraft(drafts[i], d.totals);
      start := Charged(d.totals, named);
    }
  }

  lemma {:induction false} NodeCount(seg: Segmenter, drafts: seq<NodeDraft>, n: nat, truncated: bool)
    requires n <= |drafts| && AddNodes(seg, drafts, n, truncated).Ok?
    ensures |AddNodes(seg, drafts, n, truncated).value.nodes| == n
  {
    hide BuildNode, ValidateNode, Shortened;
    if n > 0 {
      NodeCount(seg, drafts, n - 1, truncated);
    }
  }

  lemma BuiltRows(seg: Segmenter, start: Totals, draft: NodeDraft)
    requires BuildNode(seg, start, draft).Ok?
    ensures var node := BuildNode(seg, start, draft).value.node;
            && RowsSegmented(seg, node.rows, node.graphemes)
            && (DraftsBounded(seg, draft.rows) ==> FullyBounded(node))
  {
    AddRowsSegment(seg, start, draft.rows, |draft.rows|);
    if DraftsBounded(seg, draft.rows) {
      AddRowsBound(seg, start, draft.rows, |draft.rows|);
    }
    hide AddRows, RowsSegmented, DraftsBounded, Concat, RowBounded;
  }

  /** In every document each row covers exactly the graphemes of its text, and a node drafted with a rectangle for
      every grapheme has one for every grapheme. */
  lemma CompiledRows(seg: Segmenter, draft: DocumentDraft, i: nat)
    requires Compile(seg, draft).Ok? && i < KeptNodes(draft)
    ensures var document := Compile(seg, draft).value;
            && |document.nodes| == KeptNodes(draft)
            && RowsSegmented(seg, document.nodes[i].rows, document.nodes[i].graphemes)
            && (DraftsBounded(seg, draft.nodes[i].rows) ==> FullyBounded(document.nodes[i]))
  {
    hide AddNodes, BuildNode, RowsSegmented, DraftsBounded, FullyBounded;
    var start, named := BuiltFrom(seg, draft.nodes, KeptNodes(draft), draft.truncated || |draft.nodes| > MAX_NODES, i);
    BuiltRows(seg, start, named);
  }
}
