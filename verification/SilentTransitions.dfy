/** What stays in place under a transition that announces nothing. The comparison looks at the wrap flags and the
    rectangles of rows, not at the graphemes they cover. */
module SilentTransitions {
  import opened Types
  import opened Graphemes
  import opened DocumentSpec
  import opened DocumentProperties
  import opened DocumentRows
  import opened EventSpec
  import opened TransitionProperties
  import opened TerminalSpec
  import opened TerminalProperties
  import opened TerminalDocument
  import opened TreeSpec
  import opened TreeProperties

  /** The stretch of graphemes each row covers. */
  function Layout(node: DocumentNode): (r: seq<Span>)
    ensures |r| == |node.rows|
  {
    seq(|node.rows|, i requires 0 <= i < |node.rows| => Span(node.rows[i].start, node.rows[i].end))
  }

  function RowLength(row: DocumentRow): int {
    row.end - row.start
  }

  lemma ObservedRows(left: DocumentNode, right: DocumentNode)
    requires ObserveNode(left) == ObserveNode(right)
    ensures |left.rows| == |right.rows| && left.text == right.text
    ensures forall k :: 0 <= k < |left.rows| ==>
              left.rows[k].bounds == right.rows[k].bounds && left.rows[k].softWrapped == right.rows[k].softWrapped
  {
    var a, b := ObserveNode(left).rows, ObserveNode(right).rows;
    assert |a| == |left.rows| && |b| == |right.rows|;
    forall k | 0 <= k < |left.rows|
      ensures left.rows[k].bounds == right.rows[k].bounds && left.rows[k].softWrapped == right.rows[k].softWrapped
    {
      assert a[k] == b[k];
    }
  }

  /** Rows with the same wrap flags start at the same places as long as the lengths before them agree. */
  lemma {:induction false} SameStart(left: DocumentNode, right: DocumentNode, i: nat)
    requires Tiles(left.rows, left.graphemes) && Tiles(right.rows, right.graphemes)
    requires i < |left.rows| == |right.rows|
    requires forall k :: 0 <= k < i ==> left.rows[k].softWrapped == right.rows[k].softWrapped
    requires forall k :: 0 <= k < i ==> RowLength(left.rows[k]) == RowLength(right.rows[k])
    ensures left.rows[i].start == right.rows[i].start
  {
    hide RowMatches;
    if i > 0 {
      SameStart(left, right, i - 1);
      assert Follows(left.rows[i - 1], left.rows[i], left.graphemes);
      assert Follows(right.rows[i - 1], right.rows[i], right.graphemes);
    }
  }

  lemma SameLayout(left: DocumentNode, right: DocumentNode)
    requires Tiles(left.rows, left.graphemes) && Tiles(right.rows, right.graphemes)
    requires |left.rows| == |right.rows|
    requires forall k :: 0 <= k < |left.rows| ==> left.rows[k].softWrapped == right.rows[k].softWrapped
    ensures Layout(left) == Layout(right)
       <==> forall k :: 0 <= k < |left.rows| ==> RowLength(left.rows[k]) == RowLength(right.rows[k])
  {
    hide Tiles;
    if forall k :: 0 <= k < |left.rows| ==> RowLength(left.rows[k]) == RowLength(right.rows[k]) {
      forall i | 0 <= i < |left.rows|
        ensures Layout(left)[i] == Layout(right)[i]
      {
        SameStart(left, right, i);
      }
    } else {
      var k :| 0 <= k < |left.rows| && RowLength(left.rows[k]) != RowLength(right.rows[k]);
      assert Layout(left)[k] != Layout(right)[k];
    }
  }

  lemma BoundsTellLength(node: DocumentNode, k: nat)
    requires NodeWellFormed(node) && k < |node.rows|
    ensures node.rows[k].bounds != [] ==> |node.rows[k].bounds| == RowLength(node.rows[k])
  {
    assert RowMatches(node.rows[k], node.graphemes);
  }

  /** Nodes the comparison cannot tell apart have their rows in the same places exactly when the rows without
      rectangles have the same lengths. */
  lemma SilentKeepsLayout(left: DocumentNode, right: DocumentNode)
    requires NodeWellFormed(left) && NodeWellFormed(right)
    requires ObserveNode(left) == ObserveNode(right)
    ensures |left.rows| == |right.rows|
    ensures Layout(left) == Layout(right)
       <==> forall k :: 0 <= k < |left.rows| && left.rows[k].bounds == [] ==>
              RowLength(left.rows[k]) == RowLength(right.rows[k])
  {
    ObservedRows(left, right);
    SameLayout(left, right);
    hide ObserveNode, Layout, NodeWellFormed, RowLength;
    forall k | 0 <= k < |left.rows| && left.rows[k].bounds != []
      ensures RowLength(left.rows[k]) == RowLength(right.rows[k])
    {
      BoundsTellLength(left, k);
      BoundsTellLength(right, k);
    }
  }

  /** Every node of the document is well formed, and its rows cover the graphemes of their texts. */
  ghost predicate Segmented(seg: Segmenter, document: Document) {
    forall i :: 0 <= i < |document.nodes| ==>
      NodeWellFormed(document.nodes[i]) && RowsSegmented(seg, document.nodes[i].rows, document.nodes[i].graphemes)
  }

  /** Every document that was built is such a document. */
  lemma CompiledIsSegmented(seg: Segmenter, draft: DocumentDraft)
    requires Compile(seg, draft).Ok?
    ensures var document := Compile(seg, draft).value;
            Segmented(seg, document) && IndexInRange(document) && Indexed(document.nodes, document.index)
  {
    hide Compile, RowsSegmented, NodeWellFormed, AllSound, SomethingLost;
    CompileKeeps(seg, draft);
    var document := Compile(seg, draft).value;
    forall i | 0 <= i < |document.nodes|
      ensures RowsSegmented(seg, document.nodes[i].rows, document.nodes[i].graphemes)
    {
      CompiledRows(seg, draft, i);
    }
  }

  /** The rows without rectangles have as many graphemes in one node as in the other. */
  ghost predicate UnboundedAgree(seg: Segmenter, left: DocumentNode, right: DocumentNode)
    requires |left.rows| == |right.rows|
  {
    forall k :: 0 <= k < |left.rows| && left.rows[k].bounds == [] ==>
      |seg(left.rows[k].text)| == |seg(right.rows[k].text)|
  }

  lemma SegmentedLength(seg: Segmenter, node: DocumentNode, k: nat)
    requires RowsSegmented(seg, node.rows, node.graphemes) && k < |node.rows|
    ensures RowLength(node.rows[k]) == |seg(node.rows[k].text)|
  {
    assert RowSegmented(seg, node.rows[k], node.graphemes);
  }

  /** The differences of two documents are empty only if each pair of nodes looks the same. */
  lemma SilentNodes(previous: Document, next: Document, i: nat)
    requires IndexInRange(previous) && Indexed(previous.nodes, previous.index)
    requires DocumentDiffs(previous, next, ALL_INTENTS) == []
    ensures |previous.nodes| == |next.nodes|
    ensures i < |next.nodes| ==> ObserveNode(previous.nodes[i]) == ObserveNode(next.nodes[i])
  {
    DiffsEmptyIffUnchanged(previous, next);
    hide ObserveNode, DocumentDiffs;
    var a, b := Observe(previous), Observe(next);
    assert |a.nodes| == |previous.nodes| && |b.nodes| == |next.nodes|;
    if i < |next.nodes| {
      assert a.nodes[i] == b.nodes[i];
    }
  }

  /** A transition that announces nothing leaves the rows of a node where they were if and only if its rows without
      rectangles have as many graphemes as before. */
  lemma SilentTransitionLayout(seg: Segmenter, previous: Document, next: Document, i: nat)
    requires IndexInRange(previous) && Indexed(previous.nodes, previous.index)
    requires Segmented(seg, previous) && Segmented(seg, next)
    requires DocumentDiffs(previous, next, ALL_INTENTS) == []
    requires i < |next.nodes|
    ensures |previous.nodes| == |next.nodes| && |previous.nodes[i].rows| == |next.nodes[i].rows|
    ensures Layout(previous.nodes[i]) == Layout(next.nodes[i])
       <==> UnboundedAgree(seg, previous.nodes[i], next.nodes[i])
  {
    hide DocumentDiffs, ObserveNode, Layout, NodeWellFormed, RowsSegmented, RowLength, Indexed;
    SilentNodes(previous, next, i);
    var left, right := previous.nodes[i], next.nodes[i];
    SilentKeepsLayout(left, right);
    forall k | 0 <= k < |left.rows|
      ensures RowLength(left.rows[k]) == |seg(left.rows[k].text)|
      ensures RowLength(right.rows[k]) == |seg(right.rows[k].text)|
    {
      SegmentedLength(seg, left, k);
      SegmentedLength(seg, right, k);
    }
  }

  /** The node has a rectangle for every grapheme, or is no terminal and has at most one row. */
  ghost predicate Steady(node: DocumentNode) {
    FullyBounded(node) || (node.role != RoleTerminal && |node.rows| <= 1)
  }

  lemma OneRowText(node: DocumentNode)
    requires NodeWellFormed(node) && |node.rows| == 1
    ensures node.rows[0].text == node.text
  {
    assert RowMatches(node.rows[0], node.graphemes);
    assert node.graphemes[0..|node.graphemes|] == node.graphemes;
  }

  /** Steady nodes that look the same have their rows in the same places. */
  lemma SteadyAgree(seg: Segmenter, left: DocumentNode, right: DocumentNode)
    requires NodeWellFormed(left) && NodeWellFormed(right) && ObserveNode(left) == ObserveNode(right)
    requires RowsSegmented(seg, left.rows, left.graphemes) && RowsSegmented(seg, right.rows, right.graphemes)
    requires Steady(left) && Steady(right)
    ensures |left.rows| == |right.rows| && UnboundedAgree(seg, left, right)
  {
    ObservedRows(left, right);
    hide ObserveNode, NodeWellFormed, RowsSegmented;
    if |left.rows| == 1 {
      OneRowText(left);
      OneRowText(right);
    }
    forall k | 0 <= k < |left.rows| && left.rows[k].bounds == []
      ensures |seg(left.rows[k].text)| == |seg(right.rows[k].text)|
    {
      SegmentedLength(seg, left, k);
      SegmentedLength(seg, right, k);
      if |left.rows| > 1 {
        assert RowBounded(left.rows[k]) && RowBounded(right.rows[k]);
      }
    }
  }

  ghost predicate AllNodesSteady(document: Document) {
    forall i :: 0 <= i < |document.nodes| ==> Steady(document.nodes[i])
  }

  /** Between documents of steady nodes a transition that announces nothing moves no row of any node. */
  lemma SteadyTransition(seg: Segmenter, previous: Document, next: Document, i: nat)
    requires IndexInRange(previous) && Indexed(previous.nodes, previous.index)
    requires Segmented(seg, previous) && Segmented(seg, next)
    requires AllNodesSteady(previous) && AllNodesSteady(next)
    requires DocumentDiffs(previous, next, ALL_INTENTS) == []
    requires i < |next.nodes|
    ensures |previous.nodes| == |next.nodes| && Layout(previous.nodes[i]) == Layout(next.nodes[i])
  {
    hide DocumentDiffs, ObserveNode, Layout, NodeWellFormed, RowsSegmented, Indexed, Steady;
    SilentNodes(previous, next, i);
    SteadyAgree(seg, previous.nodes[i], next.nodes[i]);
    SilentTransitionLayout(seg, previous, next, i);
  }

  lemma SteadyDraftsBuildSteady(seg: Segmenter, draft: DocumentDraft)
    requires Compile(seg, draft).Ok? && AllSteady(seg, draft.nodes)
    ensures AllNodesSteady(Compile(seg, draft).value)
  {
    hide Compile, NodeComplete, NodeWellFormed, SomethingLost, WellFormed, DraftsBounded, FullyBounded, RowsSegmented;
    CompileKeeps(seg, draft);
    var document := Compile(seg, draft).value;
    forall i | 0 <= i < |document.nodes|
      ensures Steady(document.nodes[i])
    {
      CompiledRows(seg, draft, i);
      SoundAt(seg, document.nodes, draft.nodes, i);
      NoMoreRows(seg, draft.nodes[i], document.nodes[i]);
      assert SteadyDraft(seg, draft.nodes[i]);
    }
  }

  lemma NoMoreRows(seg: Segmenter, draft: NodeDraft, node: DocumentNode)
    requires NodeSound(seg, draft, node)
    ensures |node.rows| <= |draft.rows| && node.role == draft.role
  {
  }

  /** A document of a projected terminal or of a composed window. */
  ghost predicate Projected(seg: Segmenter, draft: DocumentDraft) {
    || (exists input: TerminalInput :: ProjectPane(seg, input).Ok?
                                       && draft == TerminalDraft(input, ProjectPane(seg, input).value))
    || (exists input: TreeProjectionInput :: Compose(seg, input).Composed? && draft == Compose(seg, input).draft)
  }

  lemma TerminalDraftIsSteady(seg: Segmenter, input: TerminalInput)
    requires ProjectPane(seg, input).Ok?
    ensures AllSteady(seg, TerminalDraft(input, ProjectPane(seg, input).value).nodes)
  {
    hide ProjectNode, RowsSound, CellProperties.RowsFollow, DraftsBounded, DocumentOutcome.RowsAreSafe;
    var rows := ProjectedPaneShape(seg, input, MAX_ROWS, MAX_UTF8_BYTES - |input.rootName| - |input.paneName|,
                                   MAX_GRAPHEMES);
    PaneIsSafe(seg, input, rows);
  }

  lemma ComposedDraftIsSteady(seg: Segmenter, input: TreeProjectionInput)
    requires Compose(seg, input).Composed?
    ensures AllSteady(seg, Compose(seg, input).draft.nodes)
  {
    hide Compose, AllSteady;
    ComposeKeeps(seg, input);
  }

  lemma ProjectedDraftIsSteady(seg: Segmenter, draft: DocumentDraft)
    requires Projected(seg, draft)
    ensures AllSteady(seg, draft.nodes)
  {
    hide AllSteady, ProjectPane, Compose, TerminalDraft;
    if input: TerminalInput :| ProjectPane(seg, input).Ok?
                               && draft == TerminalDraft(input, ProjectPane(seg, input).value) {
      TerminalDraftIsSteady(seg, input);
    } else {
      var input: TreeProjectionInput :| Compose(seg, input).Composed? && draft == Compose(seg, input).draft;
      ComposedDraftIsSteady(seg, input);
    }
  }

  /** In the document of a projected terminal or a composed window every terminal has a rectangle for every grapheme,
      and every node without them has at most one row. */
  lemma ProjectedRectangles(seg: Segmenter, draft: DocumentDraft, i: nat)
    requires Projected(seg, draft) && Compile(seg, draft).Ok? && i < |Compile(seg, draft).value.nodes|
    ensures var node := Compile(seg, draft).value.nodes[i];
            FullyBounded(node) || (node.role != RoleTerminal && |node.rows| <= 1)
  {
    hide Compile, Projected, AllSteady, FullyBounded;
    ProjectedDraftIsSteady(seg, draft);
    SteadyDraftsBuildSteady(seg, draft);
    assert Steady(Compile(seg, draft).value.nodes[i]);
  }

  /** Between two documents of projected terminals or composed windows a transition that announces nothing moves no
      row: panes have a rectangle for every grapheme, and every other node has at most one row. */
  lemma ProjectedSilence(seg: Segmenter, before: DocumentDraft, after: DocumentDraft, i: nat)
    requires Projected(seg, before) && Projected(seg, after)
    requires Compile(seg, before).Ok? && Compile(seg, after).Ok?
    requires IndexInRange(Compile(seg, before).value)
    requires DocumentDiffs(Compile(seg, before).value, Compile(seg, after).value, ALL_INTENTS) == []
    requires i < |Compile(seg, after).value.nodes|
    ensures var previous, next := Compile(seg, before).value, Compile(seg, after).value;
            |previous.nodes| == |next.nodes| && Layout(previous.nodes[i]) == Layout(next.nodes[i])
  {
    hide *;
    ProjectedDraftIsSteady(seg, before);
    ProjectedDraftIsSteady(seg, after);
    SteadyDraftsBuildSteady(seg, before);
    SteadyDraftsBuildSteady(seg, after);
    CompiledIsSegmented(seg, before);
    CompiledIsSegmented(seg, after);
    SteadyTransition(seg, Compile(seg, before).value, Compile(seg, after).value, i);
  }
}
