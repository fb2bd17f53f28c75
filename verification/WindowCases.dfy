/** Documents on which a tempting property of transitions and of ranges fails, built from their drafts. */
module WindowCases {
  import opened Types
  import opened Utf8
  import opened Graphemes
  import opened DocumentSpec
  import opened DocumentProperties
  import opened DocumentOutcome
  import opened DocumentRows
  import opened DocumentTruncation
  import opened EventSpec
  import opened RangeSpec
  import opened SilentTransitions
  import opened TransitionProperties

  /** Segmentation into code points. */
  ghost function Plain(): Segmenter {
    CodePointsAreLawful();
    CodePoints
  }

  predicate Letters(s: Text) {
    forall i :: 0 <= i < |s| ==> 0x20 <= s[i] < 0x80
  }

  /** Every letter is a cluster of its own. */
  lemma {:induction false} LettersSplit(s: Text)
    requires Letters(s)
    ensures ValidUtf8(s) && !HasLineBreak(s)
    ensures |Plain()(s)| == |s| && forall i :: 0 <= i < |s| ==> Plain()(s)[i] == [s[i]]
  {
    if s != [] {
      var t, b := s[..|s| - 1], s[|s| - 1];
      LettersSplit(t);
      assert s == t + [b];
      assert ValidUtf8([b][1..]);
      ValidConcat(t, [b]);
    }
  }

  const WINDOW := NodeID(KindWindow, 1, 1, 0)

  /** A draft of one window with rows without rectangles. */
  function WindowDraft(rows: seq<RowDraft>, generation: uint64): DocumentDraft {
    DocumentDraft(1, generation, [NodeDraft(WINDOW, NO_NODE, RoleWindow, [], rows, None, None)], NO_NODE, false)
  }

  predicate LetterRows(rows: seq<RowDraft>) {
    forall i :: 0 <= i < |rows| ==> Letters(rows[i].text) && rows[i].bounds == []
  }

  /** The node of such a draft, whole. */
  ghost predicate WholeNode(rows: seq<RowDraft>, node: DocumentNode) {
    && node.id == WINDOW && node.parent == NO_NODE && node.role == RoleWindow && node.name == []
    && node.graphemes == Unbudgeted(Plain(), rows) && node.text == Concat(node.graphemes)
    && !node.hasCaret && node.caret == 0 && !node.hasSelect && node.selection == Span(0, 0)
    && |node.rows| == |rows| && Tiles(node.rows, node.graphemes)
    && (forall k :: 0 <= k < |rows| ==> RowComplete(node.rows[k], rows[k]))
    && forall k :: 0 <= k < |rows| ==> RowLength(node.rows[k]) == |rows[k].text|
  }

  /** The document of such a draft, whole. */
  ghost predicate WholeWindow(rows: seq<RowDraft>, document: Document) {
    && |document.nodes| == 1 && !document.truncated && document.focus == NO_NODE && document.providerID == 1
    && IndexInRange(document) && Indexed(document.nodes, document.index)
    && WholeNode(rows, document.nodes[0])
  }

  lemma LetterRowsAreSafe(rows: seq<RowDraft>)
    requires LetterRows(rows)
    ensures RowsAreSafe(Plain(), rows)
  {
    forall i | 0 <= i < |rows|
      ensures RowIsSafe(Plain(), rows[i])
    {
      LettersSplit(rows[i].text);
    }
  }

  lemma WindowDraftFits(rows: seq<RowDraft>, generation: uint64)
    requires RowTotals(Plain(), rows).WithinLimits()
    ensures DraftFits(Plain(), WindowDraft(rows, generation).nodes)
  {
    hide Unbudgeted, Concat;
    var nodes := WindowDraft(rows, generation).nodes;
    assert nodes[..0] == [];
    assert DraftTotals(Plain(), nodes) == Plus(DraftTotals(Plain(), []), NodeTotals(Plain(), nodes[0]));
  }

  lemma WindowDraftInOrder(rows: seq<RowDraft>, generation: uint64)
    requires RowsAreSafe(Plain(), rows)
    ensures var nodes := WindowDraft(rows, generation).nodes;
            NodesInOrder(nodes, |nodes|) && ParentsPrecede(nodes) && AllRowsAreSafe(Plain(), nodes)
  {
    hide RowsAreSafe;
  }

  lemma RowLengths(rows: seq<RowDraft>, draft: NodeDraft, node: DocumentNode)
    requires LetterRows(rows) && draft.rows == rows && NodeComplete(Plain(), draft, node)
    requires RowsSegmented(Plain(), node.rows, node.graphemes)
    ensures |node.rows| == |rows| && forall k :: 0 <= k < |rows| ==> RowLength(node.rows[k]) == |rows[k].text|
  {
    hide Unbudgeted, Letters, RowsSegmented;
    forall k | 0 <= k < |rows|
      ensures RowLength(node.rows[k]) == |rows[k].text|
    {
      LettersSplit(rows[k].text);
      SegmentedLength(Plain(), node, k);
      assert RowComplete(node.rows[k], draft.rows[k]);
    }
  }

  lemma NodeIsWhole(rows: seq<RowDraft>, generation: uint64, node: DocumentNode)
    requires LetterRows(rows)
    requires NodeSound(Plain(), WindowDraft(rows, generation).nodes[0], node)
    requires NodeComplete(Plain(), WindowDraft(rows, generation).nodes[0], node)
    requires RowsSegmented(Plain(), node.rows, node.graphemes)
    ensures WholeNode(rows, node)
  {
    RowLengths(rows, WindowDraft(rows, generation).nodes[0], node);
    hide Tiles, Unbudgeted, Concat, LetterRows, RowComplete, RowLength;
  }

  /** The first node of a document that lost nothing. */
  lemma FirstIsWhole(seg: Segmenter, nodes: seq<DocumentNode>, drafts: seq<NodeDraft>)
    requires |nodes| == |drafts| > 0 && AllSound(seg, nodes, drafts) && !SomethingLost(seg, nodes, drafts)
    ensures NodeSound(seg, drafts[0], nodes[0]) && NodeComplete(seg, drafts[0], nodes[0])
  {
    hide NodeSound, NodeComplete, NodeWellFormed;
  }

  /** Letter rows within the limits compile, and nothing is lost. */
  lemma WindowCompiles(rows: seq<RowDraft>, generation: uint64)
    requires LetterRows(rows) && RowTotals(Plain(), rows).WithinLimits() && 0 < generation < MAX_UINT64
    ensures var compiled := Compile(Plain(), WindowDraft(rows, generation));
            compiled.Ok? && !compiled.value.truncated && compiled.value.focus == NO_NODE
  {
    var draft := WindowDraft(rows, generation);
    LetterRowsAreSafe(rows);
    WindowDraftInOrder(rows, generation);
    WindowDraftFits(rows, generation);
    hide Compile, NodesInOrder, ParentsPrecede, AllRowsAreSafe, DraftFits, DraftTotals, LetterRows, NodePresent;
    CompileOutcome(Plain(), draft);
    assert draft.nodes[..1] == draft.nodes;
    TruncatedExactly(Plain(), draft);
  }

  /** Their document is whole. */
  lemma WindowDocument(rows: seq<RowDraft>, generation: uint64, last: uint64)
    requires LetterRows(rows) && RowTotals(Plain(), rows).WithinLimits()
    requires 0 < generation < MAX_UINT64 && last < MAX_UINT64
    ensures var built := NewDocument(Plain(), WindowDraft(rows, generation), last);
            built.Ok? && WholeWindow(rows, built.value)
  {
    var draft := WindowDraft(rows, generation);
    WindowCompiles(rows, generation);
    hide Compile, RowTotals, LetterRows, RowsSegmented, WholeNode, NodeSound, NodeComplete, WellFormed, AllSound,
         SomethingLost, DraftsBounded, FullyBounded;
    CompileKeeps(Plain(), draft);
    var document := Compile(Plain(), draft).value;
    WellFormedIndex(document);
    CompiledRows(Plain(), draft, 0);
    FirstIsWhole(Plain(), document.nodes, draft.nodes);
    NodeIsWhole(rows, generation, document.nodes[0]);
  }

  function SoftRow(text: Text): RowDraft {
    RowDraft(text, [], true)
  }

  /** The lines "a", "" and "b". */
  function ThreeRows(): seq<RowDraft> {
    [SoftRow([0x61]), SoftRow([]), SoftRow([0x62])]
  }

  /** The text "abc" in the lines "ab" and "c". */
  function SplitRows(): seq<RowDraft> {
    [SoftRow([0x61, 0x62]), SoftRow([0x63])]
  }

  /** The same text in the lines "a" and "bc". */
  function JoinedRows(): seq<RowDraft> {
    [SoftRow([0x61]), SoftRow([0x62, 0x63])]
  }

  lemma SoftTotals(rows: seq<RowDraft>)
    requires LetterRows(rows) && |rows| <= 3
    requires forall i :: 0 <= i < |rows| ==> rows[i].softWrapped && |rows[i].text| <= 2
    ensures RowTotals(Plain(), rows).WithinLimits()
    ensures RowTotals(Plain(), rows).graphemes <= 2 * |rows| && RowTotals(Plain(), rows).utf8Bytes <= 2 * |rows|
    decreases |rows|
  {
    if rows != [] {
      var before, row := rows[..|rows| - 1], rows[|rows| - 1];
      SoftTotals(before);
      RowTotalsGrow(Plain(), before, row);
      LettersSplit(row.text);
      assert before + [row] == rows;
    }
  }

  lemma TwoSoftRows(a: Text, b: Text)
    ensures Unbudgeted(Plain(), [SoftRow(a), SoftRow(b)]) == Plain()(a) + Plain()(b)
  {
    var rows := [SoftRow(a), SoftRow(b)];
    assert rows[..1] == [SoftRow(a)];
    assert [SoftRow(a)][..0] == [];
    assert Unbudgeted(Plain(), [SoftRow(a)]) == Unbudgeted(Plain(), []) + Separator([]) + Plain()(a);
  }

  lemma LettersOf(a: byte, b: byte)
    requires Letters([a, b])
    ensures Plain()([a]) == [[a]] && Plain()([b]) == [[b]] && Plain()([a, b]) == [[a], [b]]
  {
    LettersSplit([a, b]);
    assert Letters([a]) && Letters([b]) by {
      assert [a, b][0] == a && [a, b][1] == b;
    }
    LettersSplit([a]);
    LettersSplit([b]);
    hide Plain;
  }

  /** Three letters are the same graphemes however two soft rows share them. */
  lemma SameLetters(a: byte, b: byte, c: byte)
    requires Letters([a, b]) && Letters([b, c])
    ensures Unbudgeted(Plain(), [SoftRow([a, b]), SoftRow([c])]) == [[a], [b], [c]]
    ensures Unbudgeted(Plain(), [SoftRow([a]), SoftRow([b, c])]) == [[a], [b], [c]]
  {
    TwoSoftRows([a, b], [c]);
    TwoSoftRows([a], [b, c]);
    hide Unbudgeted, Plain, Letters;
    LettersOf(a, b);
    LettersOf(b, c);
  }

  /** Whole nodes with the same graphemes and the same soft rows look the same. */
  lemma SameWholeNodes(split: seq<RowDraft>, joined: seq<RowDraft>, left: DocumentNode, right: DocumentNode)
    requires WholeNode(split, left) && WholeNode(joined, right)
    requires Unbudgeted(Plain(), split) == Unbudgeted(Plain(), joined) && |split| == |joined|
    requires forall k :: 0 <= k < |split| ==>
               split[k].bounds == joined[k].bounds == [] && split[k].softWrapped == joined[k].softWrapped
    ensures ObserveNode(left) == ObserveNode(right)
  {
    hide Unbudgeted, Tiles, Concat, ObserveNode, RowLength;
    forall k | 0 <= k < |split|
      ensures !RowGeometryDiffers(left.rows[k], right.rows[k])
    {
      assert RowComplete(left.rows[k], split[k]) && RowComplete(right.rows[k], joined[k]);
    }
    ObservedNodeDiffers(left, right);
  }

  lemma SameWindows(split: seq<RowDraft>, joined: seq<RowDraft>, previous: Document, next: Document)
    requires WholeWindow(split, previous) && WholeWindow(joined, next)
    requires ObserveNode(previous.nodes[0]) == ObserveNode(next.nodes[0])
    ensures IndexInRange(previous) && DocumentDiffs(previous, next, ALL_INTENTS) == []
  {
    hide WholeNode, ObserveNode, DocumentDiffs, Indexed;
    assert Observe(previous).nodes == Observe(next).nodes;
    DiffsEmptyIffUnchanged(previous, next);
  }

  lemma WholeParts(rows: seq<RowDraft>, document: Document)
    requires WholeWindow(rows, document)
    ensures |document.nodes| == 1 && WholeNode(rows, document.nodes[0])
  {
  }

  lemma FirstRowLength(rows: seq<RowDraft>, node: DocumentNode)
    requires WholeNode(rows, node) && rows != []
    ensures |node.rows| == |rows| && RowLength(node.rows[0]) == |rows[0].text|
  {
  }

  lemma LayoutsDiffer(left: DocumentNode, right: DocumentNode)
    requires |left.rows| > 0 && |right.rows| > 0 && RowLength(left.rows[0]) != RowLength(right.rows[0])
    ensures Layout(left) != Layout(right)
  {
    assert Layout(left)[0] != Layout(right)[0];
  }

  /** Two windows of the same soft letters, shared out differently. */
  lemma ReflowedWindows(split: seq<RowDraft>, joined: seq<RowDraft>, previous: Document, next: Document)
    requires WholeWindow(split, previous) && WholeWindow(joined, next)
    requires Unbudgeted(Plain(), split) == Unbudgeted(Plain(), joined) && |split| == |joined| > 0
    requires forall k :: 0 <= k < |split| ==>
               split[k].bounds == joined[k].bounds == [] && split[k].softWrapped == joined[k].softWrapped
    requires |split[0].text| != |joined[0].text|
    ensures IndexInRange(previous) && DocumentDiffs(previous, next, ALL_INTENTS) == []
    ensures |previous.nodes| == |next.nodes| == 1 && Layout(previous.nodes[0]) != Layout(next.nodes[0])
  {
    hide *;
    WholeParts(split, previous);
    WholeParts(joined, next);
    SameWholeNodes(split, joined, previous.nodes[0], next.nodes[0]);
    SameWindows(split, joined, previous, next);
    FirstRowLength(split, previous.nodes[0]);
    FirstRowLength(joined, next.nodes[0]);
    LayoutsDiffer(previous.nodes[0], next.nodes[0]);
  }

  /** Rows without rectangles can be reflowed in silence: the text "abc" in the soft rows "ab", "c" and then in the
      soft rows "a", "bc" makes two documents whose transition announces nothing, though a row has moved. */
  lemma ReflowWithoutBoundsIsSilent() returns (previous: Document, next: Document)
    ensures NewDocument(Plain(), WindowDraft(SplitRows(), 1), 0) == Ok(previous)
    ensures NewDocument(Plain(), WindowDraft(JoinedRows(), 2), 1) == Ok(next)
    ensures IndexInRange(previous) && DocumentDiffs(previous, next, ALL_INTENTS) == []
    ensures |previous.nodes| == |next.nodes| == 1 && Layout(previous.nodes[0]) != Layout(next.nodes[0])
  {
    hide NewDocument, RowTotals, Unbudgeted, DocumentDiffs, WholeWindow, Plain, LetterRows, Layout, WindowDraft,
         IndexInRange, SplitRows, JoinedRows;
    var split, joined := SplitRows(), JoinedRows();
    TwoSoftLetters();
    WindowDocument(split, 1, 0);
    WindowDocument(joined, 2, 1);
    previous := NewDocument(Plain(), WindowDraft(split, 1), 0).value;
    next := NewDocument(Plain(), WindowDraft(joined, 2), 1).value;
    ReflowedWindows(split, joined, previous, next);
  }

  /** The line segments of a whole node of soft rows are its rows. */
  lemma LineSegments(rows: seq<RowDraft>, node: DocumentNode, i: nat)
    requires WholeNode(rows, node) && i < |rows|
    requires forall k :: 0 <= k < |rows| ==> rows[k].softWrapped
    ensures |Segments(node, UnitLine)| == |rows| == |node.rows|
    ensures Segments(node, UnitLine)[i] == Span(node.rows[i].start, node.rows[i].start + |rows[i].text|)
    ensures i == 0 ==> node.rows[i].start == 0
    ensures i > 0 ==> node.rows[i].start == node.rows[i - 1].start + |rows[i - 1].text|
    ensures i == |rows| - 1 ==> |node.graphemes| == node.rows[i].start + |rows[i].text|
  {
    hide Unbudgeted, Concat;
    assert RowComplete(node.rows[i], rows[i]) && RowLength(node.rows[i]) == |rows[i].text|;
    if i > 0 {
      assert RowComplete(node.rows[i - 1], rows[i - 1]) && RowLength(node.rows[i - 1]) == |rows[i - 1].text|;
      assert Follows(node.rows[i - 1], node.rows[i], node.graphemes);
    }
    if i < |rows| - 1 {
      assert Follows(node.rows[i], node.rows[i + 1], node.graphemes);
    }
  }

  lemma WindowIsFound(rows: seq<RowDraft>, document: Document)
    requires WholeWindow(rows, document)
    ensures document.providerID == 1 && IndexInRange(document)
    ensures |document.nodes| == 1 && NodeValue(document, WINDOW) == Some(document.nodes[0])
  {
    hide Tiles, Unbudgeted, Concat, RowComplete, RowLength;
    assert document.nodes[0].id in document.index && document.index[document.nodes[0].id] == 0;
  }

  /** The line segments of the soft rows "a", "" and "b". */
  lemma ThreeLines(rows: seq<RowDraft>, node: DocumentNode)
    requires rows == ThreeRows() && WholeNode(rows, node)
    ensures Segments(node, UnitLine) == [Span(0, 1), Span(1, 1), Span(1, 2)] && |node.graphemes| == 2
  {
    hide WholeNode, Segments;
    assert rows[0] == SoftRow([0x61]) && rows[1] == SoftRow([]) && rows[2] == SoftRow([0x62]);
    LineSegments(rows, node, 0);
    LineSegments(rows, node, 1);
    LineSegments(rows, node, 2);
  }

  lemma FirstLines(segments: seq<Span>)
    requires segments == [Span(0, 1), Span(1, 1), Span(1, 2)]
    ensures SegmentIndex(segments, 0, 2) == 0 && SegmentIndex(segments, 1, 2) == 2
  {
    assert FirstHolding(segments, 1, 0) == FirstHolding(segments, 1, 1) == FirstHolding(segments, 1, 2);
  }

  lemma MoveOverLines(document: Document, node: DocumentNode, value: Range, there: Range)
    requires IndexInRange(document) && document.providerID != 0 && NodeValue(document, WINDOW) == Some(node)
    requires Segments(node, UnitLine) == [Span(0, 1), Span(1, 1), Span(1, 2)] && |node.graphemes| == 2
    requires NewRange(document, WINDOW, 0, 1) == Ok(value) && there == At(value, Span(1, 1))
    ensures Move(document, value, UnitLine, 1) == Ok((there, 1))
    ensures Move(document, there, UnitLine, -1) == Ok((there, -1)) && there != value
  {
    hide Segments, SegmentIndex, NodeValue;
    FirstLines(Segments(node, UnitLine));
    assert Resolve(document, value) == Ok(node) && Resolve(document, there) == Ok(node);
  }

  lemma FirstRange(document: Document, node: DocumentNode)
    requires IndexInRange(document) && NodeValue(document, WINDOW) == Some(node) && |node.graphemes| == 2
    ensures NewRange(document, WINDOW, 0, 1).Ok?
  {
  }

  lemma ThreeSoftRows()
    ensures var rows := ThreeRows();
            LetterRows(rows) && RowTotals(Plain(), rows).WithinLimits()
  {
    SoftTotals(ThreeRows());
  }

  lemma TwoSoftLetters()
    ensures var split, joined := SplitRows(), JoinedRows();
            && LetterRows(split) && RowTotals(Plain(), split).WithinLimits()
            && LetterRows(joined) && RowTotals(Plain(), joined).WithinLimits()
            && Unbudgeted(Plain(), split) == Unbudgeted(Plain(), joined)
            && |split| == |joined| > 0 && |split[0].text| != |joined[0].text|
            && forall k :: 0 <= k < |split| ==>
                 split[k].bounds == joined[k].bounds == [] && split[k].softWrapped == joined[k].softWrapped
  {
    hide Unbudgeted, Plain, RowTotals;
    SoftTotals(SplitRows());
    SoftTotals(JoinedRows());
    SameLetters(0x61, 0x62, 0x63);
  }

  lemma LinesDoNotReturn(rows: seq<RowDraft>, document: Document) returns (value: Range, there: Range)
    requires rows == ThreeRows() && WholeWindow(rows, document)
    ensures IndexInRange(document) && NewRange(document, WINDOW, 0, 1) == Ok(value)
    ensures Move(document, value, UnitLine, 1) == Ok((there, 1))
    ensures Move(document, there, UnitLine, -1) == Ok((there, -1)) && there != value
  {
    hide *;
    WindowIsFound(rows, document);
    WholeParts(rows, document);
    var node := document.nodes[0];
    ThreeLines(rows, node);
    FirstRange(document, node);
    value := NewRange(document, WINDOW, 0, 1).value;
    there := At(value, Span(1, 1));
    MoveOverLines(document, node, value, there);
  }

  /** A move that lands on an empty segment is not undone by the move back: over the soft rows "a", "" and "b" the
      range of the first line moves to the second and then stays there. */
  lemma MoveDoesNotReturn() returns (document: Document, value: Range, there: Range)
    ensures NewDocument(Plain(), WindowDraft(ThreeRows(), 1), 0) == Ok(document)
    ensures IndexInRange(document) && NewRange(document, WINDOW, 0, 1) == Ok(value)
    ensures Move(document, value, UnitLine, 1) == Ok((there, 1))
    ensures Move(document, there, UnitLine, -1) == Ok((there, -1)) && there != value
  {
    hide NewDocument, RowTotals, WholeWindow, Plain, LetterRows, WindowDraft, IndexInRange, NewRange, Move, ThreeRows;
    var rows := ThreeRows();
    ThreeSoftRows();
    WindowDocument(rows, 1, 0);
    document := NewDocument(Plain(), WindowDraft(rows, 1), 0).value;
    value, there := LinesDoNotReturn(rows, document);
  }
}
