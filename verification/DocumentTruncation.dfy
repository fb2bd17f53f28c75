/** When a document loses something: exactly when what its draft asks for does not fit the limits. */
module DocumentTruncation {
  import opened Types
  import opened Utf8
  import opened Graphemes
  import opened DocumentSpec
  import opened DocumentProperties

  /** The totals that rows have when nothing of them is cut. */
  ghost function RowTotals(seg: Segmenter, rows: seq<RowDraft>): Totals {
    Totals(|rows|, |Unbudgeted(seg, rows)|, |Concat(Unbudgeted(seg, rows))|)
  }

  function Plus(a: Totals, b: Totals): Totals {
    Totals(a.rows + b.rows, a.graphemes + b.graphemes, a.utf8Bytes + b.utf8Bytes)
  }

  /** The totals that a node has when nothing of it is cut. */
  ghost function NodeTotals(seg: Segmenter, node: NodeDraft): Totals {
    Plus(Totals(0, 0, |node.name|), RowTotals(seg, node.rows))
  }

  ghost function DraftTotals(seg: Segmenter, nodes: seq<NodeDraft>): Totals {
    if nodes == [] then Totals(0, 0, 0)
    else Plus(DraftTotals(seg, nodes[..|nodes| - 1]), NodeTotals(seg, nodes[|nodes| - 1]))
  }

  /** The caret and the selection of the node lie in its text. */
  ghost predicate PlacesFit(seg: Segmenter, node: NodeDraft) {
    var limit := |Unbudgeted(seg, node.rows)|;
    && (node.caret.Some? ==> node.caret.value <= limit)
    && (node.selection.Some? ==> node.selection.value.start <= limit && node.selection.value.end <= limit)
  }

  /** The limits have room for all the nodes ask for. */
  ghost predicate DraftFits(seg: Segmenter, nodes: seq<NodeDraft>) {
    DraftTotals(seg, nodes).WithinLimits() && forall i :: 0 <= i < |nodes| ==> PlacesFit(seg, nodes[i])
  }

  lemma {:induction false} FitsAll(pieces: seq<Text>, graphemes: nat, utf8Bytes: nat)
    requires graphemes + |pieces| <= MAX_GRAPHEMES && utf8Bytes + |Concat(pieces)| <= MAX_UTF8_BYTES
    ensures Fits(pieces, graphemes, utf8Bytes) == |pieces|
  {
    if pieces != [] {
      assert pieces[..|pieces|] == pieces && pieces[1..][..|pieces| - 1] == pieces[1..];
      ConcatFirst(pieces, |pieces|);
      FitsAll(pieces[1..], graphemes + 1, utf8Bytes + |pieces[0]|);
    }
  }

  /** What one more row adds to the totals. */
  lemma RowTotalsGrow(seg: Segmenter, rows: seq<RowDraft>, row: RowDraft)
    ensures RowTotals(seg, rows + [row])
         == Plus(RowTotals(seg, rows), Totals(1, |Separator(rows)| + |seg(row.text)|, |Separator(rows)| + |row.text|))
  {
    UnbudgetedAppend(seg, rows, row);
    SeparatorBytes(rows);
    SegmentLaws(seg, row.text);
    hide Concat, Unbudgeted, Separator, HasLineBreak, ValidUtf8;
    var before, separator := Unbudgeted(seg, rows), Separator(rows);
    ConcatAppend(before + separator, seg(row.text));
    ConcatAppend(before, separator);
  }

  lemma SeparatorBytes(rows: seq<RowDraft>)
    ensures |Concat(Separator(rows))| == |Separator(rows)|
  {
    assert [NEWLINE] == [] + [NEWLINE];
    ConcatOne([], NEWLINE);
  }

  lemma AddRowFits(seg: Segmenter, start: Totals, p: Progress, rows: seq<RowDraft>, row: RowDraft)
    requires Counted(p, start) && AllRowsComplete(p, seg, rows)
    requires Plus(start, RowTotals(seg, rows + [row])).WithinLimits()
    ensures !AddRow(seg, p, row).Stopped?
  {
    hide Unbudgeted, Tiles, ValidUtf8, Concat;
    RowTotalsGrow(seg, rows, row);
    SeparatedCopies(seg, p, rows);
    SegmentLaws(seg, row.text);
    ConcatOne(p.graphemes, NEWLINE);
    var q := p.Separated();
    assert p.NeedsSeparator() <==> |Separator(rows)| == 1 by {
      if |rows| > 0 {
        assert RowComplete(p.rows[|rows| - 1], rows[|rows| - 1]);
      }
    }
    FitsAll(seg(row.text), q.totals.graphemes, q.totals.utf8Bytes);
  }

  /** Rows that fit the limits are never cut. */
  lemma {:induction false} AddRowsFit(seg: Segmenter, start: Totals, rows: seq<RowDraft>, n: nat)
    requires n <= |rows| && start.WithinLimits()
    requires Plus(start, RowTotals(seg, rows[..n])).WithinLimits()
    ensures !AddRows(seg, start, rows, n).Stopped?
  {
    hide AddRow, Counted, Copies, AllRowsComplete;
    if n > 0 {
      assert rows[..n] == rows[..n - 1] + [rows[n - 1]];
      RowTotalsGrow(seg, rows[..n - 1], rows[n - 1]);
      AddRowsFit(seg, start, rows, n - 1);
      AddRowsKeeps(seg, start, rows, n - 1);
      var before := AddRows(seg, start, rows, n - 1);
      if before.More? {
        AddRowFits(seg, start, before.progress, rows[..n - 1], rows[n - 1]);
      }
    }
  }

  /** A built node is whole exactly when its rows fit and its places lie in its text. */
  lemma BuildNodeFits(seg: Segmenter, start: Totals, draft: NodeDraft)
    requires start.WithinLimits() && BuildNode(seg, start, draft).Ok?
    ensures var built := BuildNode(seg, start, draft).value;
            var whole := Plus(start, RowTotals(seg, draft.rows));
            && (!built.stopped <==> whole.WithinLimits() && PlacesFit(seg, draft))
            && (!built.stopped ==> built.totals == whole)
  {
    hide AddRows, Tiles, Concat, Unbudgeted;
    var n := |draft.rows|;
    assert draft.rows[..n] == draft.rows;
    AddRowsKeeps(seg, start, draft.rows, n);
    if Plus(start, RowTotals(seg, draft.rows)).WithinLimits() {
      AddRowsFit(seg, start, draft.rows, n);
    }
  }

  /** The node an accepted draft adds to a document that is whole so far. */
  lemma AddNodeFits(seg: Segmenter, d: Partial, draft: NodeDraft, position: nat, projection: uint64)
    requires d.totals.WithinLimits() && d.totals == SumTotals(d.nodes)
    requires AddNode(seg, d, draft, position, projection).Ok?
    ensures var e := AddNode(seg, d, draft, position, projection).value;
            var whole := Plus(d.totals, NodeTotals(seg, draft));
            && |e.nodes| == |d.nodes| + 1
            && (NodeComplete(seg, draft, e.nodes[|d.nodes|]) <==> whole.WithinLimits() && PlacesFit(seg, draft))
            && (NodeComplete(seg, draft, e.nodes[|d.nodes|]) ==> e.totals == whole)
  {
    hide ValidateNode, NodeSound, NodeWellFormed, Unbudgeted, Concat, SumTotals, Tiles;
    var named := NamedDraft(draft, d.totals);
    AcceptedName(draft, position, projection, d.index);
    NamedKeeps(draft, d.totals);
    BuildNodeKeeps(seg, Charged(d.totals, named), named);
    BuildNodeFits(seg, Charged(d.totals, named), named);
  }

  lemma AcceptedName(draft: NodeDraft, position: nat, projection: uint64, index: map<NodeID, nat>)
    requires ValidateNode(draft, position, projection, index).None?
    ensures ValidUtf8(draft.name)
  {
  }

  /** Nothing of the first `n` nodes is lost exactly when the limits have room for all of them. */
  ghost predicate LossKnown(seg: Segmenter, d: Partial, drafts: seq<NodeDraft>, n: nat)
    requires |d.nodes| == n <= |drafts|
  {
    && (!SomethingLost(seg, d.nodes, drafts) <==> DraftFits(seg, drafts[..n]))
    && (!SomethingLost(seg, d.nodes, drafts) ==> d.totals == DraftTotals(seg, drafts[..n]))
  }

  lemma DraftFitsGrows(seg: Segmenter, drafts: seq<NodeDraft>, draft: NodeDraft)
    ensures DraftFits(seg, drafts + [draft])
       <==> DraftFits(seg, drafts) && PlacesFit(seg, draft) && DraftTotals(seg, drafts + [draft]).WithinLimits()
    ensures DraftTotals(seg, drafts + [draft]) == Plus(DraftTotals(seg, drafts), NodeTotals(seg, draft))
  {
    hide PlacesFit, NodeTotals;
    var all := drafts + [draft];
    assert all[..|drafts|] == drafts && all[|drafts|] == draft;
    assert forall i :: 0 <= i < |drafts| ==> all[i] == drafts[i];
  }

  lemma LossStep(seg: Segmenter, d: Partial, drafts: seq<NodeDraft>, n: nat, projection: uint64)
    requires n < |drafts| && |d.nodes| == n
    requires d.totals.WithinLimits() && d.totals == SumTotals(d.nodes) && LossKnown(seg, d, drafts, n)
    requires AddNode(seg, d, drafts[n], n, projection).Ok?
    ensures |AddNode(seg, d, drafts[n], n, projection).value.nodes| == n + 1
    ensures LossKnown(seg, AddNode(seg, d, drafts[n], n, projection).value, drafts, n + 1)
  {
    hide AddNode, DraftFits, NodeComplete, NodeTotals, PlacesFit, SomethingLost, NodeSound, NodeWellFormed, SumTotals;
    var e := AddNode(seg, d, drafts[n], n, projection).value;
    AddNodeFits(seg, d, drafts[n], n, projection);
    AddedNode(seg, d, drafts[n], n, projection);
    assert e.nodes == d.nodes + [e.nodes[n]];
    LossGrows(seg, d.nodes, e.nodes[n], drafts);
    assert drafts[..n + 1] == drafts[..n] + [drafts[n]];
    DraftFitsGrows(seg, drafts[..n], drafts[n]);
  }

  lemma {:induction false} AddNodesFit(seg: Segmenter, drafts: seq<NodeDraft>, n: nat, truncated: bool)
    requires n <= |drafts| && AddNodes(seg, drafts, n, truncated).Ok?
    ensures |AddNodes(seg, drafts, n, truncated).value.nodes| == n
    ensures LossKnown(seg, AddNodes(seg, drafts, n, truncated).value, drafts, n)
  {
    hide AddNode, DraftFits, LossKnown, PartialInv;
    if n == 0 {
      NothingLost(seg, drafts, truncated);
    } else {
      AddNodesFit(seg, drafts, n - 1, truncated);
      AddNodesKeeps(seg, drafts, n - 1, truncated);
      KeptTotals(seg, AddNodes(seg, drafts, n - 1, truncated).value, drafts, n - 1, truncated);
      LossStep(seg, AddNodes(seg, drafts, n - 1, truncated).value, drafts, n - 1, drafts[0].id.projection);
    }
  }

  lemma NothingLost(seg: Segmenter, drafts: seq<NodeDraft>, truncated: bool)
    ensures LossKnown(seg, Partial([], map[], Totals(0, 0, 0), truncated), drafts, 0)
  {
    assert drafts[..0] == [];
  }

  lemma KeptTotals(seg: Segmenter, d: Partial, drafts: seq<NodeDraft>, n: nat, truncated: bool)
    requires n <= |drafts| && PartialInv(seg, d, drafts, n, truncated)
    ensures |d.nodes| == n && d.totals.WithinLimits() && d.totals == SumTotals(d.nodes)
  {
  }

  /** A document is marked truncated exactly when its draft was, when it has too many nodes, or when the limits have
      no room for what the kept nodes ask for; if it is not, its totals are what the draft asks for. */
  lemma TruncatedExactly(seg: Segmenter, draft: DocumentDraft)
    requires Compile(seg, draft).Ok?
    ensures var document := Compile(seg, draft).value;
            && (document.truncated <==> draft.truncated || |draft.nodes| > MAX_NODES
                                        || !DraftFits(seg, draft.nodes[..KeptNodes(draft)]))
            && (!document.truncated ==>
                  Totals(document.rows, document.graphemes, document.utf8Bytes) == DraftTotals(seg, draft.nodes))
  {
    hide AddNodes, DraftFits, DraftTotals, SomethingLost, AllSound, Indexed, ParentsFirst;
    var n, truncated := KeptNodes(draft), draft.truncated || |draft.nodes| > MAX_NODES;
    AddNodesKeeps(seg, draft.nodes, n, truncated);
    AddNodesFit(seg, draft.nodes, n, truncated);
    assert |draft.nodes| <= MAX_NODES ==> draft.nodes[..n] == draft.nodes;
  }
}
