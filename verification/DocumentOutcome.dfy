/** When a draft becomes a document: for drafts whose rows are clean and whose nodes name earlier parents, exactly
    when every identity is in order and no place is negative. */
module DocumentOutcome {
  import opened Types
  import opened Utf8
  import opened Graphemes
  import opened DocumentSpec

  /** A row that a node accepts wherever the budgets cut it. */
  ghost predicate RowIsSafe(seg: Segmenter, row: RowDraft) {
    && ValidUtf8(row.text) && !HasLineBreak(row.text)
    && (row.bounds == [] || |row.bounds| == |seg(row.text)|)
    && forall i :: 0 <= i < |row.bounds| ==> row.bounds[i].Valid()
  }

  ghost predicate RowsAreSafe(seg: Segmenter, rows: seq<RowDraft>) {
    forall i :: 0 <= i < |rows| ==> RowIsSafe(seg, rows[i])
  }

  lemma SafeRowIsTaken(seg: Segmenter, p: Progress, row: RowDraft)
    requires RowIsSafe(seg, row)
    ensures !AddRow(seg, p, row).Failed?
  {
    hide Fits;
  }

  lemma {:induction false} SafeRowsAreTaken(seg: Segmenter, start: Totals, rows: seq<RowDraft>, n: nat)
    requires n <= |rows| && RowsAreSafe(seg, rows)
    ensures !AddRows(seg, start, rows, n).Failed?
  {
    hide AddRow, RowIsSafe;
    if n > 0 {
      SafeRowsAreTaken(seg, start, rows, n - 1);
      var before := AddRows(seg, start, rows, n - 1);
      if before.More? {
        SafeRowIsTaken(seg, before.progress, rows[n - 1]);
      }
    }
  }

  /** The node would be accepted alone, were its parent there and its identity new. */
  predicate NodeInOrder(node: NodeDraft, projection: uint64) {
    && node.id.Valid() && node.id.projection == projection && node.role.Valid()
    && ValidUtf8(node.name) && |node.name| <= MAX_NODE_NAME_BYTES
    && (node.id.kind.Activated() ==> node.id.activation != 0)
    && !CaretFails(node) && !SelectionFails(node)
  }

  predicate IdentityIsNew(nodes: seq<NodeDraft>, n: nat)
    requires n < |nodes|
  {
    forall i :: 0 <= i < n ==> nodes[i].id != nodes[n].id
  }

  predicate NodesInOrder(nodes: seq<NodeDraft>, n: nat)
    requires n <= |nodes|
  {
    forall i :: 0 <= i < n ==> NodeInOrder(nodes[i], nodes[0].id.projection) && IdentityIsNew(nodes, i)
  }

  predicate NodePresent(nodes: seq<NodeDraft>, id: NodeID) {
    exists i :: 0 <= i < |nodes| && nodes[i].id == id
  }

  /** The first node is a root, and every other one names a node before it. */
  ghost predicate ParentsPrecede(nodes: seq<NodeDraft>) {
    && (nodes != [] ==> nodes[0].parent == NO_NODE)
    && forall i :: 1 <= i < |nodes| ==> NodePresent(nodes[..i], nodes[i].parent)
  }

  ghost predicate AllRowsAreSafe(seg: Segmenter, nodes: seq<NodeDraft>) {
    forall i :: 0 <= i < |nodes| ==> RowsAreSafe(seg, nodes[i].rows)
  }

  /** What building a document can still complain about. */
  predicate Complaint(error: Error) {
    error in {InvalidIdentity(NodeFault), InvalidIdentity(ActivationFault), InvalidIdentity(DuplicateFault),
              InvalidRange}
  }

  /** The index holds exactly the identities of the drafts taken so far. */
  ghost predicate IndexOfDrafts(d: Partial, drafts: seq<NodeDraft>, n: nat)
    requires n <= |drafts|
  {
    && (forall i :: 0 <= i < n ==> drafts[i].id in d.index && drafts[i].id.Valid())
    && (forall id :: id in d.index ==> exists i :: 0 <= i < n && drafts[i].id == id)
  }

  lemma SafeNodeOutcome(seg: Segmenter, start: Totals, draft: NodeDraft)
    requires RowsAreSafe(seg, draft.rows)
    ensures var built := BuildNode(seg, start, draft);
            && (built.Ok? <==> !CaretFails(draft) && !SelectionFails(draft))
            && (built.Err? ==> built.error == InvalidRange)
            && (built.Ok? ==> built.value.node.id == draft.id)
  {
    SafeRowsAreTaken(seg, start, draft.rows, |draft.rows|);
    hide AddRows, RowsAreSafe, Concat;
  }

  lemma OneNodeOutcome(seg: Segmenter, d: Partial, drafts: seq<NodeDraft>, n: nat)
    requires n < |drafts| && IndexOfDrafts(d, drafts, n)
    requires RowsAreSafe(seg, drafts[n].rows)
    requires if n == 0 then drafts[n].parent == NO_NODE else NodePresent(drafts[..n], drafts[n].parent)
    ensures var added := AddNode(seg, d, drafts[n], n, drafts[0].id.projection);
            && (added.Ok? <==> NodeInOrder(drafts[n], drafts[0].id.projection) && IdentityIsNew(drafts, n))
            && (added.Err? ==> Complaint(added.error))
            && (added.Ok? ==> added.value.index.Keys == d.index.Keys + {drafts[n].id})
  {
    hide RowsAreSafe, BuildNode, ValidUtf8, Shortened;
    var draft := drafts[n];
    var named := NamedDraft(draft, d.totals);
    SafeNodeOutcome(seg, Charged(d.totals, named), named);
    assert draft.id in d.index <==> !IdentityIsNew(drafts, n);
    assert n > 0 ==> draft.parent in d.index && draft.parent.Valid();
  }

  lemma IndexFollows(d: Partial, e: Partial, drafts: seq<NodeDraft>, n: nat)
    requires n < |drafts| && IndexOfDrafts(d, drafts, n)
    requires drafts[n].id.Valid() && e.index.Keys == d.index.Keys + {drafts[n].id}
    ensures IndexOfDrafts(e, drafts, n + 1)
  {
    forall id | id in e.index
      ensures exists i :: 0 <= i < n + 1 && drafts[i].id == id
    {
      if id in d.index {
        var i :| 0 <= i < n && drafts[i].id == id;
      } else {
        assert id in e.index.Keys;
        assert drafts[n].id == id;
      }
    }
  }

  /** The nodes become nodes of a document exactly when they are in order; otherwise it complains about an identity, an
      activation, a duplicate or a negative place, and never about text, bounds, parents or the focus. */
  lemma {:induction false} AddNodesOutcome(seg: Segmenter, drafts: seq<NodeDraft>, n: nat, truncated: bool)
    requires n <= |drafts| && ParentsPrecede(drafts) && AllRowsAreSafe(seg, drafts)
    ensures var added := AddNodes(seg, drafts, n, truncated);
            && (added.Ok? <==> NodesInOrder(drafts, n))
            && (added.Ok? ==> IndexOfDrafts(added.value, drafts, n))
            && (added.Err? ==> Complaint(added.error))
  {
    hide AddNode, NodeInOrder, RowsAreSafe, IdentityIsNew, Complaint, IndexOfDrafts, NodePresent;
    if n == 0 {
      NothingIndexed(drafts, truncated);
    } else {
      AddNodesOutcome(seg, drafts, n - 1, truncated);
      var before := AddNodes(seg, drafts, n - 1, truncated);
      if before.Ok? {
        var added := AddNode(seg, before.value, drafts[n - 1], n - 1, drafts[0].id.projection);
        OneNodeOutcome(seg, before.value, drafts, n - 1);
        if added.Ok? {
          InOrderIsValid(drafts[n - 1], drafts[0].id.projection);
          IndexFollows(before.value, added.value, drafts, n - 1);
        }
      }
    }
  }

  lemma NothingIndexed(drafts: seq<NodeDraft>, truncated: bool)
    ensures IndexOfDrafts(Partial([], map[], Totals(0, 0, 0), truncated), drafts, 0)
  {
  }

  lemma InOrderIsValid(node: NodeDraft, projection: uint64)
    requires NodeInOrder(node, projection)
    ensures node.id.Valid()
  {
  }

  /** A focus among the nodes is valid and indexed; no focus is no valid identity. */
  lemma FocusIsIndexed(d: Partial, nodes: seq<NodeDraft>, focus: NodeID)
    requires IndexOfDrafts(d, nodes, |nodes|) && (focus == NO_NODE || NodePresent(nodes, focus))
    ensures if focus.Valid() then focus in d.index else focus == NO_NODE
  {
  }

  lemma FocusIsKept(draft: DocumentDraft, d: Partial)
    requires if draft.focus.Valid() then draft.focus in d.index else draft.focus == NO_NODE
    ensures Conclude(draft, d).Ok? && Conclude(draft, d).value.focus == draft.focus
  {
  }

  /** A draft of at most the limit of nodes, with a focus among them or none, becomes a document exactly when its
      nodes are in order; a focus is never the reason it does not, and it is always kept. */
  lemma CompileOutcome(seg: Segmenter, draft: DocumentDraft)
    requires !DraftFails(draft) && |draft.nodes| <= MAX_NODES
    requires ParentsPrecede(draft.nodes) && AllRowsAreSafe(seg, draft.nodes)
    requires draft.focus == NO_NODE || NodePresent(draft.nodes, draft.focus)
    ensures var compiled := Compile(seg, draft);
            && (compiled.Ok? <==> NodesInOrder(draft.nodes, |draft.nodes|))
            && (compiled.Ok? ==> compiled.value.focus == draft.focus)
            && (compiled.Err? ==> Complaint(compiled.error))
  {
    hide AddNodes, NodesInOrder, ParentsPrecede, AllRowsAreSafe, Complaint, IndexOfDrafts, NodePresent, NodeID.Valid,
         Conclude;
    AddNodesOutcome(seg, draft.nodes, |draft.nodes|, draft.truncated);
    var added := AddNodes(seg, draft.nodes, |draft.nodes|, draft.truncated);
    if added.Ok? {
      FocusIsIndexed(added.value, draft.nodes, draft.focus);
      FocusIsKept(draft, added.value);
    }
  }
}
