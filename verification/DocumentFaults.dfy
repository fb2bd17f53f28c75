/** What is wrong with a draft that is refused, told by its fields, and what is right with every document. */
module DocumentFaults {
  import opened Types
  import opened Utf8
  import opened Graphemes
  import opened DocumentSpec
  import opened DocumentProperties
  import opened DocumentRows
  import opened TerminalProperties

  predicate IsIdentity(id: NodeID) {
    id.kind != KindNone && id.projection != 0 && id.objectID != 0
  }

  predicate LacksActivation(id: NodeID) {
    (id.kind == KindPane || id.kind == KindInput || id.kind == KindItem) && id.activation == 0
  }

  /** Well-formed text without a line feed or a carriage return. */
  predicate CleanText(s: Text) {
    ValidUtf8(s) && 0x0A !in s && 0x0D !in s
  }

  predicate Solid(bounds: seq<Rect>) {
    forall i :: 0 <= i < |bounds| ==> bounds[i].width >= 0.0 && bounds[i].height >= 0.0
  }

  /** The node in itself, in a document of the projection. */
  predicate Identified(node: NodeDraft, projection: uint64) {
    && IsIdentity(node.id) && node.id.projection == projection
    && node.role != RoleNone && ValidUtf8(node.name) && |node.name| <= 4_096
  }

  /** One of the first `r` nodes. */
  predicate IsEarlier(drafts: seq<NodeDraft>, r: nat, id: NodeID)
    requires r <= |drafts|
  {
    exists j :: 0 <= j < r && drafts[j].id == id
  }

  /** The node may stand after the nodes before it, whatever its parent. */
  predicate MayStand(drafts: seq<NodeDraft>, r: nat)
    requires r < |drafts|
  {
    && Identified(drafts[r], drafts[0].id.projection)
    && !LacksActivation(drafts[r].id) && !IsEarlier(drafts, r, drafts[r].id)
  }

  /** What is wrong with the identities of node `r`. */
  predicate IdentityIsWrong(drafts: seq<NodeDraft>, r: nat, fault: IdentityFault)
    requires r < |drafts|
  {
    var node := drafts[r];
    match fault
    case NodeFault => !Identified(node, drafts[0].id.projection)
    case ActivationFault => Identified(node, drafts[0].id.projection) && LacksActivation(node.id)
    case DuplicateFault =>
      Identified(node, drafts[0].id.projection) && !LacksActivation(node.id) && IsEarlier(drafts, r, node.id)
    case RootParentFault => MayStand(drafts, r) && r == 0 && node.parent != NO_NODE
    case MissingParentFault => MayStand(drafts, r) && r > 0 && !IsIdentity(node.parent)
    case ParentOrderFault =>
      MayStand(drafts, r) && r > 0 && IsIdentity(node.parent) && !IsEarlier(drafts, r, node.parent)
    case FocusFault => false
  }

  predicate IdentityIsRight(drafts: seq<NodeDraft>, r: nat)
    requires r < |drafts|
  {
    MayStand(drafts, r) && if r == 0 then drafts[r].parent == NO_NODE else IsEarlier(drafts, r, drafts[r].parent)
  }

  /** How many of the pieces are taken: as many as both budgets have room for. */
  ghost predicate TakesMost(pieces: seq<Text>, k: nat, graphemes: int, bytes: int) {
    && k <= |pieces| && k <= graphemes && |Concat(pieces[..k])| <= bytes
    && (k < |pieces| ==> k == graphemes || |Concat(pieces[..k + 1])| > bytes)
  }

  predicate EndsHard(rows: seq<DocumentRow>) {
    rows != [] && !rows[|rows| - 1].softWrapped
  }

  /** A row can be begun: after a hard row, with its separator. */
  predicate HasRoom(p: Progress) {
    EndsHard(p.rows) ==> p.totals.graphemes != 16_384 && p.totals.utf8Bytes != 1_048_576
  }

  /** So many graphemes of the row are taken. */
  ghost predicate RowTakes(seg: Segmenter, p: Progress, row: RowDraft, k: nat) {
    var separator := if EndsHard(p.rows) then 1 else 0;
    TakesMost(seg(row.text), k, 16_384 - p.totals.graphemes - separator, 1_048_576 - p.totals.utf8Bytes - separator)
  }

  /** Rectangles that do not match so many graphemes of the row. */
  ghost predicate BoundsAreWrong(bounds: seq<Rect>, k: nat, all: nat) {
    && bounds != []
    && (|bounds| < k || (k == all && |bounds| > k) || !Solid(bounds[..k]))
  }

  /** A row is refused for its text, or for its rectangles if its text is clean and it can be begun. */
  ghost predicate RowIsWrong(seg: Segmenter, p: Progress, row: RowDraft, error: Error) {
    && p.totals.rows < 512
    && match error
       case InvalidText => !CleanText(row.text)
       case InvalidBounds =>
         && CleanText(row.text) && HasRoom(p)
         && exists k :: RowTakes(seg, p, row, k) && BoundsAreWrong(row.bounds, k, |seg(row.text)|)
       case _ => false
  }

  lemma {:induction false} TakesOnce(pieces: seq<Text>, j: nat, k: nat, graphemes: int, bytes: int)
    requires TakesMost(pieces, j, graphemes, bytes) && TakesMost(pieces, k, graphemes, bytes)
    ensures j == k
  {
    if j < k {
      assert pieces[..k] == pieces[..j + 1] + pieces[j + 1..k];
      ConcatAppend(pieces[..j + 1], pieces[j + 1..k]);
    } else if k < j {
      assert pieces[..j] == pieces[..k + 1] + pieces[k + 1..j];
      ConcatAppend(pieces[..k + 1], pieces[k + 1..j]);
    }
  }

  lemma FitsTakes(seg: Segmenter, p: Progress, row: RowDraft)
    requires p.totals.WithinLimits() && HasRoom(p)
    ensures var q := p.Separated(); RowTakes(seg, p, row, Fits(seg(row.text), q.totals.graphemes, q.totals.utf8Bytes))
  {
    var q := p.Separated();
    FitsIsMaximal(seg(row.text), q.totals.graphemes, q.totals.utf8Bytes);
  }

  lemma MatchIsRight(bounds: seq<Rect>, k: nat, all: nat)
    requires k <= all
    ensures BoundsMatch(bounds, k, k == all) <==> !BoundsAreWrong(bounds, k, all)
  {
  }

  lemma RowFault(seg: Segmenter, p: Progress, row: RowDraft, error: Error)
    requires p.totals.WithinLimits()
    ensures AddRow(seg, p, row) == Failed(error) <==> RowIsWrong(seg, p, row, error)
  {
    hide Fits, BoundsMatch, BoundsAreWrong, ValidUtf8, RowTakes;
    var q := p.Separated();
    var pieces := seg(row.text);
    var k := Fits(pieces, q.totals.graphemes, q.totals.utf8Bytes);
    MatchIsRight(row.bounds, k, |pieces|);
    if HasRoom(p) {
      FitsTakes(seg, p, row);
      forall j | RowTakes(seg, p, row, j)
        ensures j == k
      {
        RowTakesOnce(seg, p, row, j, k);
      }
    }
  }

  lemma RowTakesOnce(seg: Segmenter, p: Progress, row: RowDraft, j: nat, k: nat)
    requires RowTakes(seg, p, row, j) && RowTakes(seg, p, row, k)
    ensures j == k
  {
    var separator := if EndsHard(p.rows) then 1 else 0;
    TakesOnce(seg(row.text), j, k, 16_384 - p.totals.graphemes - separator,
              1_048_576 - p.totals.utf8Bytes - separator);
  }

  /** Row `r` is the one that is wrong: the rows before it were taken whole. */
  ghost predicate FirstWrong(seg: Segmenter, start: Totals, rows: seq<RowDraft>, r: nat, error: Error)
    requires r < |rows|
  {
    var before := AddRows(seg, start, rows, r);
    before.More? && RowIsWrong(seg, before.progress, rows[r], error)
  }

  lemma {:induction false} RowsFault(seg: Segmenter, start: Totals, rows: seq<RowDraft>, n: nat, error: Error)
    requires n <= |rows| && start.WithinLimits()
    ensures AddRows(seg, start, rows, n) == Failed(error)
       <==> exists r :: 0 <= r < n && FirstWrong(seg, start, rows, r, error)
  {
    hide AddRow, RowIsWrong, Copied, Tiles;
    if n > 0 {
      RowsFault(seg, start, rows, n - 1, error);
      var before := AddRows(seg, start, rows, n - 1);
      AddRowsKeeps(seg, start, rows, n - 1);
      if before.More? {
        RowFault(seg, before.progress, rows[n - 1], error);
      }
      assert FirstWrong(seg, start, rows, n - 1, error) ==> AddRows(seg, start, rows, n) == Failed(error);
    }
  }

  predicate PlacesAreWrong(draft: NodeDraft) {
    || (draft.caret.Some? && draft.caret.value < 0)
    || (draft.selection.Some? && (draft.selection.value.start < 0
                                  || draft.selection.value.end < draft.selection.value.start))
  }

  /** What is wrong with the rows or the places of a node. */
  ghost predicate ContentIsWrong(seg: Segmenter, start: Totals, draft: NodeDraft, error: Error) {
    match error
    case InvalidText | InvalidBounds =>
      exists r :: 0 <= r < |draft.rows| && FirstWrong(seg, start, draft.rows, r, error)
    case InvalidRange => PlacesAreWrong(draft) && !AddRows(seg, start, draft.rows, |draft.rows|).Failed?
    case _ => false
  }

  lemma ContentFault(seg: Segmenter, start: Totals, draft: NodeDraft, error: Error)
    requires start.WithinLimits()
    ensures BuildNode(seg, start, draft) == Err(error) <==> ContentIsWrong(seg, start, draft, error)
  {
    RowsFault(seg, start, draft.rows, |draft.rows|, error);
    hide AddRows, RowIsWrong, Concat;
  }

  /** The error of node `r` after the nodes before it. */
  ghost predicate NodeIsWrong(seg: Segmenter, drafts: seq<NodeDraft>, r: nat, totals: Totals, error: Error)
    requires r < |drafts|
  {
    if error.InvalidIdentity? then IdentityIsWrong(drafts, r, error.fault)
    else
      && IdentityIsRight(drafts, r)
      && var named := NamedDraft(drafts[r], totals); ContentIsWrong(seg, Charged(totals, named), named, error)
  }

  /** The index knows the nodes so far. */
  ghost predicate Knows(index: map<NodeID, nat>, drafts: seq<NodeDraft>, r: nat)
    requires r <= |drafts|
  {
    && (forall id :: id in index <==> IsEarlier(drafts, r, id))
    && (forall id :: id in index ==> IsIdentity(id))
  }

  lemma ValidationFault(drafts: seq<NodeDraft>, r: nat, index: map<NodeID, nat>, error: Error)
    requires r < |drafts| && Knows(index, drafts, r)
    ensures var fault := ValidateNode(drafts[r], r, drafts[0].id.projection, index);
            && (fault == Some(error) <==> error.InvalidIdentity? && IdentityIsWrong(drafts, r, error.fault))
            && (fault == None <==> IdentityIsRight(drafts, r))
  {
    hide ValidUtf8, IsEarlier;
    assert drafts[r].id in index <==> IsEarlier(drafts, r, drafts[r].id);
    assert drafts[r].parent in index <==> IsEarlier(drafts, r, drafts[r].parent);
  }

  lemma NodeFailure(seg: Segmenter, d: Partial, drafts: seq<NodeDraft>, r: nat, error: Error)
    requires r < |drafts| && Knows(d.index, drafts, r) && d.totals.WithinLimits()
    ensures AddNode(seg, d, drafts[r], r, drafts[0].id.projection) == Err(error)
       <==> NodeIsWrong(seg, drafts, r, d.totals, error)
  {
    hide ValidateNode, BuildNode, ContentIsWrong, IdentityIsWrong, Knows, Shortened, IdentityIsRight;
    ValidationFault(drafts, r, d.index, error);
    if IdentityIsRight(drafts, r) {
      var named := NamedDraft(drafts[r], d.totals);
      RightIsNamed(drafts, r);
      NamedKeeps(drafts[r], d.totals);
      ContentFault(seg, Charged(d.totals, named), named, error);
      WrongContent(seg, Charged(d.totals, named), named, error);
    }
    if error.InvalidIdentity? {
      RightIsNotWrong(drafts, r, d.index, error.fault);
    }
  }

  lemma RightIsNamed(drafts: seq<NodeDraft>, r: nat)
    requires r < |drafts| && IdentityIsRight(drafts, r)
    ensures ValidUtf8(drafts[r].name)
  {
    hide ValidUtf8;
  }

  lemma RightIsNotWrong(drafts: seq<NodeDraft>, r: nat, index: map<NodeID, nat>, fault: IdentityFault)
    requires r < |drafts| && Knows(index, drafts, r)
    ensures IdentityIsRight(drafts, r) ==> !IdentityIsWrong(drafts, r, fault)
  {
    hide ValidUtf8, IsEarlier;
  }

  lemma WrongContent(seg: Segmenter, start: Totals, draft: NodeDraft, error: Error)
    ensures ContentIsWrong(seg, start, draft, error) ==> !error.InvalidIdentity?
  {
  }

  lemma KnownNodes(seg: Segmenter, drafts: seq<NodeDraft>, n: nat, truncated: bool)
    requires n <= |drafts| && AddNodes(seg, drafts, n, truncated).Ok?
    ensures var d := AddNodes(seg, drafts, n, truncated).value;
            d.totals.WithinLimits() && Knows(d.index, drafts, n)
  {
    AddNodesKeeps(seg, drafts, n, truncated);
    var d := AddNodes(seg, drafts, n, truncated).value;
    hide AddNodes, Indexed, ParentsFirst, SumTotals, SomethingLost, AllSound, Knows;
    SoundIdentities(seg, d.nodes, drafts);
    IndexKnows(d.nodes, d.index, drafts, n);
  }

  lemma IndexKnows(nodes: seq<DocumentNode>, index: map<NodeID, nat>, drafts: seq<NodeDraft>, n: nat)
    requires |nodes| == n <= |drafts| && Indexed(nodes, index)
    requires forall i :: 0 <= i < n ==> nodes[i].id == drafts[i].id
    ensures Knows(index, drafts, n)
  {
    forall id
      ensures id in index <==> IsEarlier(drafts, n, id)
    {
      if id in index {
        assert drafts[index[id]].id == id;
      }
      if IsEarlier(drafts, n, id) {
        var j :| 0 <= j < n && drafts[j].id == id;
        assert nodes[j].id in index;
      }
    }
  }

  lemma SoundIdentities(seg: Segmenter, nodes: seq<DocumentNode>, drafts: seq<NodeDraft>)
    requires |nodes| <= |drafts| && AllSound(seg, nodes, drafts)
    ensures forall i :: 0 <= i < |nodes| ==> nodes[i].id == drafts[i].id
  {
    hide Tiles, Unbudgeted, RowComplete, NodeWellFormed;
  }

  /** Node `r` is the one that is wrong: the nodes before it were taken. */
  ghost predicate IsFirstWrong(seg: Segmenter, draft: DocumentDraft, r: nat, error: Error)
    requires r < |draft.nodes|
  {
    var before := AddNodes(seg, draft.nodes, r, draft.truncated || |draft.nodes| > 256);
    before.Ok? && NodeIsWrong(seg, draft.nodes, r, before.value.totals, error)
  }

  lemma {:induction false} NodesFault(seg: Segmenter, draft: DocumentDraft, n: nat, error: Error)
    requires n <= |draft.nodes|
    ensures AddNodes(seg, draft.nodes, n, draft.truncated || |draft.nodes| > 256) == Err(error)
       <==> exists r :: 0 <= r < n && IsFirstWrong(seg, draft, r, error)
  {
    hide AddNode, NodeIsWrong, Knows;
    if n > 0 {
      NodesFault(seg, draft, n - 1, error);
      var truncated := draft.truncated || |draft.nodes| > 256;
      var before := AddNodes(seg, draft.nodes, n - 1, truncated);
      if before.Ok? {
        KnownNodes(seg, draft.nodes, n - 1, truncated);
        NodeFailure(seg, before.value, draft.nodes, n - 1, error);
      }
      assert IsFirstWrong(seg, draft, n - 1, error) ==> AddNodes(seg, draft.nodes, n, truncated) == Err(error);
    }
  }

  /** A draft that is none: nobody provides it, it has no generation or the one past the last, or it has no nodes. */
  predicate IsNoDraft(draft: DocumentDraft) {
    || draft.providerID == 0 || draft.generation == 0 || draft.generation == 0xFFFF_FFFF_FFFF_FFFF
    || draft.nodes == []
  }

  /** The focus is no identity, or that of no node though none was left out. */
  predicate FocusIsWrong(draft: DocumentDraft) {
    && draft.focus != NO_NODE
    && (IsIdentity(draft.focus) ==>
          |draft.nodes| <= 256 && forall i :: 0 <= i < |draft.nodes| ==> draft.nodes[i].id != draft.focus)
  }

  /** Whether a draft is refused and with which error: for itself, for the first of its nodes that is wrong, or for its
      focus if none is. */
  lemma CompileFault(seg: Segmenter, draft: DocumentDraft, error: Error)
    ensures Compile(seg, draft) == Err(error)
       <==> if IsNoDraft(draft) then error == InvalidDocument
            else
              || (exists r :: 0 <= r < |draft.nodes| && r < 256 && IsFirstWrong(seg, draft, r, error))
              || (FocusIsWrong(draft) && error == InvalidIdentity(FocusFault) && CompileNodes(seg, draft).Ok?)
  {
    hide AddNodes, NodeIsWrong;
    NodesFault(seg, draft, KeptNodes(draft), error);
    if !IsNoDraft(draft) && CompileNodes(seg, draft).Ok? {
      KnownNodes(seg, draft.nodes, KeptNodes(draft), draft.truncated || |draft.nodes| > 256);
      FocusFailure(draft, CompileNodes(seg, draft).value.index);
    }
  }

  lemma FocusFailure(draft: DocumentDraft, index: map<NodeID, nat>)
    requires Knows(index, draft.nodes, KeptNodes(draft))
    ensures FocusFails(draft, index) <==> FocusIsWrong(draft)
  {
  }

  /** A row of a document: clean text, and a rectangle of no negative size for every grapheme or none. */
  predicate RowIsClean(row: DocumentRow) {
    CleanText(row.text) && Solid(row.bounds) && (row.bounds == [] || |row.bounds| == row.end - row.start)
  }

  ghost predicate RowsAreClean(rows: seq<DocumentRow>) {
    forall i :: 0 <= i < |rows| ==> RowIsClean(rows[i])
  }

  /** The one row follows the other, after one line feed if this is hard. */
  predicate Adjoins(row: DocumentRow, next: DocumentRow, graphemes: seq<Text>) {
    if row.softWrapped then next.start == row.end
    else row.end < |graphemes| && graphemes[row.end] == [0x0A] && next.start == row.end + 1
  }

  /** The rows of a node stand in its text from its start to its end, one after the other. */
  ghost predicate StandInText(node: DocumentNode) {
    && (if node.rows == [] then node.graphemes == []
        else node.rows[0].start == 0 && node.rows[|node.rows| - 1].end == |node.graphemes|)
    && (forall i :: 0 <= i < |node.rows| ==> node.rows[i].start <= node.rows[i].end <= |node.graphemes|)
    && (forall i :: 0 <= i < |node.rows| - 1 ==> Adjoins(node.rows[i], node.rows[i + 1], node.graphemes))
  }

  lemma TiledStandInText(node: DocumentNode)
    requires Tiles(node.rows, node.graphemes)
    ensures StandInText(node)
  {
    hide HasLineBreak, Concat;
    forall i | 0 <= i < |node.rows|
      ensures node.rows[i].start <= node.rows[i].end <= |node.graphemes|
    {
      assert RowMatches(node.rows[i], node.graphemes);
    }
    forall i | 0 <= i < |node.rows| - 1
      ensures Adjoins(node.rows[i], node.rows[i + 1], node.graphemes)
    {
      assert Follows(node.rows[i], node.rows[i + 1], node.graphemes);
    }
  }

  /** A prefix of clean text in whole graphemes is clean. */
  lemma CutIsClean(seg: Segmenter, text: Text, k: nat)
    requires CleanText(text) && k <= |seg(text)|
    ensures CleanText(Concat(seg(text)[..k]))
  {
    PrefixIsClean(seg, text, k);
  }

  lemma NewRowIsClean(seg: Segmenter, p: Progress, draft: RowDraft, k: nat)
    requires CleanText(draft.text) && k <= |seg(draft.text)|
    requires BoundsMatch(draft.bounds, k, k == |seg(draft.text)|)
    ensures var q := p.WithRow(draft, seg(draft.text)[..k]); q.rows == p.rows + [q.rows[|p.rows|]]
    ensures RowIsClean(p.WithRow(draft, seg(draft.text)[..k]).rows[|p.rows|])
  {
    CutIsClean(seg, draft.text, k);
    hide CleanText, Concat;
  }

  lemma AddRowIsClean(seg: Segmenter, p: Progress, draft: RowDraft)
    requires RowsAreClean(p.rows)
    ensures var step := AddRow(seg, p, draft); step.Failed? || RowsAreClean(step.progress.rows)
  {
    hide Fits, ValidUtf8, RowIsClean, BoundsMatch, Progress.WithRow;
    var q := p.Separated();
    var k := Fits(seg(draft.text), q.totals.graphemes, q.totals.utf8Bytes);
    if !AddRow(seg, p, draft).Failed? && CleanText(draft.text)
       && BoundsMatch(draft.bounds, k, k == |seg(draft.text)|) {
      NewRowIsClean(seg, q, draft, k);
    }
  }

  lemma {:induction false} AddRowsAreClean(seg: Segmenter, start: Totals, drafts: seq<RowDraft>, n: nat)
    requires n <= |drafts|
    ensures var step := AddRows(seg, start, drafts, n); step.Failed? || RowsAreClean(step.progress.rows)
  {
    hide AddRow, RowIsClean;
    if n > 0 {
      AddRowsAreClean(seg, start, drafts, n - 1);
      var before := AddRows(seg, start, drafts, n - 1);
      if before.More? {
        AddRowIsClean(seg, before.progress, drafts[n - 1]);
      }
    }
  }

  lemma BuiltIsClean(seg: Segmenter, start: Totals, draft: NodeDraft)
    requires BuildNode(seg, start, draft).Ok?
    ensures RowsAreClean(BuildNode(seg, start, draft).value.node.rows)
  {
    AddRowsAreClean(seg, start, draft.rows, |draft.rows|);
    hide AddRows, RowsAreClean, Concat;
  }

  /** The node of an accepted draft is named by a well-formed part of its name and has its identity. */
  lemma AddedIsNamed(seg: Segmenter, d: Partial, drafts: seq<NodeDraft>, r: nat)
    requires r < |drafts| && Knows(d.index, drafts, r) && d.totals.WithinLimits()
    requires AddNode(seg, d, drafts[r], r, drafts[0].id.projection).Ok?
    ensures IdentityIsRight(drafts, r)
    ensures var e := AddNode(seg, d, drafts[r], r, drafts[0].id.projection).value;
            && |e.nodes| == |d.nodes| + 1 && e.nodes[..|d.nodes|] == d.nodes
            && e.nodes[|d.nodes|].id == drafts[r].id && ValidUtf8(e.nodes[|d.nodes|].name)
  {
    hide ValidateNode, IdentityIsRight, IdentityIsWrong, Knows, NamedDraft, AddRows, Concat, ValidUtf8;
    ValidationFault(drafts, r, d.index, InvalidDocument);
    RightIsNamed(drafts, r);
    NamedKeeps(drafts[r], d.totals);
    assert AddNode(seg, d, drafts[r], r, drafts[0].id.projection).value.nodes[..|d.nodes|] == d.nodes;
  }

  lemma {:induction false} TakenAreRight(seg: Segmenter, drafts: seq<NodeDraft>, n: nat, truncated: bool, i: nat)
    requires i < n <= |drafts| && AddNodes(seg, drafts, n, truncated).Ok?
    ensures IdentityIsRight(drafts, i)
    ensures var nodes := AddNodes(seg, drafts, n, truncated).value.nodes;
            |nodes| == n && nodes[i].id == drafts[i].id && ValidUtf8(nodes[i].name)
    decreases n
  {
    hide AddNode, IdentityIsRight, Knows, ValidUtf8;
    var d := AddNodes(seg, drafts, n - 1, truncated).value;
    KnownNodes(seg, drafts, n - 1, truncated);
    NodeCount(seg, drafts, n - 1, truncated);
    AddedIsNamed(seg, d, drafts, n - 1);
    if i < n - 1 {
      TakenAreRight(seg, drafts, n - 1, truncated, i);
      assert AddNodes(seg, drafts, n, truncated).value.nodes[..n - 1][i] == d.nodes[i];
    }
  }

  lemma NodeOfDocument(seg: Segmenter, draft: DocumentDraft, i: nat)
    requires Compile(seg, draft).Ok? && i < |draft.nodes| && i < 256
    ensures i < |Compile(seg, draft).value.nodes| && StandInText(Compile(seg, draft).value.nodes[i])
  {
    CompileKeeps(seg, draft);
    hide Compile, AllSound, SomethingLost, Tiles, StandInText, SumTotals, Indexed, ParentsFirst;
    TiledStandInText(Compile(seg, draft).value.nodes[i]);
  }

  /** In every document each node has an identity of its own, of the projection of the first, with an activation where
      it needs one, a role, a well-formed name, and clean rows with solid rectangles, one after the other. */
  lemma CompiledIsClean(seg: Segmenter, draft: DocumentDraft, i: nat)
    requires Compile(seg, draft).Ok? && i < |draft.nodes| && i < 256
    ensures var nodes := Compile(seg, draft).value.nodes;
            && i < |nodes| && nodes[i].id == draft.nodes[i].id
            && IdentityIsRight(draft.nodes, i) && RowsAreClean(nodes[i].rows) && ValidUtf8(nodes[i].name)
            && StandInText(nodes[i])
  {
    hide AddNodes, BuildNode, RowsAreClean, IdentityIsRight, ValidUtf8, StandInText;
    NodeOfDocument(seg, draft, i);
    var truncated := draft.truncated || |draft.nodes| > MAX_NODES;
    var start, named := BuiltFrom(seg, draft.nodes, KeptNodes(draft), truncated, i);
    BuiltIsClean(seg, start, named);
    TakenAreRight(seg, draft.nodes, KeptNodes(draft), truncated, i);
  }
}
