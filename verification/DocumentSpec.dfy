/** The semantic document as a value, and what building one from a draft yields. */
module DocumentSpec {
  import opened Types
  import opened Utf8
  import opened Graphemes

  datatype DocumentRow = DocumentRow(text: Text, bounds: seq<Rect>, start: nat, end: nat, softWrapped: bool)

  datatype DocumentNode = DocumentNode(
    id: NodeID,
    parent: NodeID,
    role: Role,
    name: Text,
    text: Text,
    rows: seq<DocumentRow>,
    graphemes: seq<Text>,
    caret: int,
    hasCaret: bool,
    selection: Span,
    hasSelect: bool)

  datatype Document = Document(
    providerID: uint64,
    generation: uint64,
    instance: uint64,
    nodes: seq<DocumentNode>,
    index: map<NodeID, nat>,
    focus: NodeID,
    truncated: bool,
    rows: nat,
    graphemes: nat,
    utf8Bytes: nat)

  /** The index of a document leads to its nodes. */
  predicate IndexInRange(document: Document) {
    forall id :: id in document.index ==> document.index[id] < |document.nodes|
  }

  /** The document-wide totals that the limits bound. */
  datatype Totals = Totals(rows: nat, graphemes: nat, utf8Bytes: nat) {
    predicate WithinLimits() {
      rows <= MAX_ROWS && graphemes <= MAX_GRAPHEMES && utf8Bytes <= MAX_UTF8_BYTES
    }
  }

  /** A node under construction, with the totals of the whole document so far. */
  datatype Progress = Progress(totals: Totals, rows: seq<DocumentRow>, graphemes: seq<Text>) {
    predicate NeedsSeparator() {
      |rows| > 0 && !rows[|rows| - 1].softWrapped
    }

    predicate Full() {
      totals.graphemes == MAX_GRAPHEMES || totals.utf8Bytes == MAX_UTF8_BYTES
    }

    function Separated(): Progress {
      if NeedsSeparator()
      then Progress(Totals(totals.rows, totals.graphemes + 1, totals.utf8Bytes + 1), rows, graphemes + [NEWLINE])
      else this
    }

    function WithRow(draft: RowDraft, taken: seq<Text>): Progress {
      var row := DocumentRow(Concat(taken), draft.bounds[..Min(|draft.bounds|, |taken|)], |graphemes|,
                             |graphemes| + |taken|, draft.softWrapped);
      Progress(Totals(totals.rows + 1, totals.graphemes + |taken|, totals.utf8Bytes + |Concat(taken)|),
               rows + [row], graphemes + taken)
    }
  }

  datatype Step = More(progress: Progress) | Stopped(progress: Progress) | Failed(error: Error)

  /** How many of the pieces the budgets have room for. */
  function Fits(pieces: seq<Text>, graphemes: nat, utf8Bytes: nat): (k: nat)
    ensures k <= |pieces|
  {
    if pieces == [] || graphemes == MAX_GRAPHEMES || |pieces[0]| > MAX_UTF8_BYTES - utf8Bytes then 0
    else 1 + Fits(pieces[1..], graphemes + 1, utf8Bytes + |pieces[0]|)
  }

  /** Bounds must be absent, or one valid rectangle for each cluster taken and, when all are taken, no more. */
  predicate BoundsMatch(bounds: seq<Rect>, taken: nat, all: bool) {
    || bounds == []
    || (taken <= |bounds| && (all ==> taken == |bounds|) && forall i :: 0 <= i < taken ==> bounds[i].Valid())
  }

  function AddRow(seg: Segmenter, p: Progress, draft: RowDraft): Step {
    if p.totals.rows >= MAX_ROWS then Stopped(p)
    else if !ValidUtf8(draft.text) || HasLineBreak(draft.text) then Failed(InvalidText)
    else if p.NeedsSeparator() && p.Full() then Stopped(p)
    else
      var q := p.Separated();
      var pieces := seg(draft.text);
      var k := Fits(pieces, q.totals.graphemes, q.totals.utf8Bytes);
      if !BoundsMatch(draft.bounds, k, k == |pieces|) then Failed(InvalidBounds)
      else if k < |pieces| then Stopped(q.WithRow(draft, pieces[..k]))
      else More(q.WithRow(draft, pieces[..k]))
  }

  /** The rows of a draft node up to position `n`. */
  function AddRows(seg: Segmenter, start: Totals, drafts: seq<RowDraft>, n: nat): Step
    requires n <= |drafts|
  {
    if n == 0 then More(Progress(start, [], []))
    else
      match AddRows(seg, start, drafts, n - 1)
      case More(p) => AddRow(seg, p, drafts[n - 1])
      case other => other
  }

  datatype Built = Built(node: DocumentNode, totals: Totals, stopped: bool)

  predicate CaretFails(draft: NodeDraft) {
    draft.caret.Some? && draft.caret.value < 0
  }

  predicate SelectionFails(draft: NodeDraft) {
    draft.selection.Some? && (draft.selection.value.start < 0
                              || draft.selection.value.end < draft.selection.value.start)
  }

  /** The node with its caret and selection clamped to its graphemes. */
  function Finish(draft: NodeDraft, p: Progress, stopped: bool): Built {
    var limit := |p.graphemes|;
    var caret := if draft.caret.Some? then draft.caret.value else 0;
    var selection := if draft.selection.Some? then draft.selection.value else Span(0, 0);
    Built(DocumentNode(draft.id, draft.parent, draft.role, draft.name, Concat(p.graphemes), p.rows, p.graphemes,
                       Min(caret, limit), draft.caret.Some?,
                       Span(Min(selection.start, limit), Min(selection.end, limit)), draft.selection.Some?),
          p.totals,
          stopped || caret > limit || selection.start > limit || selection.end > limit)
  }

  function BuildNode(seg: Segmenter, start: Totals, draft: NodeDraft): Result<Built> {
    match AddRows(seg, start, draft.rows, |draft.rows|)
    case Failed(e) => Err(e)
    case More(p) =>
      if CaretFails(draft) || SelectionFails(draft) then Err(InvalidRange) else Ok(Finish(draft, p, false))
    case Stopped(p) =>
      if CaretFails(draft) || SelectionFails(draft) then Err(InvalidRange) else Ok(Finish(draft, p, true))
  }

  /** The identity check of one draft node at its position. */
  function ValidateNode(node: NodeDraft, position: nat, projection: uint64, seen: map<NodeID, nat>): Option<Error> {
    if !node.id.Valid() || node.id.projection != projection || !node.role.Valid() || !ValidUtf8(node.name)
       || |node.name| > MAX_NODE_NAME_BYTES then Some(InvalidIdentity(NodeFault))
    else if node.id.kind.Activated() && node.id.activation == 0 then Some(InvalidIdentity(ActivationFault))
    else if node.id in seen then Some(InvalidIdentity(DuplicateFault))
    else if position == 0 then
      if node.parent != NO_NODE then Some(InvalidIdentity(RootParentFault)) else None
    else if !node.parent.Valid() then Some(InvalidIdentity(MissingParentFault))
    else if node.parent !in seen then Some(InvalidIdentity(ParentOrderFault))
    else None
  }

  /** The nodes of a document under construction. */
  datatype Partial = Partial(nodes: seq<DocumentNode>, index: map<NodeID, nat>, totals: Totals, truncated: bool)

  predicate NameIsCut(draft: NodeDraft, totals: Totals) {
    |draft.name| > MAX_UTF8_BYTES - totals.utf8Bytes
  }

  function NamedDraft(draft: NodeDraft, totals: Totals): NodeDraft {
    if NameIsCut(draft, totals) then draft.(name := Shortened(draft.name, MAX_UTF8_BYTES - totals.utf8Bytes)) else draft
  }

  /** The totals once the name has been charged. */
  function Charged(totals: Totals, named: NodeDraft): Totals {
    Totals(totals.rows, totals.graphemes, totals.utf8Bytes + |named.name|)
  }

  function Attach(d: Partial, cut: bool, built: Built): Partial {
    Partial(d.nodes + [built.node], d.index[built.node.id := |d.nodes|], built.totals,
            d.truncated || cut || built.stopped)
  }

  function AddNode(seg: Segmenter, d: Partial, draft: NodeDraft, position: nat, projection: uint64): Result<Partial> {
    match ValidateNode(draft, position, projection, d.index)
    case Some(e) => Err(e)
    case None =>
      var named := NamedDraft(draft, d.totals);
      match BuildNode(seg, Charged(d.totals, named), named)
      case Err(e) => Err(e)
      case Ok(built) => Ok(Attach(d, NameIsCut(draft, d.totals), built))
  }

  function AddNodes(seg: Segmenter, drafts: seq<NodeDraft>, n: nat, truncated: bool): Result<Partial>
    requires n <= |drafts|
  {
    if n == 0 then Ok(Partial([], map[], Totals(0, 0, 0), truncated))
    else
      match AddNodes(seg, drafts, n - 1, truncated)
      case Err(e) => Err(e)
      case Ok(d) => AddNode(seg, d, drafts[n - 1], n - 1, drafts[0].id.projection)
  }

  predicate DraftFails(draft: DocumentDraft) {
    draft.providerID == 0 || draft.generation == 0 || draft.generation == MAX_UINT64 || |draft.nodes| == 0
  }

  function KeptNodes(draft: DocumentDraft): nat {
    Min(|draft.nodes|, MAX_NODES)
  }

  predicate FocusFails(draft: DocumentDraft, index: map<NodeID, nat>) {
    if draft.focus.Valid() then draft.focus !in index && |draft.nodes| <= MAX_NODES else draft.focus != NO_NODE
  }

  /** The document its nodes make, if the focus can be placed. */
  function Conclude(draft: DocumentDraft, d: Partial): Result<Document> {
    if FocusFails(draft, d.index) then Err(InvalidIdentity(FocusFault))
    else
      Ok(Document(draft.providerID, draft.generation, 0, d.nodes, d.index,
                  if draft.focus.Valid() && draft.focus in d.index then draft.focus else NO_NODE,
                  d.truncated, d.totals.rows, d.totals.graphemes, d.totals.utf8Bytes))
  }

  function CompileNodes(seg: Segmenter, draft: DocumentDraft): Result<Partial> {
    AddNodes(seg, draft.nodes, KeptNodes(draft), draft.truncated || |draft.nodes| > MAX_NODES)
  }

  /** Everything about a document but its instance number. */
  function Compile(seg: Segmenter, draft: DocumentDraft): Result<Document> {
    if DraftFails(draft) then Err(InvalidDocument)
    else
      match CompileNodes(seg, draft)
      case Err(e) => Err(e)
      case Ok(d) => Conclude(draft, d)
  }

  function Numbered(compiled: Result<Document>, lastInstance: uint64): Result<Document> {
    match compiled
    case Err(e) => Err(e)
    case Ok(document) =>
      if lastInstance == MAX_UINT64 then Err(CounterExhausted) else Ok(document.(instance := lastInstance + 1))
  }

  /** The counter after a construction; only one that compiled takes a number. */
  function NextInstance(compiled: Result<Document>, lastInstance: uint64): uint64 {
    if compiled.Err? then lastInstance else if lastInstance == MAX_UINT64 then 0 else lastInstance + 1
  }

  /** A new document takes the number after the last one; the number 0 marks an exhausted counter. */
  function NewDocument(seg: Segmenter, draft: DocumentDraft, lastInstance: uint64): Result<Document> {
    Numbered(Compile(seg, draft), lastInstance)
  }
}
