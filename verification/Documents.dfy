/** Building a document step by step, as its fields grow under the limits. */
module Documents {
  import opened Types
  import opened Utf8
  import opened Graphemes
  import opened DocumentSpec

  /** The number given to the last document; it is shared by all constructions and wraps at 64 bits. */
  class InstanceCounter {
    var last: uint64

    constructor ()
      ensures last == 0
    {
      last := 0;
    }

    method Next() returns (n: uint64)
      modifies this
      ensures n == last
      ensures last == if old(last) == MAX_UINT64 then 0 else old(last) + 1
    {
      last := if last == MAX_UINT64 then 0 else last + 1;
      n := last;
    }
  }

  lemma {:induction false} FitsAfter(pieces: seq<Text>, graphemes: nat, utf8Bytes: nat, k: nat)
    requires k <= Fits(pieces, graphemes, utf8Bytes)
    ensures Fits(pieces, graphemes, utf8Bytes)
         == k + Fits(pieces[k..], graphemes + k, utf8Bytes + |Concat(pieces[..k])|)
  {
    if k == 0 {
      assert pieces[0..] == pieces;
    } else {
      FitsAfter(pieces, graphemes, utf8Bytes, k - 1);
      var rest := pieces[k - 1..];
      assert rest[1..] == pieces[k..];
      assert pieces[..k] == pieces[..k - 1] + [pieces[k - 1]];
      ConcatOne(pieces[..k - 1], pieces[k - 1]);
    }
  }

  lemma AllFit(pieces: seq<Text>, graphemes: nat, utf8Bytes: nat)
    ensures Fits(pieces, graphemes, utf8Bytes) <= |pieces|
  {
  }

  /** After `k` clusters there is room for one more exactly when both budgets have it. */
  lemma FitsNext(pieces: seq<Text>, graphemes: nat, utf8Bytes: nat, k: nat)
    requires k <= Fits(pieces, graphemes, utf8Bytes) && k < |pieces|
    ensures k == Fits(pieces, graphemes, utf8Bytes)
       <==> graphemes + k == MAX_GRAPHEMES || |pieces[k]| > MAX_UTF8_BYTES - utf8Bytes - |Concat(pieces[..k])|
    ensures |Concat(pieces[..k + 1])| == |Concat(pieces[..k])| + |pieces[k]|
  {
    FitsAfter(pieces, graphemes, utf8Bytes, k);
    assert pieces[k..][0] == pieces[k];
    assert pieces[..k + 1] == pieces[..k] + [pieces[k]];
    ConcatOne(pieces[..k], pieces[k]);
  }

  lemma {:induction false} EarlyEndStays(seg: Segmenter, start: Totals, drafts: seq<RowDraft>, n: nat, m: nat)
    requires n <= m <= |drafts| && !AddRows(seg, start, drafts, n).More?
    ensures AddRows(seg, start, drafts, m) == AddRows(seg, start, drafts, n)
  {
    if n < m {
      EarlyEndStays(seg, start, drafts, n, m - 1);
    }
  }

  lemma {:induction false} EarlyErrorStays(seg: Segmenter, drafts: seq<NodeDraft>, n: nat, m: nat, truncated: bool)
    requires n <= m <= |drafts| && AddNodes(seg, drafts, n, truncated).Err?
    ensures AddNodes(seg, drafts, m, truncated) == AddNodes(seg, drafts, n, truncated)
  {
    if n < m {
      EarlyErrorStays(seg, drafts, n, m - 1, truncated);
    }
  }

  /** The document under construction. */
  class DocumentBuilder {
    var nodes: seq<DocumentNode>
    var index: map<NodeID, nat>
    var truncated: bool
    var rows: nat
    var graphemes: nat
    var utf8Bytes: nat

    constructor (truncated: bool)
      ensures Value() == Partial([], map[], Totals(0, 0, 0), truncated)
    {
      nodes, index := [], map[];
      this.truncated := truncated;
      rows, graphemes, utf8Bytes := 0, 0, 0;
    }

    function Counts(): Totals
      reads this
    {
      Totals(rows, graphemes, utf8Bytes)
    }

    function Value(): Partial
      reads this
    {
      Partial(nodes, index, Counts(), truncated)
    }

    /** The loop over the clusters of one row: takes clusters while the limits have room, checking one bound for
        each if the row has any. */
    method TakeClusters(seg: Segmenter, draft: RowDraft)
      returns (ok: bool, taken: seq<Text>, bounds: seq<Rect>, stopped: bool)
      modifies this`graphemes, this`utf8Bytes
      ensures var k := Fits(seg(draft.text), old(graphemes), old(utf8Bytes));
              && (ok <==> BoundsMatch(draft.bounds, k, k == |seg(draft.text)|))
              && (ok ==>
                    && taken == seg(draft.text)[..k]
                    && bounds == draft.bounds[..Min(|draft.bounds|, k)]
                    && (stopped <==> k < |seg(draft.text)|)
                    && graphemes == old(graphemes) + k
                    && utf8Bytes == old(utf8Bytes) + |Concat(taken)|)
    {
      var pieces := seg(draft.text);
      ghost var k := Fits(pieces, graphemes, utf8Bytes);
      assert Concat([]) == [];
      hide Fits, Concat;
      ok, taken, bounds, stopped := true, [], [], false;
      var clusterIndex := 0;
      while clusterIndex < |pieces|
        invariant clusterIndex <= k
        invariant taken == pieces[..clusterIndex]
        invariant draft.bounds != [] ==> clusterIndex <= |draft.bounds|
        invariant bounds == draft.bounds[..Min(|draft.bounds|, clusterIndex)]
        invariant draft.bounds != [] ==> forall i :: 0 <= i < clusterIndex ==> draft.bounds[i].Valid()
        invariant graphemes == old(graphemes) + clusterIndex
        invariant utf8Bytes == old(utf8Bytes) + |Concat(taken)|
      {
        var cluster := pieces[clusterIndex];
        FitsNext(pieces, old(graphemes), old(utf8Bytes), clusterIndex);
        if graphemes == MAX_GRAPHEMES || |cluster| > MAX_UTF8_BYTES - utf8Bytes {
          stopped := true;
          break;
        }
        if |draft.bounds| != 0 {
          if clusterIndex >= |draft.bounds| || !draft.bounds[clusterIndex].Valid() {
            ok := false;
            return;
          }
          bounds := bounds + [draft.bounds[clusterIndex]];
        }
        taken := taken + [cluster];
        graphemes := graphemes + 1;
        utf8Bytes := utf8Bytes + |cluster|;
        clusterIndex := clusterIndex + 1;
      }
      AllFit(pieces, old(graphemes), old(utf8Bytes));
      if !stopped && |draft.bounds| != 0 && clusterIndex != |draft.bounds| {
        ok := false;
      }
    }

    /** One turn of the row loop, on the rows and graphemes collected so far. */
    method TakeRow(seg: Segmenter, draft: RowDraft, rowsSoFar: seq<DocumentRow>, clusters: seq<Text>)
      returns (step: Step)
      modifies this`rows, this`graphemes, this`utf8Bytes
      ensures step == AddRow(seg, Progress(old(Counts()), rowsSoFar, clusters), draft)
      ensures !step.Failed? ==> Counts() == step.progress.totals
    {
      hide Fits;
      hide BoundsMatch;
      hide Concat;
      ghost var p := Progress(Counts(), rowsSoFar, clusters);
      if rows >= MAX_ROWS {
        return Stopped(Progress(Counts(), rowsSoFar, clusters));
      }
      if !ValidUtf8(draft.text) || HasLineBreak(draft.text) {
        return Failed(InvalidText);
      }
      var graphemesHere := clusters;
      if |rowsSoFar| > 0 && !rowsSoFar[|rowsSoFar| - 1].softWrapped {
        if graphemes == MAX_GRAPHEMES || utf8Bytes == MAX_UTF8_BYTES {
          return Stopped(Progress(Counts(), rowsSoFar, clusters));
        }
        graphemesHere := graphemesHere + [NEWLINE];
        graphemes := graphemes + 1;
        utf8Bytes := utf8Bytes + 1;
      }
      assert Progress(Counts(), rowsSoFar, graphemesHere) == p.Separated();
      var start := |graphemesHere|;
      var ok, taken, bounds, stopped := TakeClusters(seg, draft);
      if !ok {
        return Failed(InvalidBounds);
      }
      SliceAppended(graphemesHere, taken);
      graphemesHere := graphemesHere + taken;
      var end := |graphemesHere|;
      var row := DocumentRow(Concat(graphemesHere[start..end]), bounds, start, end, draft.softWrapped);
      rows := rows + 1;
      var progress := Progress(Counts(), rowsSoFar + [row], graphemesHere);
      step := if stopped then Stopped(progress) else More(progress);
    }

    /** The loop over the rows of one node. */
    method TakeRows(seg: Segmenter, drafts: seq<RowDraft>) returns (step: Step)
      modifies this`rows, this`graphemes, this`utf8Bytes
      ensures step == AddRows(seg, old(Counts()), drafts, |drafts|)
      ensures !step.Failed? ==> Counts() == step.progress.totals
    {
      hide AddRow;
      ghost var start := Counts();
      step := More(Progress(Counts(), [], []));
      for n := 0 to |drafts|
        invariant step == AddRows(seg, start, drafts, n)
        invariant step.More?
        invariant Counts() == step.progress.totals
      {
        step := TakeRow(seg, drafts[n], step.progress.rows, step.progress.graphemes);
        if !step.More? {
          EarlyEndStays(seg, start, drafts, n + 1, |drafts|);
          break;
        }
      }
    }

    /** Builds one node and charges it to the document. */
    method BuildNode(seg: Segmenter, draft: NodeDraft) returns (result: Result<(DocumentNode, bool)>)
      modifies this`rows, this`graphemes, this`utf8Bytes
      ensures match DocumentSpec.BuildNode(seg, old(Counts()), draft)
              case Err(e) => result == Err(e)
              case Ok(built) => result == Ok((built.node, built.stopped)) && Counts() == built.totals
    {
      var step := TakeRows(seg, draft.rows);
      if step.Failed? {
        return Err(step.error);
      }
      var nodeRows, clusters, stopped := step.progress.rows, step.progress.graphemes, step.Stopped?;
      var caret, hasCaret := 0, false;
      if draft.caret.Some? {
        if draft.caret.value < 0 {
          return Err(InvalidRange);
        }
        caret, hasCaret := draft.caret.value, true;
        if caret > |clusters| {
          caret, stopped := |clusters|, true;
        }
      }
      var selection, hasSelect := Span(0, 0), false;
      if draft.selection.Some? {
        selection := draft.selection.value;
        if selection.start < 0 || selection.end < selection.start {
          return Err(InvalidRange);
        }
        if selection.start > |clusters| {
          selection, stopped := selection.(start := |clusters|), true;
        }
        if selection.end > |clusters| {
          selection, stopped := selection.(end := |clusters|), true;
        }
        hasSelect := true;
      }
      result := Ok((DocumentNode(draft.id, draft.parent, draft.role, draft.name, Concat(clusters), nodeRows, clusters,
                                 caret, hasCaret, selection, hasSelect), stopped));
    }

    /** One turn of the node loop. */
    method AddNode(seg: Segmenter, draft: NodeDraft, position: nat, projection: uint64) returns (failure: Option<Error>)
      modifies this
      ensures DocumentSpec.AddNode(seg, old(Value()), draft, position, projection)
           == if failure.Some? then Err(failure.value) else Ok(Value())
    {
      var refused := ValidateNode(draft, position, projection, index);
      if refused.Some? {
        return refused;
      }
      ghost var before := Value();
      var named := draft;
      var remaining := MAX_UTF8_BYTES - utf8Bytes;
      if |draft.name| > remaining {
        var name := ValidUtf8Prefix(draft.name, remaining);
        named := draft.(name := name);
        truncated := true;
      }
      utf8Bytes := utf8Bytes + |named.name|;
      assert named == NamedDraft(draft, before.totals) && Counts() == Charged(before.totals, named);
      var built := BuildNode(seg, named);
      if built.Err? {
        return Some(built.error);
      }
      var (node, stopped) := built.value;
      index := index[node.id := |nodes|];
      nodes := nodes + [node];
      if stopped {
        truncated := true;
      }
      failure := None;
      ghost var b := DocumentSpec.BuildNode(seg, Charged(before.totals, named), named).value;
      assert b == Built(node, Counts(), stopped);
      assert Value() == Attach(before, NameIsCut(draft, before.totals), b);
    }
  }

  lemma NextNode(seg: Segmenter, drafts: seq<NodeDraft>, n: nat, truncated: bool, d: Partial)
    requires n < |drafts| && AddNodes(seg, drafts, n, truncated) == Ok(d)
    ensures AddNodes(seg, drafts, n + 1, truncated)
       == DocumentSpec.AddNode(seg, d, drafts[n], n, drafts[0].id.projection)
  {
  }

  /** The loop over the nodes that are kept. */
  method AddAll(seg: Segmenter, drafts: seq<NodeDraft>, limit: nat, builder: DocumentBuilder, ghost truncated: bool)
    returns (failure: Option<Error>)
    requires 0 < limit <= |drafts|
    requires builder.Value() == Partial([], map[], Totals(0, 0, 0), truncated)
    modifies builder
    ensures AddNodes(seg, drafts, limit, truncated) == if failure.Some? then Err(failure.value) else Ok(builder.Value())
  {
    hide DocumentSpec.AddNode;
    var rootProjection := drafts[0].id.projection;
    for n := 0 to limit
      invariant AddNodes(seg, drafts, n, truncated) == Ok(builder.Value())
    {
      NextNode(seg, drafts, n, truncated, builder.Value());
      failure := builder.AddNode(seg, drafts[n], n, rootProjection);
      if failure.Some? {
        EarlyErrorStays(seg, drafts, n + 1, limit, truncated);
        return;
      }
    }
    failure := None;
  }

  /** Builds a document; only a successful build, or one that finds the counter exhausted, takes a number. */
  method NewDocument(seg: Segmenter, draft: DocumentDraft, counter: InstanceCounter) returns (result: Result<Document>)
    modifies counter
    ensures result == DocumentSpec.NewDocument(seg, draft, old(counter.last))
    ensures counter.last == NextInstance(Compile(seg, draft), old(counter.last))
  {
    if DraftFails(draft) {
      return Err(InvalidDocument);
    }
    var limit := |draft.nodes|;
    var nodesOmitted := limit > MAX_NODES;
    var builder := new DocumentBuilder(draft.truncated);
    if nodesOmitted {
      limit := MAX_NODES;
      builder.truncated := true;
    }
    var failure := AddAll(seg, draft.nodes, limit, builder, builder.truncated);
    if failure.Some? {
      return Err(failure.value);
    }
    ghost var d := builder.Value();
    assert CompileNodes(seg, draft) == Ok(d);
    assert Compile(seg, draft) == Conclude(draft, d);
    var focus := NO_NODE;
    if draft.focus.Valid() {
      if draft.focus in builder.index {
        focus := draft.focus;
      } else if !nodesOmitted {
        return Err(InvalidIdentity(FocusFault));
      }
    } else if draft.focus != NO_NODE {
      return Err(InvalidIdentity(FocusFault));
    }
    var instance := counter.Next();
    if instance == 0 {
      return Err(CounterExhausted);
    }
    result := Ok(Document(draft.providerID, draft.generation, instance, builder.nodes, builder.index, focus,
                          builder.truncated, builder.rows, builder.graphemes, builder.utf8Bytes));
  }
}
