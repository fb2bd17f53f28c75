/** What each announced event of a transition means. */
module TransitionMeaning {
  import opened Types
  import opened DocumentSpec
  import opened DocumentProperties
  import opened EventSpec

  /** The node kept its identity and the change of the kind happened to it, and was asked for. */
  predicate NodeChanged(kind: EventKind, before: DocumentNode, node: DocumentNode, intents: Intents) {
    match kind
    case TextChanged => intents.text && before.text != node.text
    case CaretChanged => intents.caret && (before.hasCaret != node.hasCaret || before.caret != node.caret)
    case SelectionChanged =>
      intents.selection && (before.hasSelect != node.hasSelect || before.selection != node.selection)
    case _ => false
  }

  lemma NodeChangesMeaning(before: DocumentNode, node: DocumentNode, next: Document, intents: Intents,
                           event: SemanticEvent)
    ensures event in NodeChanges(before, node, next, intents)
       <==> NodeChanged(event.kind, before, node, intents) && event == Change(event.kind, next, node.id)
  {
  }

  /** The event tells of one of the first `n` nodes. */
  ghost predicate Tells(previous: Document, next: Document, intents: Intents, n: nat, event: SemanticEvent)
    requires n <= |next.nodes| && IndexInRange(previous)
  {
    && event == Change(event.kind, next, event.node)
    && exists i :: 0 <= i < n && next.nodes[i].id == event.node && event.node in previous.index
                   && NodeChanged(event.kind, previous.nodes[previous.index[event.node]], next.nodes[i], intents)
  }

  lemma {:induction false} NodeDiffsMeaning(previous: Document, next: Document, intents: Intents, n: nat,
                                            event: SemanticEvent)
    requires n <= |next.nodes| && IndexInRange(previous)
    ensures event in NodeDiffs(previous, next, intents, n) <==> Tells(previous, next, intents, n, event)
  {
    hide NodeChanges, NodeChanged;
    if n > 0 {
      NodeDiffsMeaning(previous, next, intents, n - 1, event);
      var node := next.nodes[n - 1];
      if node.id in previous.index {
        NodeChangesMeaning(previous.nodes[previous.index[node.id]], node, next, intents, event);
      }
    }
  }

  /** A kind of change to one node is announced for an identity exactly when both documents have the node, the
      change happened to it and was asked for. */
  ghost predicate NodeEventDue(kind: EventKind, previous: Document, next: Document, intents: Intents, id: NodeID)
    requires IndexInRange(previous) && IndexInRange(next)
  {
    && id in previous.index && id in next.index
    && NodeChanged(kind, previous.nodes[previous.index[id]], next.nodes[next.index[id]], intents)
  }

  lemma TellsWhenDue(previous: Document, next: Document, intents: Intents, event: SemanticEvent)
    requires IndexInRange(previous) && IndexInRange(next) && Indexed(next.nodes, next.index)
    ensures Tells(previous, next, intents, |next.nodes|, event)
       <==> event == Change(event.kind, next, event.node)
            && NodeEventDue(event.kind, previous, next, intents, event.node)
  {
    hide NodeChanged;
    if Tells(previous, next, intents, |next.nodes|, event) {
      var i :| 0 <= i < |next.nodes| && next.nodes[i].id == event.node && event.node in previous.index
               && NodeChanged(event.kind, previous.nodes[previous.index[event.node]], next.nodes[i], intents);
      assert next.index[next.nodes[i].id] == i;
    }
    if event.node in next.index {
      assert next.nodes[next.index[event.node]].id == event.node;
    }
  }

  /** What a transition announces, event by event: text, caret and selection for the nodes of both documents they
      changed for, the topology and the focus when they changed, and an invalidation when the truncation or the
      geometry did; each only if it was asked for, but the truncation always. */
  lemma DiffsMeaning(previous: Document, next: Document, intents: Intents, event: SemanticEvent)
    requires IndexInRange(previous) && IndexInRange(next) && Indexed(next.nodes, next.index)
    ensures event in DocumentDiffs(previous, next, intents) <==>
              && event == Change(event.kind, next, event.node)
              && match event.kind
                 case TextChanged | CaretChanged | SelectionChanged =>
                   NodeEventDue(event.kind, previous, next, intents, event.node)
                 case TopologyChanged => event.node == NO_NODE && intents.topology && TopologyDiffers(previous, next)
                 case FocusChanged => event.node == next.focus && intents.focus && previous.focus != next.focus
                 case DocumentInvalidated =>
                   && event.node == NO_NODE
                   && (previous.truncated != next.truncated || (intents.document && GeometryDiffers(previous, next)))
                 case _ => false
  {
    TellsWhenDue(previous, next, intents, event);
    NodeDiffsMeaning(previous, next, intents, |next.nodes|, event);
    OnlyNodeKinds(previous, next, intents, event);
    DiffsParts(previous, next, intents, event);
    hide DocumentDiffs, NodeDiffs, Tells, TopologyDiffers, GeometryDiffers, NodeEventDue, Indexed;
  }

  lemma DiffsParts(previous: Document, next: Document, intents: Intents, event: SemanticEvent)
    requires IndexInRange(previous)
    ensures event in DocumentDiffs(previous, next, intents) <==>
              || (event == Change(DocumentInvalidated, next, NO_NODE)
                  && (previous.truncated != next.truncated || (intents.document && GeometryDiffers(previous, next))))
              || (event == Change(TopologyChanged, next, NO_NODE)
                  && intents.topology && TopologyDiffers(previous, next))
              || ((intents.text || intents.caret || intents.selection)
                  && event in NodeDiffs(previous, next, intents, |next.nodes|))
              || (event == Change(FocusChanged, next, next.focus) && intents.focus && previous.focus != next.focus)
  {
    hide NodeDiffs, TopologyDiffers, GeometryDiffers;
  }

  /** A node event needs the intent of its kind. */
  lemma OnlyNodeKinds(previous: Document, next: Document, intents: Intents, event: SemanticEvent)
    requires IndexInRange(previous) && IndexInRange(next)
    ensures NodeEventDue(event.kind, previous, next, intents, event.node) ==>
              && (intents.text || intents.caret || intents.selection)
              && (event.kind == TextChanged || event.kind == CaretChanged || event.kind == SelectionChanged)
  {
  }
}
