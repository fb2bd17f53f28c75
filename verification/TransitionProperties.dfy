/** When a transition is announced at all: exactly when something a client can observe has changed. */
module TransitionProperties {
  import opened Types
  import opened DocumentSpec
  import opened DocumentProperties
  import opened EventSpec
  import opened SchedulerProperties

  datatype ObservedRow = ObservedRow(softWrapped: bool, bounds: seq<Rect>)

  datatype ObservedNode = ObservedNode(id: NodeID, parent: NodeID, role: Role, name: Text, text: Text, hasCaret: bool,
                                       caret: int, hasSelect: bool, selection: Span, rows: seq<ObservedRow>)

  datatype ObservedDocument = ObservedDocument(truncated: bool, focus: NodeID, nodes: seq<ObservedNode>)

  function ObserveNode(node: DocumentNode): ObservedNode {
    ObservedNode(node.id, node.parent, node.role, node.name, node.text, node.hasCaret, node.caret, node.hasSelect,
                 node.selection,
                 seq(|node.rows|, i requires 0 <= i < |node.rows| =>
                   ObservedRow(node.rows[i].softWrapped, node.rows[i].bounds)))
  }

  /** What the comparison of two documents looks at. */
  function Observe(document: Document): ObservedDocument {
    ObservedDocument(document.truncated, document.focus,
                     seq(|document.nodes|, i requires 0 <= i < |document.nodes| => ObserveNode(document.nodes[i])))
  }

  /** The parts of a node the three node intents compare. */
  predicate ContentDiffers(left: DocumentNode, right: DocumentNode) {
    || left.text != right.text
    || left.hasCaret != right.hasCaret || left.caret != right.caret
    || left.hasSelect != right.hasSelect || left.selection != right.selection
  }

  lemma ObservedNodeDiffers(left: DocumentNode, right: DocumentNode)
    ensures ObserveNode(left) != ObserveNode(right)
       <==> NodeTopologyDiffers(left, right) || NodeGeometryDiffers(left, right) || ContentDiffers(left, right)
  {
    var a, b := ObserveNode(left), ObserveNode(right);
    if |left.rows| == |right.rows| {
      if r :| 0 <= r < |right.rows| && RowGeometryDiffers(left.rows[r], right.rows[r]) {
        assert a.rows[r] != b.rows[r];
      } else {
        forall r | 0 <= r < |right.rows|
          ensures a.rows[r] == b.rows[r]
        {
          assert !RowGeometryDiffers(left.rows[r], right.rows[r]);
        }
        assert a.rows == b.rows;
      }
    } else {
      assert |a.rows| != |b.rows|;
    }
  }

  lemma NodeChangesEmpty(before: DocumentNode, node: DocumentNode, next: Document)
    ensures NodeChanges(before, node, next, ALL_INTENTS) == [] <==> !ContentDiffers(before, node)
  {
  }

  /** With the same identities in the same places, the node differences are empty exactly when no node's content
      changed; this rests on the index leading each identity to its own position. */
  lemma {:induction false} NodeDiffsEmpty(previous: Document, next: Document, n: nat)
    requires Indexed(previous.nodes, previous.index) && IndexInRange(previous)
    requires |previous.nodes| == |next.nodes| && n <= |next.nodes|
    requires forall i :: 0 <= i < n ==> previous.nodes[i].id == next.nodes[i].id
    ensures NodeDiffs(previous, next, ALL_INTENTS, n) == []
       <==> forall i :: 0 <= i < n ==> !ContentDiffers(previous.nodes[i], next.nodes[i])
  {
    hide NodeChanges, ContentDiffers, Indexed;
    if n > 0 {
      NodeDiffsEmpty(previous, next, n - 1);
      assert previous.nodes[n - 1].id == next.nodes[n - 1].id;
      NodeChangesEmpty(previous.nodes[n - 1], next.nodes[n - 1], next);
      IndexedAt(previous, n - 1);
    }
  }

  lemma IndexedAt(document: Document, i: nat)
    requires Indexed(document.nodes, document.index) && i < |document.nodes|
    ensures document.nodes[i].id in document.index && document.index[document.nodes[i].id] == i
  {
  }

  /** Documents of the same shape: no node moved, and only contents can differ. */
  lemma SameShape(previous: Document, next: Document)
    requires Indexed(previous.nodes, previous.index) && IndexInRange(previous)
    requires !GeometryDiffers(previous, next) && !TopologyDiffers(previous, next)
    ensures |previous.nodes| == |next.nodes|
    ensures NodeDiffs(previous, next, ALL_INTENTS, |next.nodes|) == []
       <==> Observe(previous).nodes == Observe(next).nodes
  {
    hide ObserveNode, ContentDiffers, Indexed, NodeTopologyDiffers, NodeGeometryDiffers, NodeDiffs;
    forall i | 0 <= i < |next.nodes|
      ensures previous.nodes[i].id == next.nodes[i].id
      ensures ObserveNode(previous.nodes[i]) == ObserveNode(next.nodes[i])
         <==> !ContentDiffers(previous.nodes[i], next.nodes[i])
    {
      ObservedNodeDiffers(previous.nodes[i], next.nodes[i]);
      assert !NodeTopologyDiffers(previous.nodes[i], next.nodes[i]);
      assert !NodeGeometryDiffers(previous.nodes[i], next.nodes[i]);
      SameIdentity(previous.nodes[i], next.nodes[i]);
    }
    NodeDiffsEmpty(previous, next, |next.nodes|);
    SameNodes(previous, next);
  }

  lemma SameIdentity(left: DocumentNode, right: DocumentNode)
    requires !NodeTopologyDiffers(left, right)
    ensures left.id == right.id
  {
  }

  /** Documents that look the same have the same shape. */
  lemma SameLookSameShape(previous: Document, next: Document)
    requires Observe(previous) == Observe(next)
    ensures previous.truncated == next.truncated && previous.focus == next.focus
    ensures !GeometryDiffers(previous, next) && !TopologyDiffers(previous, next)
  {
    hide ObserveNode, NodeTopologyDiffers, NodeGeometryDiffers, ContentDiffers;
    var a, b := Observe(previous), Observe(next);
    assert |a.nodes| == |previous.nodes| && |b.nodes| == |next.nodes|;
    forall i | 0 <= i < |next.nodes|
      ensures !NodeTopologyDiffers(previous.nodes[i], next.nodes[i])
      ensures !NodeGeometryDiffers(previous.nodes[i], next.nodes[i])
    {
      ObservedNodeDiffers(previous.nodes[i], next.nodes[i]);
      assert a.nodes[i] == b.nodes[i];
    }
  }

  lemma DiffsEmptyIffUnchanged(previous: Document, next: Document)
    requires Indexed(previous.nodes, previous.index) && IndexInRange(previous)
    ensures DocumentDiffs(previous, next, ALL_INTENTS) == [] <==> Observe(previous) == Observe(next)
  {
    hide Indexed, NodeDiffs, GeometryDiffers, TopologyDiffers;
    if !GeometryDiffers(previous, next) && !TopologyDiffers(previous, next) {
      SameShape(previous, next);
    } else if Observe(previous) == Observe(next) {
      SameLookSameShape(previous, next);
    }
  }

  lemma SameNodes(previous: Document, next: Document)
    requires |previous.nodes| == |next.nodes|
    ensures Observe(previous).nodes == Observe(next).nodes
       <==> forall i :: 0 <= i < |next.nodes| ==> ObserveNode(previous.nodes[i]) == ObserveNode(next.nodes[i])
  {
    var a, b := Observe(previous).nodes, Observe(next).nodes;
    assert |a| == |b|;
    assert forall i :: 0 <= i < |a| ==> a[i] == ObserveNode(previous.nodes[i]) && b[i] == ObserveNode(next.nodes[i]);
    if forall i :: 0 <= i < |next.nodes| ==> ObserveNode(previous.nodes[i]) == ObserveNode(next.nodes[i]) {
      assert a == b;
    }
  }

  /** In a freshly begun cycle of an open, active scheduler, a transition between two documents of one provider
      with every intent set is followed by a drain that returns events exactly when the observable documents
      differ. */
  lemma DrainIffChanged(s: SchedulerState, previous: Document, next: Document)
    requires !s.closed && s.active
    requires IndexInRange(previous) && Indexed(previous.nodes, previous.index)
    requires previous.providerID == next.providerID && next.providerID != 0
    ensures var begun := Serve(s, BeginCycle).1;
            var queued := Serve(begun, QueueTransition(previous, next, ALL_INTENTS)).1;
            Serve(queued, Drain).0 != [] <==> Observe(previous) != Observe(next)
  {
    hide QueueAll, Drained, DocumentDiffs, Observe, Serve, Indexed;
    BeginsFresh(s);
    var begun := Serve(s, BeginCycle).1;
    var events := DocumentDiffs(previous, next, ALL_INTENTS);
    ServesDiffs(begun, previous, next);
    FreshDrain(begun.(providerID := next.providerID, generation := next.generation), events);
    ServesDrain(Serve(begun, QueueTransition(previous, next, ALL_INTENTS)).1);
    DiffsEmptyIffUnchanged(previous, next);
  }

  /** Every document that was built meets what the transition lemmas ask of it. */
  lemma WellFormedIndex(document: Document)
    requires WellFormed(document)
    ensures Indexed(document.nodes, document.index) && IndexInRange(document) && document.providerID != 0
  {
  }

  lemma BeginsFresh(s: SchedulerState)
    requires !s.closed && s.active
    ensures var begun := Serve(s, BeginCycle).1;
            && !begun.closed && begun.active && !begun.published
            && begun.pending == map[] && begun.order == [] && !begun.overflow
  {
  }

  lemma ServesDiffs(s: SchedulerState, previous: Document, next: Document)
    requires !s.closed && s.active
    requires IndexInRange(previous) && previous.providerID == next.providerID && next.providerID != 0
    ensures Serve(s, QueueTransition(previous, next, ALL_INTENTS)).1
         == QueueAll(s.(providerID := next.providerID, generation := next.generation),
                     DocumentDiffs(previous, next, ALL_INTENTS))
  {
    hide QueueAll, DocumentDiffs;
  }

  lemma ServesDrain(s: SchedulerState)
    ensures Serve(s, Drain) == Drained(s)
  {
  }

  /** What a drain returns when only `events` have been queued since the cycle began. */
  lemma FreshDrain(start: SchedulerState, events: seq<SemanticEvent>)
    requires !start.closed && start.active && !start.published
    requires start.pending == map[] && start.order == [] && !start.overflow
    ensures Drained(QueueAll(start, events)).0 == Coalesced(events, start.providerID, start.generation)
    ensures Drained(QueueAll(start, events)).0 != [] <==> events != []
  {
    var a := LogState(true, false, false, start.providerID, start.generation, [], start.stats);
    assert Refines(start, a);
    hide QueueAll, Drained, Refines, LoggedAll;
    QueueAllRefines(start, a, events);
    DrainRefines(QueueAll(start, events), LoggedAll(a, events));
    LoggedAllLog(a, events);
    assert a.log + events == events;
    CoalescedEmpty(events, start.providerID, start.generation);
  }

  lemma {:induction false} LoggedAllLog(a: LogState, events: seq<SemanticEvent>)
    ensures LoggedAll(a, events).log == a.log + events
    ensures LoggedAll(a, events) == a.(log := a.log + events, stats := LoggedAll(a, events).stats)
  {
    if events != [] {
      LoggedAllLog(a, events[..|events| - 1]);
      assert events == events[..|events| - 1] + [events[|events| - 1]];
    } else {
      assert a.log + events == a.log;
    }
  }

  lemma CoalescedEmpty(log: seq<SemanticEvent>, providerID: uint64, generation: uint64)
    ensures Coalesced(log, providerID, generation) == [] <==> log == []
  {
    FirstSeenEmpty(log);
  }
}
