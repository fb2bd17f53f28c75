/** The semantic scheduler, whose methods update its fields under its lock. */
module Scheduler {
  import opened Types
  import opened DocumentSpec
  import opened EventSpec

  class SemanticScheduler {
    var active: bool
    var closed: bool
    var published: bool
    var providerID: uint64
    var generation: uint64
    var pending: map<EventKey, SemanticEvent>
    var order: seq<EventKey>
    var overflow: bool
    var stats: SchedulerStats

    constructor (active: bool)
      ensures State() == Initial(active)
    {
      this.active := active;
      closed, published, overflow := false, false, false;
      providerID, generation := 0, 0;
      pending, order := map[], [];
      stats := SchedulerStats(0, 0, 0, 0);
    }

    function State(): SchedulerState
      reads this
    {
      SchedulerState(active, closed, published, providerID, generation, pending, order, overflow, stats)
    }

    method BeginCycle() returns (listening: bool)
      modifies this
      ensures State() == Serve(old(State()), Call.BeginCycle).1
      ensures listening == (active && !closed)
    {
      if closed {
        return false;
      }
      ClearLocked();
      published := false;
      stats := stats.(cycles := stats.cycles + 1);
      return active;
    }

    method SetActive(active: bool)
      modifies this
      ensures State() == Serve(old(State()), Call.SetActive(active)).1
    {
      if closed {
        return;
      }
      this.active := active;
      if !active {
        ClearLocked();
      }
    }

    method QueueTransition(previous: Document, next: Document, intents: Intents)
      requires IndexInRange(previous)
      modifies this
      ensures State() == Serve(old(State()), Call.QueueTransition(previous, next, intents)).1
    {
      if closed || !active || intents.None() || next.providerID == 0 {
        return;
      }
      providerID, generation := next.providerID, next.generation;
      ghost var s := State();
      if previous.providerID == 0 || previous.providerID != next.providerID {
        QueueLocked(Invalidation(next.providerID, next.generation));
        QueueAllOne(s, Invalidation(next.providerID, next.generation));
        return;
      }
      QueueDiffs(previous, next, intents);
    }

    /** Queues the differences of two documents of one provider. */
    method QueueDiffs(previous: Document, next: Document, intents: Intents)
      requires IndexInRange(previous)
      modifies this
      ensures State() == QueueAll(old(State()), DocumentDiffs(previous, next, intents))
    {
      hide *;
      ghost var s := State();
      QueueAllNone(s);
      var invalid := Invalidation(next.providerID, next.generation);
      ghost var first := QueueIf(previous.truncated != next.truncated, invalid, s, []);
      var geometryChanged := false;
      if intents.document {
        geometryChanged := DocumentGeometryChanged(previous, next);
      }
      ghost var second := QueueIf(geometryChanged, invalid, s, first);
      var topologyChanged := false;
      if intents.topology {
        topologyChanged := DocumentTopologyChanged(previous, next);
      }
      ghost var third := QueueIf(topologyChanged, Change(TopologyChanged, next, NO_NODE), s, second);
      ghost var fourth := third;
      if intents.text || intents.caret || intents.selection {
        fourth := QueueNodeDiffs(previous, next, intents, s, third);
      }
      ghost var fifth := QueueIf(intents.focus && previous.focus != next.focus,
                                 Change(FocusChanged, next, next.focus), s, fourth);
      DiffsInOrder(previous, next, intents, first, second, third, fourth, fifth);
    }

    method QueueAnnouncement(providerID: uint64, generation: uint64, kind: AnnouncementKind)
      modifies this
      ensures State() == Serve(old(State()), Call.QueueAnnouncement(providerID, generation, kind)).1
    {
      if closed || !active || providerID == 0 || generation == 0 || (kind != Bell && kind != Notification) {
        return;
      }
      this.providerID, this.generation := providerID, generation;
      ghost var s := State();
      var event := SemanticEvent(Announcement, providerID, generation, NO_NODE, kind);
      QueueLocked(event);
      QueueAllOne(s, event);
    }

    method Drain() returns (events: seq<SemanticEvent>)
      modifies this
      ensures (events, State()) == Serve(old(State()), Call.Drain)
    {
      if closed || !active || published || (!overflow && |order| == 0) {
        return [];
      }
      published := true;
      events := [];
      if overflow {
        events := [Invalidation(providerID, generation)];
      } else {
        for k := 0 to |order|
          invariant |events| == k
          invariant forall i :: 0 <= i < k ==> events[i] == Pending(old(State()), order[i])
        {
          events := events + [if order[k] in pending then pending[order[k]] else NO_EVENT];
        }
      }
      stats := stats.(publications := stats.publications + 1, events := stats.events + |events|);
      ClearLocked();
      assert events == Drained(old(State())).0;
    }

    method Close()
      modifies this
      ensures State() == Serve(old(State()), Call.Close).1
    {
      closed := true;
      active := false;
      ClearLocked();
    }

    method QueueLocked(event: SemanticEvent)
      modifies this
      ensures State() == Queue(old(State()), event)
    {
      if overflow {
        return;
      }
      var keyNode := event.node;
      if event.kind == FocusChanged {
        keyNode := NO_NODE;
      }
      var key := EventKey(event.kind, keyNode, event.announcement);
      if key in pending {
        pending := pending[key := event];
        return;
      }
      if |order| == MAX_SEMANTIC_EVENTS {
        overflow := true;
        stats := stats.(overflows := stats.overflows + 1);
        pending := map[];
        order := [];
        return;
      }
      pending := pending[key := event];
      order := order + [key];
    }

    method ClearLocked()
      modifies this
      ensures State() == Cleared(old(State()))
    {
      pending := map[];
      order := [];
      overflow := false;
    }

    /** Queues the event under a condition and adds it to the ghost list of what was queued since `s`. */
    method QueueIf(condition: bool, event: SemanticEvent, ghost s: SchedulerState, ghost queued: seq<SemanticEvent>)
      returns (ghost after: seq<SemanticEvent>)
      requires State() == QueueAll(s, queued)
      modifies this
      ensures after == queued + On(condition, event)
      ensures State() == QueueAll(s, after)
    {
      after := queued + On(condition, event);
      if condition {
        QueueLocked(event);
        assert after[..|after| - 1] == queued;
      } else {
        assert after == queued;
      }
    }

    method QueueNodeDiffs(previous: Document, next: Document, intents: Intents,
                          ghost s: SchedulerState, ghost queued: seq<SemanticEvent>)
      returns (ghost after: seq<SemanticEvent>)
      requires IndexInRange(previous)
      requires State() == QueueAll(s, queued)
      modifies this
      ensures after == queued + NodeDiffs(previous, next, intents, |next.nodes|)
      ensures State() == QueueAll(s, after)
    {
      hide QueueAll, NodeChanges;
      after := queued;
      for n := 0 to |next.nodes|
        invariant after == queued + NodeDiffs(previous, next, intents, n)
        invariant State() == QueueAll(s, after)
      {
        var node := next.nodes[n];
        if node.id !in previous.index {
          continue;
        }
        var before := previous.nodes[previous.index[node.id]];
        after := QueueNodeChanges(before, node, next, intents, s, after);
        Associative(queued, NodeDiffs(previous, next, intents, n), NodeChanges(before, node, next, intents));
      }
    }

    method QueueNodeChanges(before: DocumentNode, node: DocumentNode, next: Document, intents: Intents,
                            ghost s: SchedulerState, ghost queued: seq<SemanticEvent>)
      returns (ghost after: seq<SemanticEvent>)
      requires State() == QueueAll(s, queued)
      modifies this
      ensures after == queued + NodeChanges(before, node, next, intents)
      ensures State() == QueueAll(s, after)
    {
      hide QueueAll;
      hide On;
      ghost var first := QueueIf(intents.text && before.text != node.text, Change(TextChanged, next, node.id),
                                 s, queued);
      ghost var second := QueueIf(intents.caret && (before.hasCaret != node.hasCaret || before.caret != node.caret),
                                  Change(CaretChanged, next, node.id), s, first);
      after := QueueIf(intents.selection && (before.hasSelect != node.hasSelect || before.selection != node.selection),
                       Change(SelectionChanged, next, node.id), s, second);
    }
  }

  lemma Associative(a: seq<SemanticEvent>, b: seq<SemanticEvent>, c: seq<SemanticEvent>)
    ensures (a + b) + c == a + (b + c)
  {
  }

  lemma DiffsInOrder(previous: Document, next: Document, intents: Intents,
                     first: seq<SemanticEvent>, second: seq<SemanticEvent>, third: seq<SemanticEvent>,
                     fourth: seq<SemanticEvent>, fifth: seq<SemanticEvent>)
    requires IndexInRange(previous)
    requires first == [] + On(previous.truncated != next.truncated, Invalidation(next.providerID, next.generation))
    requires second == first + On(intents.document && GeometryDiffers(previous, next),
                                  Invalidation(next.providerID, next.generation))
    requires third == second + On(intents.topology && TopologyDiffers(previous, next),
                                  Change(TopologyChanged, next, NO_NODE))
    requires fourth == if intents.text || intents.caret || intents.selection
                       then third + NodeDiffs(previous, next, intents, |next.nodes|) else third
    requires fifth == fourth + On(intents.focus && previous.focus != next.focus, Change(FocusChanged, next, next.focus))
    ensures fifth == DocumentDiffs(previous, next, intents)
  {
    hide On, GeometryDiffers, TopologyDiffers, NodeDiffs;
    var middle := if intents.text || intents.caret || intents.selection
                  then NodeDiffs(previous, next, intents, |next.nodes|) else [];
    assert fourth == third + middle;
    assert first == On(previous.truncated != next.truncated, Invalidation(next.providerID, next.generation));
  }

  lemma QueueAllNone(s: SchedulerState)
    ensures QueueAll(s, []) == s
  {
  }

  lemma QueueAllOne(s: SchedulerState, event: SemanticEvent)
    ensures QueueAll(s, [event]) == Queue(s, event)
  {
    assert [event][..0] == [];
  }

  method DocumentTopologyChanged(previous: Document, next: Document) returns (changed: bool)
    ensures changed <==> TopologyDiffers(previous, next)
  {
    if |previous.nodes| != |next.nodes| {
      return true;
    }
    for i := 0 to |next.nodes|
      invariant forall j :: 0 <= j < i ==> !NodeTopologyDiffers(previous.nodes[j], next.nodes[j])
    {
      var left, right := previous.nodes[i], next.nodes[i];
      if left.id != right.id || left.parent != right.parent || left.role != right.role || left.name != right.name {
        assert NodeTopologyDiffers(previous.nodes[i], next.nodes[i]);
        return true;
      }
    }
    return false;
  }

  method DocumentGeometryChanged(previous: Document, next: Document) returns (changed: bool)
    ensures changed <==> GeometryDiffers(previous, next)
  {
    if previous.truncated != next.truncated || |previous.nodes| != |next.nodes| {
      return true;
    }
    for i := 0 to |next.nodes|
      invariant forall j :: 0 <= j < i ==> !NodeGeometryDiffers(previous.nodes[j], next.nodes[j])
    {
      var left, right := previous.nodes[i], next.nodes[i];
      if left.id != right.id || |left.rows| != |right.rows| {
        assert NodeGeometryDiffers(previous.nodes[i], next.nodes[i]);
        return true;
      }
      for row := 0 to |right.rows|
        invariant forall r :: 0 <= r < row ==> !RowGeometryDiffers(left.rows[r], right.rows[r])
      {
        if left.rows[row].softWrapped != right.rows[row].softWrapped
            || left.rows[row].bounds != right.rows[row].bounds {
          assert RowGeometryDiffers(left.rows[row], right.rows[row]);
          assert NodeGeometryDiffers(previous.nodes[i], next.nodes[i]);
          return true;
        }
      }
    }
    return false;
  }
}
