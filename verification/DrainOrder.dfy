/** In which order a cycle publishes the changes of a document, and what a scheduler forgets. */
module DrainOrder {
  import opened Types
  import opened DocumentSpec
  import opened DocumentProperties
  import opened EventSpec
  import opened SchedulerProperties
  import opened DrainMeaning

  /** The invalidation comes first, then the topology, the nodes, and the focus. */
  function Rank(kind: EventKind): int {
    match kind
    case DocumentInvalidated => 0
    case TopologyChanged => 1
    case TextChanged | CaretChanged | SelectionChanged => 2
    case FocusChanged => 3
    case _ => 4
  }

  /** Of one node the text comes first, then the caret and the selection. */
  function Part(kind: EventKind): int {
    match kind
    case TextChanged => 0
    case CaretChanged => 1
    case _ => 2
  }

  /** The one event is published before the other: by its kind or, if both are about nodes, by the places of these in
      the document. */
  predicate Sooner(document: Document, a: SemanticEvent, b: SemanticEvent) {
    || Rank(a.kind) < Rank(b.kind)
    || (Rank(a.kind) == Rank(b.kind) == 2 && a.node in document.index && b.node in document.index
        && (document.index[a.node] < document.index[b.node] || (a.node == b.node && Part(a.kind) < Part(b.kind))))
  }

  /** Every event is published before the later ones; only the invalidation may be there twice. */
  predicate InOrder(document: Document, log: seq<SemanticEvent>) {
    forall i, j :: 0 <= i < j < |log| ==>
      Sooner(document, log[i], log[j]) || (log[i] == log[j] && log[i].kind == DocumentInvalidated)
  }

  predicate AllSooner(document: Document, a: seq<SemanticEvent>, b: seq<SemanticEvent>) {
    forall i, j :: 0 <= i < |a| && 0 <= j < |b| ==> Sooner(document, a[i], b[j])
  }

  lemma OrderAppends(document: Document, a: seq<SemanticEvent>, b: seq<SemanticEvent>)
    requires InOrder(document, a) && InOrder(document, b) && AllSooner(document, a, b)
    ensures InOrder(document, a + b)
  {
    hide Sooner;
  }

  lemma ChangesInOrder(before: DocumentNode, node: DocumentNode, next: Document, intents: Intents)
    requires node.id in next.index
    ensures InOrder(next, NodeChanges(before, node, next, intents))
    ensures forall i :: 0 <= i < |NodeChanges(before, node, next, intents)| ==>
              var event := NodeChanges(before, node, next, intents)[i]; Rank(event.kind) == 2 && event.node == node.id
  {
  }

  /** The events are about nodes before this place. */
  predicate AboutFirst(document: Document, log: seq<SemanticEvent>, n: nat) {
    forall i :: 0 <= i < |log| ==>
      Rank(log[i].kind) == 2 && log[i].node in document.index && document.index[log[i].node] < n
  }

  lemma {:induction false} NodeDiffsInOrder(previous: Document, next: Document, intents: Intents, n: nat)
    requires n <= |next.nodes| && IndexInRange(previous) && Indexed(next.nodes, next.index)
    ensures InOrder(next, NodeDiffs(previous, next, intents, n))
    ensures AboutFirst(next, NodeDiffs(previous, next, intents, n), n)
  {
    hide NodeChanges, Sooner, InOrder;
    if n == 0 {
      NothingToOrder(next);
    } else {
      NodeDiffsInOrder(previous, next, intents, n - 1);
      var node, log := next.nodes[n - 1], NodeDiffs(previous, next, intents, n - 1);
      if node.id in previous.index {
        var before := previous.nodes[previous.index[node.id]];
        ChangesInOrder(before, node, next, intents);
        NodesSooner(next, log, NodeChanges(before, node, next, intents), n - 1);
        OrderAppends(next, log, NodeChanges(before, node, next, intents));
      } else {
        assert log + [] == log;
      }
    }
  }

  lemma NothingToOrder(document: Document)
    ensures InOrder(document, [])
  {
  }

  lemma NodesSooner(document: Document, log: seq<SemanticEvent>, more: seq<SemanticEvent>, n: nat)
    requires AboutFirst(document, log, n) && n < |document.nodes| && Indexed(document.nodes, document.index)
    requires forall i :: 0 <= i < |more| ==> Rank(more[i].kind) == 2 && more[i].node == document.nodes[n].id
    ensures AllSooner(document, log, more)
  {
    hide Rank;
  }

  /** All events of the list have ranks from the one to the other. */
  predicate RanksIn(log: seq<SemanticEvent>, low: int, high: int) {
    forall i :: 0 <= i < |log| ==> low <= Rank(log[i].kind) <= high
  }

  lemma RanksAppend(document: Document, a: seq<SemanticEvent>, b: seq<SemanticEvent>, low: int, high: int, rank: int)
    requires InOrder(document, a) && InOrder(document, b) && RanksIn(a, low, high) && RanksIn(b, rank, rank)
    requires low <= high < rank
    ensures InOrder(document, a + b) && RanksIn(a + b, low, rank)
  {
    hide Rank, InOrder;
    assert AllSooner(document, a, b);
    OrderAppends(document, a, b);
  }

  lemma OneInOrder(document: Document, change: bool, event: SemanticEvent)
    ensures InOrder(document, On(change, event)) && RanksIn(On(change, event), Rank(event.kind), Rank(event.kind))
  {
  }

  lemma TwiceInOrder(document: Document, a: bool, b: bool, event: SemanticEvent)
    requires event.kind == DocumentInvalidated
    ensures InOrder(document, On(a, event) + On(b, event)) && RanksIn(On(a, event) + On(b, event), 0, 0)
  {
  }

  lemma NodesRank(document: Document, log: seq<SemanticEvent>, n: nat)
    requires AboutFirst(document, log, n)
    ensures RanksIn(log, 2, 2)
  {
    hide Rank;
  }

  lemma NoneInOrder(document: Document)
    ensures InOrder(document, []) && RanksIn([], 2, 2)
  {
  }

  lemma DiffsInOrder(previous: Document, next: Document, intents: Intents)
    requires IndexInRange(previous) && Indexed(next.nodes, next.index)
    ensures InOrder(next, DocumentDiffs(previous, next, intents))
  {
    var invalid := Invalidation(next.providerID, next.generation);
    var a, b := previous.truncated != next.truncated, intents.document && GeometryDiffers(previous, next);
    var c := intents.topology && TopologyDiffers(previous, next);
    var topology := Change(TopologyChanged, next, NO_NODE);
    var nodes := if intents.text || intents.caret || intents.selection
                 then NodeDiffs(previous, next, intents, |next.nodes|) else [];
    var d, focus := intents.focus && previous.focus != next.focus, Change(FocusChanged, next, next.focus);
    var first, second, last := On(a, invalid) + On(b, invalid), On(c, topology), On(d, focus);
    assert DocumentDiffs(previous, next, intents) == first + second + nodes + last;
    hide *;
    assert invalid.kind == DocumentInvalidated && topology.kind == TopologyChanged && focus.kind == FocusChanged by {
      ChangeKind(next, NO_NODE, TopologyChanged);
      ChangeKind(next, next.focus, FocusChanged);
    }
    TwiceInOrder(next, a, b, invalid);
    OneInOrder(next, c, topology);
    OneInOrder(next, d, focus);
    NodesInOrder(previous, next, intents, nodes);
    Ranks();
    RanksAppend(next, first, second, 0, 0, 1);
    RanksAppend(next, first + second, nodes, 0, 1, 2);
    RanksAppend(next, first + second + nodes, last, 0, 2, 3);
  }

  lemma ChangeKind(next: Document, node: NodeID, kind: EventKind)
    ensures Change(kind, next, node).kind == kind
    ensures Invalidation(next.providerID, next.generation).kind == DocumentInvalidated
  {
  }

  lemma Ranks()
    ensures Rank(TopologyChanged) == 1 && Rank(FocusChanged) == 3
  {
  }

  lemma NodesInOrder(previous: Document, next: Document, intents: Intents, nodes: seq<SemanticEvent>)
    requires IndexInRange(previous) && Indexed(next.nodes, next.index)
    requires nodes == [] || nodes == NodeDiffs(previous, next, intents, |next.nodes|)
    ensures InOrder(next, nodes) && RanksIn(nodes, 2, 2)
  {
    NodeDiffsInOrder(previous, next, intents, |next.nodes|);
    NodesRank(next, NodeDiffs(previous, next, intents, |next.nodes|), |next.nodes|);
    NoneInOrder(next);
    hide *;
  }

  /** The changes of a document are published in order: the invalidation, the topology, the changes of the nodes as
      these stand in the document, of each the text before the caret and the caret before the selection, and the
      focus. */
  lemma PublishedInOrder(s: SchedulerState, previous: Document, next: Document, intents: Intents, i: nat, j: nat)
    requires !s.closed && s.active
    requires IndexInRange(previous) && IndexInRange(next) && Indexed(next.nodes, next.index)
    requires i < j < |Published(s, [QueueTransition(previous, next, intents)])|
    ensures var events := Published(s, [QueueTransition(previous, next, intents)]); Sooner(next, events[i], events[j])
  {
    var call := QueueTransition(previous, next, intents);
    assert AllQueue([call]) && AllLegal([call]);
    QueuedByOne(call);
    OneTransition(previous, next, intents);
    var events := Published(s, [call]);
    hide AllQueue, AllLegal, QueuedBy, Published, Heard, LastHeard, AllDifferent, DocumentDiffs, Indexed, Queued,
         HoldsLast, InFirstOrder, Sooner;
    var firsts := CyclePublishes(s, [call]);
    if |QueuedBy([call])| <= 1 {
      NotMany(QueuedBy([call]));
      FewFirsts(QueuedBy([call]), events, firsts);
    } else if HoldsLast(QueuedBy([call]), events) {
      OrderLifts(previous, next, intents, events, firsts, i, j);
    }
  }

  lemma FewFirsts(log: seq<SemanticEvent>, events: seq<SemanticEvent>, firsts: seq<nat>)
    requires InFirstOrder(log, events, firsts)
    ensures |events| <= |log|
  {
    AscendingBelow(firsts, |log|);
  }

  lemma OrderLifts(previous: Document, next: Document, intents: Intents, events: seq<SemanticEvent>,
                   firsts: seq<nat>, i: nat, j: nat)
    requires IndexInRange(previous) && IndexInRange(next) && Indexed(next.nodes, next.index)
    requires var log := DocumentDiffs(previous, next, intents);
             HoldsLast(log, events) && InFirstOrder(log, events, firsts)
    requires i < j < |events|
    ensures Sooner(next, events[i], events[j])
  {
    DiffsInOrder(previous, next, intents);
    FirstsAreEvents(previous, next, intents, events, firsts, i);
    FirstsAreEvents(previous, next, intents, events, firsts, j);
    hide DocumentDiffs, Sooner, HoldsLast, Indexed;
    assert firsts[i] < firsts[j];
    assert !SameSubject(events[i], events[j]);
  }

  /** What came up first about a thing is what is published about it. */
  lemma FirstsAreEvents(previous: Document, next: Document, intents: Intents, events: seq<SemanticEvent>,
                        firsts: seq<nat>, i: nat)
    requires IndexInRange(previous) && IndexInRange(next) && Indexed(next.nodes, next.index)
    requires var log := DocumentDiffs(previous, next, intents);
             HoldsLast(log, events) && InFirstOrder(log, events, firsts)
    requires i < |events|
    ensures events[i] == DocumentDiffs(previous, next, intents)[firsts[i]]
  {
    hide DocumentDiffs, Due, Indexed, SameSubject;
    var log := DocumentDiffs(previous, next, intents);
    assert events[i] in events;
    assert events[i] in log;
    DiffsAreDue(previous, next, intents, events[i]);
    DiffsAreDue(previous, next, intents, log[firsts[i]]);
    DueOnce(previous, next, intents, log[firsts[i]], events[i]);
  }

  /** A scheduler that was switched off has forgotten what was queued before. */
  lemma SwitchedOffForgets(s: SchedulerState)
    ensures Serve(Serve(Serve(s, SetActive(false)).1, SetActive(true)).1, Drain).0 == []
  {
  }

  /** A scheduler that is switched off, or closed, does nothing when events are queued or asked for. */
  lemma SwitchedOffIgnores(s: SchedulerState, call: Call)
    requires call.Legal() && (!s.active || s.closed)
    requires call.QueueTransition? || call.QueueAnnouncement? || call.Drain?
    ensures Serve(s, call) == ([], s)
  {
  }
}
