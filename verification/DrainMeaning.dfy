/** What a cycle publishes, told by the events that were queued in it: which of them replace each other, and what a
    transition or an announcement alone comes to. */
module DrainMeaning {
  import opened Types
  import opened DocumentSpec
  import opened DocumentProperties
  import opened EventSpec
  import opened SchedulerProperties
  import opened TransitionMeaning
  import opened TransitionProperties

  /** Two events tell of the same thing: of one kind and one announcement and, unless it is the focus that moved, of one
      node. */
  predicate SameSubject(a: SemanticEvent, b: SemanticEvent) {
    a.kind == b.kind && a.announcement == b.announcement && (a.kind == FocusChanged || a.node == b.node)
  }

  /** Events replace each other exactly when they tell of the same thing. */
  lemma KeysCoalesce(a: SemanticEvent, b: SemanticEvent)
    ensures Key(a) == Key(b) <==> SameSubject(a, b)
  {
  }

  /** No later event of the log tells of the same thing. */
  predicate LastAbout(log: seq<SemanticEvent>, n: nat)
    requires n < |log|
  {
    forall m :: n < m < |log| ==> !SameSubject(log[m], log[n])
  }

  predicate FirstAbout(log: seq<SemanticEvent>, n: nat)
    requires n < |log|
  {
    forall m :: 0 <= m < n ==> !SameSubject(log[m], log[n])
  }

  /** The list holds the last event about each thing. */
  ghost predicate HoldsLast(log: seq<SemanticEvent>, events: seq<SemanticEvent>) {
    forall event :: event in events <==> exists n :: 0 <= n < |log| && log[n] == event && LastAbout(log, n)
  }

  /** In the order in which these things first came up, each once. */
  ghost predicate InFirstOrder(log: seq<SemanticEvent>, events: seq<SemanticEvent>, firsts: seq<nat>) {
    && |firsts| == |events| && Ascending(firsts)
    && (forall i :: 0 <= i < |firsts| ==>
          firsts[i] < |log| && FirstAbout(log, firsts[i]) && SameSubject(log[firsts[i]], events[i]))
    && (forall i, j :: 0 <= i < j < |events| ==> !SameSubject(events[i], events[j]))
  }

  lemma LastOfIsLast(log: seq<SemanticEvent>, n: nat)
    requires n < |log|
    ensures Key(log[n]) in FirstSeen(log)
    ensures LastAbout(log, n) ==> LastOf(log, Key(log[n])) == log[n]
  {
    FirstSeenKeys(log);
    hide FirstSeen, LastOf, Key;
    var m := LastOfMeaning(log, Key(log[n]));
    KeysCoalesce(log[m], log[n]);
  }

  lemma KeyIsLast(log: seq<SemanticEvent>, key: EventKey) returns (n: nat)
    requires key in FirstSeen(log)
    ensures n < |log| && LastOf(log, key) == log[n] && LastAbout(log, n) && Key(log[n]) == key
  {
    hide FirstSeen, LastOf, Key;
    n := LastOfMeaning(log, key);
    forall m | n < m < |log|
      ensures !SameSubject(log[m], log[n])
    {
      KeysCoalesce(log[m], log[n]);
    }
  }

  lemma CoalescedHoldsLast(log: seq<SemanticEvent>, providerID: uint64, generation: uint64)
    requires !Overflows(log)
    ensures HoldsLast(log, Coalesced(log, providerID, generation))
  {
    hide FirstSeen, LastOf, Key, LastAbout;
    var keys, events := FirstSeen(log), Coalesced(log, providerID, generation);
    forall event | event in events
      ensures exists n :: 0 <= n < |log| && log[n] == event && LastAbout(log, n)
    {
      var i :| 0 <= i < |events| && events[i] == event;
      var n := KeyIsLast(log, keys[i]);
    }
    forall n | 0 <= n < |log| && LastAbout(log, n)
      ensures log[n] in events
    {
      LastOfIsLast(log, n);
      var i :| 0 <= i < |keys| && keys[i] == Key(log[n]);
      assert events[i] == log[n];
    }
  }

  lemma CoalescedInOrder(log: seq<SemanticEvent>, providerID: uint64, generation: uint64) returns (firsts: seq<nat>)
    requires !Overflows(log)
    ensures InFirstOrder(log, Coalesced(log, providerID, generation), firsts)
  {
    hide FirstSeen, LastOf, Key;
    firsts := FirstSeenMeaning(log);
    var keys, events := FirstSeen(log), Coalesced(log, providerID, generation);
    forall i | 0 <= i < |events|
      ensures Key(events[i]) == keys[i]
      ensures firsts[i] < |log| && FirstAbout(log, firsts[i]) && SameSubject(log[firsts[i]], events[i])
    {
      var n := KeyIsLast(log, keys[i]);
      assert IsFirst(log, keys[i], firsts[i]);
      KeysCoalesce(log[firsts[i]], events[i]);
      forall m | 0 <= m < firsts[i]
        ensures !SameSubject(log[m], log[firsts[i]])
      {
        KeysCoalesce(log[m], log[firsts[i]]);
      }
    }
    forall i, j | 0 <= i < j < |events|
      ensures !SameSubject(events[i], events[j])
    {
      assert IsFirst(log, keys[i], firsts[i]) && IsFirst(log, keys[j], firsts[j]);
      KeysCoalesce(events[i], events[j]);
    }
  }

  /** Events at these places of the log tell of different things. */
  ghost predicate AllDifferent(log: seq<SemanticEvent>, places: seq<nat>) {
    && (forall i :: 0 <= i < |places| ==> places[i] < |log|)
    && (forall i, j :: 0 <= i < j < |places| ==> !SameSubject(log[places[i]], log[places[j]]))
  }

  ghost function KeysOf(keys: seq<EventKey>): set<EventKey> {
    set k | k in keys
  }

  lemma {:induction false} KeysCount(keys: seq<EventKey>)
    ensures |KeysOf(keys)| <= |keys|
    ensures Distinct(keys) ==> |KeysOf(keys)| == |keys|
  {
    if keys != [] {
      var before, last := keys[..|keys| - 1], keys[|keys| - 1];
      KeysCount(before);
      assert KeysOf(keys) == KeysOf(before) + {last};
      if Distinct(keys) {
        assert forall i, j :: 0 <= i < j < |before| ==> keys[i] != keys[j];
        assert last !in before;
      }
    }
  }

  /** A cycle overflows exactly when more than 256 different things were told of. */
  lemma OverflowMeaning(log: seq<SemanticEvent>)
    ensures Overflows(log) <==> exists places :: |places| == 257 && AllDifferent(log, places)
  {
    hide FirstSeen, Key;
    var keys := FirstSeen(log);
    var firsts := FirstSeenMeaning(log);
    if Overflows(log) {
      var places := firsts[..257];
      forall i, j | 0 <= i < j < |places|
        ensures !SameSubject(log[places[i]], log[places[j]])
      {
        assert IsFirst(log, keys[i], firsts[i]) && IsFirst(log, keys[j], firsts[j]);
        KeysCoalesce(log[places[i]], log[places[j]]);
      }
      assert forall i :: 0 <= i < |places| ==> IsFirst(log, keys[i], firsts[i]);
      assert AllDifferent(log, places);
    }
    if places: seq<nat> :| |places| == 257 && AllDifferent(log, places) {
      DifferentKeys(log, places);
    }
  }

  lemma DifferentKeys(log: seq<SemanticEvent>, places: seq<nat>)
    requires AllDifferent(log, places)
    ensures |places| <= |FirstSeen(log)|
  {
    FirstSeenKeys(log);
    hide FirstSeen, Key;
    var seen := seq(|places|, i requires 0 <= i < |places| && places[i] < |log| => Key(log[places[i]]));
    forall i, j | 0 <= i < j < |seen|
      ensures seen[i] != seen[j]
    {
      KeysCoalesce(log[places[i]], log[places[j]]);
    }
    KeysCount(seen);
    KeysCount(FirstSeen(log));
    assert KeysOf(seen) <= KeysOf(FirstSeen(log));
    SubsetIsSmaller(KeysOf(seen), KeysOf(FirstSeen(log)));
  }

  lemma SubsetIsSmaller(a: set<EventKey>, b: set<EventKey>)
    requires a <= b
    ensures |a| <= |b|
  {
    assert b == a + (b - a);
  }

  /** A call that a listening scheduler acts on: a transition to a document, with any intent, or an announcement of
      one. */
  predicate Heard(call: Call) {
    match call
    case QueueTransition(_, next, i) =>
      next.providerID != 0 && (i.document || i.topology || i.text || i.caret || i.selection || i.focus || i.other)
    case QueueAnnouncement(p, g, kind) => p != 0 && g != 0 && kind in {Bell, Notification}
    case _ => false
  }

  lemma HeardIsCarried(call: Call)
    ensures Heard(call) <==> Carries(call)
  {
  }

  ghost predicate AllQueue(calls: seq<Call>) {
    forall i :: 0 <= i < |calls| ==> calls[i].Legal() && (calls[i].QueueTransition? || calls[i].QueueAnnouncement?)
  }

  /** Everything the calls queue, one call after the other. */
  ghost function QueuedBy(calls: seq<Call>): seq<SemanticEvent>
    requires AllQueue(calls)
  {
    if calls == [] then []
    else
      var last := calls[|calls| - 1];
      QueuedBy(calls[..|calls| - 1]) + if Heard(last) then Queued(last) else []
  }

  /** The provider and the generation of the last call that was heard. */
  function LastHeard(calls: seq<Call>): Option<(uint64, uint64)> {
    if calls == [] then None
    else
      var last := calls[|calls| - 1];
      if !Heard(last) then LastHeard(calls[..|calls| - 1])
      else
        match last
        case QueueTransition(_, next, _) => Some((next.providerID, next.generation))
        case QueueAnnouncement(p, g, _) => Some((p, g))
        case _ => None
  }

  /** The log machine after queue calls of one cycle. */
  ghost predicate Logs(a: LogState, start: LogState, calls: seq<Call>)
    requires AllQueue(calls)
  {
    && a.log == QueuedBy(calls) && a.active && !a.closed && !a.published
    && (a.providerID, a.generation)
       == match LastHeard(calls)
          case None => (start.providerID, start.generation)
          case Some(source) => source
  }

  lemma {:induction false} LogsAll(start: LogState, calls: seq<Call>)
    requires AllQueue(calls) && AllLegal(calls)
    requires start.active && !start.closed && !start.published && start.log == []
    ensures Logs(LogRun(start, calls), start, calls)
  {
    hide LoggedAll, Queued;
    if calls != [] {
      var before, last := calls[..|calls| - 1], calls[|calls| - 1];
      LogsAll(start, before);
      HeardIsCarried(last);
      var a := LogRun(start, before);
      if Heard(last) {
        LoggedAllLog(a.(providerID := Source(last).0, generation := Source(last).1), Queued(last));
      }
    }
  }

  /** What a listening scheduler publishes after the calls of a new cycle. */
  ghost function Published(s: SchedulerState, calls: seq<Call>): seq<SemanticEvent>
    requires AllQueue(calls) && AllLegal(calls)
  {
    Serve(Run(Serve(s, BeginCycle).1, calls), Drain).0
  }

  lemma PublishedIsCoalesced(s: SchedulerState, calls: seq<Call>)
    requires !s.closed && s.active && AllQueue(calls) && AllLegal(calls)
    ensures QueuedBy(calls) == [] ==> Published(s, calls) == []
    ensures QueuedBy(calls) != [] ==>
              LastHeard(calls).Some?
              && Published(s, calls) == Coalesced(QueuedBy(calls), LastHeard(calls).value.0, LastHeard(calls).value.1)
  {
    var begun := Serve(s, BeginCycle).1;
    var start := LogState(true, false, false, begun.providerID, begun.generation, [], begun.stats);
    assert Refines(begun, start);
    hide Serve, Refines, LogServe, Coalesced, Queued;
    RunRefines(begun, start, calls);
    LogsAll(start, calls);
    if QueuedBy(calls) != [] {
      SomeoneHeard(calls);
    }
    ServeRefines(Run(begun, calls), LogRun(start, calls), Drain);
    LogDrains(LogRun(start, calls));
  }

  lemma {:induction false} SomeoneHeard(calls: seq<Call>)
    requires AllQueue(calls) && QueuedBy(calls) != []
    ensures LastHeard(calls).Some?
  {
    hide Queued;
    if !Heard(calls[|calls| - 1]) {
      SomeoneHeard(calls[..|calls| - 1]);
    }
  }

  lemma LogDrains(a: LogState)
    ensures LogServe(a, Drain).0
         == if a.closed || !a.active || a.published || a.log == [] then []
            else Coalesced(a.log, a.providerID, a.generation)
  {
    hide Coalesced;
  }

  /** What a cycle publishes: of everything queued in it, the last event about each thing, in the order in which these
      things first came up; or, when more than 256 different things came up, one invalidation of the last document
      heard of. */
  lemma CyclePublishes(s: SchedulerState, calls: seq<Call>) returns (firsts: seq<nat>)
    requires !s.closed && s.active && AllQueue(calls) && AllLegal(calls)
    ensures var log, events := QueuedBy(calls), Published(s, calls);
            if exists places :: |places| == 257 && AllDifferent(log, places)
            then LastHeard(calls).Some?
                 && events == [SemanticEvent(DocumentInvalidated, LastHeard(calls).value.0, LastHeard(calls).value.1,
                                             NO_NODE, AnnouncementNone)]
            else HoldsLast(log, events) && InFirstOrder(log, events, firsts)
  {
    var log := QueuedBy(calls);
    OverflowMeaning(log);
    PublishedIsCoalesced(s, calls);
    hide Published, AllDifferent, FirstSeen;
    firsts := [];
    if log == [] {
      NothingOverflows();
    } else if !Overflows(log) {
      hide Overflows, Coalesced;
      CoalescedHoldsLast(log, LastHeard(calls).value.0, LastHeard(calls).value.1);
      firsts := CoalescedInOrder(log, LastHeard(calls).value.0, LastHeard(calls).value.1);
    }
  }

  lemma NothingOverflows()
    ensures !Overflows([])
  {
  }

  datatype PlacedNode = PlacedNode(id: NodeID, parent: NodeID, role: Role, name: Text)

  /** Which nodes a document has, in their order, under which parents and names. */
  function TopologyOf(document: Document): (r: seq<PlacedNode>)
    ensures |r| == |document.nodes|
  {
    seq(|document.nodes|, i requires 0 <= i < |document.nodes| =>
      PlacedNode(document.nodes[i].id, document.nodes[i].parent, document.nodes[i].role, document.nodes[i].name))
  }

  function RowsOf(node: DocumentNode): (r: seq<ObservedRow>)
    ensures |r| == |node.rows|
  {
    seq(|node.rows|, i requires 0 <= i < |node.rows| => ObservedRow(node.rows[i].softWrapped, node.rows[i].bounds))
  }

  /** Which nodes a document has, in their order, with which rows and rectangles. */
  function GeometryOf(document: Document): (r: seq<(NodeID, seq<ObservedRow>)>)
    ensures |r| == |document.nodes|
  {
    seq(|document.nodes|, i requires 0 <= i < |document.nodes| => (document.nodes[i].id, RowsOf(document.nodes[i])))
  }

  lemma TopologyMeaning(previous: Document, next: Document)
    ensures TopologyDiffers(previous, next) <==> TopologyOf(previous) != TopologyOf(next)
  {
    var a, b := TopologyOf(previous), TopologyOf(next);
    if |a| == |b| {
      assert forall i :: 0 <= i < |b| ==> (NodeTopologyDiffers(previous.nodes[i], next.nodes[i]) <==> a[i] != b[i]);
      assert a == b <==> forall i :: 0 <= i < |b| ==> a[i] == b[i];
    }
  }

  lemma RowsMeaning(left: DocumentNode, right: DocumentNode)
    ensures RowsOf(left) != RowsOf(right)
       <==> |left.rows| != |right.rows| || exists r :: 0 <= r < |right.rows|
                                                       && RowGeometryDiffers(left.rows[r], right.rows[r])
  {
    var a, b := RowsOf(left), RowsOf(right);
    if |a| == |b| {
      assert forall r :: 0 <= r < |b| ==> (RowGeometryDiffers(left.rows[r], right.rows[r]) <==> a[r] != b[r]);
      assert a == b <==> forall r :: 0 <= r < |b| ==> a[r] == b[r];
    }
  }

  lemma GeometryMeaning(previous: Document, next: Document)
    ensures GeometryDiffers(previous, next)
       <==> previous.truncated != next.truncated || GeometryOf(previous) != GeometryOf(next)
  {
    hide RowsOf;
    var a, b := GeometryOf(previous), GeometryOf(next);
    if |a| == |b| {
      forall i | 0 <= i < |b|
        ensures NodeGeometryDiffers(previous.nodes[i], next.nodes[i]) <==> a[i] != b[i]
      {
        RowsMeaning(previous.nodes[i], next.nodes[i]);
      }
      hide NodeGeometryDiffers;
      assert a == b <==> forall i :: 0 <= i < |b| ==> a[i] == b[i];
    }
  }

  /** What a transition between two documents of one provider announces. */
  ghost predicate Due(previous: Document, next: Document, intents: Intents, event: SemanticEvent)
    requires IndexInRange(previous) && IndexInRange(next)
  {
    && event.providerID == next.providerID && event.generation == next.generation
    && event.announcement == AnnouncementNone
    && match event.kind
       case TextChanged | CaretChanged | SelectionChanged =>
         NodeEventDue(event.kind, previous, next, intents, event.node)
       case TopologyChanged => event.node == NO_NODE && intents.topology && TopologyOf(previous) != TopologyOf(next)
       case FocusChanged => event.node == next.focus && intents.focus && previous.focus != next.focus
       case DocumentInvalidated =>
         && event.node == NO_NODE
         && (previous.truncated != next.truncated || (intents.document && GeometryOf(previous) != GeometryOf(next)))
       case _ => false
  }

  lemma DiffsAreDue(previous: Document, next: Document, intents: Intents, event: SemanticEvent)
    requires IndexInRange(previous) && IndexInRange(next) && Indexed(next.nodes, next.index)
    ensures event in DocumentDiffs(previous, next, intents) <==> Due(previous, next, intents, event)
  {
    DiffsMeaning(previous, next, intents, event);
    TopologyMeaning(previous, next);
    GeometryMeaning(previous, next);
    hide DocumentDiffs, TopologyDiffers, GeometryDiffers, TopologyOf, GeometryOf, NodeEventDue, Indexed;
  }

  /** A transition tells of each thing in one way only. */
  lemma DueOnce(previous: Document, next: Document, intents: Intents, a: SemanticEvent, b: SemanticEvent)
    requires IndexInRange(previous) && IndexInRange(next)
    requires Due(previous, next, intents, a) && Due(previous, next, intents, b) && SameSubject(a, b)
    ensures a == b
  {
    hide TopologyOf, GeometryOf, NodeEventDue;
  }

  lemma SomeIsLast(log: seq<SemanticEvent>, n: nat) returns (m: nat)
    requires n < |log|
    ensures m < |log| && SameSubject(log[m], log[n]) && LastAbout(log, m)
  {
    FirstSeenKeys(log);
    hide FirstSeen, Key;
    m := KeyIsLast(log, Key(log[n]));
    KeysCoalesce(log[m], log[n]);
  }

  /** The last event about each thing is every event when no thing is told of in two ways. */
  lemma AllAreHeld(log: seq<SemanticEvent>, events: seq<SemanticEvent>)
    requires HoldsLast(log, events)
    requires forall n, m :: 0 <= n < |log| && 0 <= m < |log| && SameSubject(log[n], log[m]) ==> log[n] == log[m]
    ensures forall event :: event in events <==> event in log
  {
    hide LastAbout, SameSubject;
    forall n | 0 <= n < |log|
      ensures log[n] in events
    {
      var m := SomeIsLast(log, n);
      assert log[m] == log[n];
    }
  }

  lemma QueuedByOne(call: Call)
    requires call.Legal() && AllQueue([call])
    ensures QueuedBy([call]) == if Heard(call) then Queued(call) else []
    ensures LastHeard([call]).Some? <==> Heard(call)
    ensures call.QueueTransition? && Heard(call) ==>
              LastHeard([call]).value == (call.next.providerID, call.next.generation)
  {
    hide Queued;
    assert [call][..0] == [];
  }

  /** What a cycle with one transition publishes: nothing, if no intent was given or no document; the invalidation of
      the new document, if it is the first or of another provider; and else every change of the document that was asked
      for, unless they are more than 256: then the invalidation. */
  lemma TransitionPublishes(s: SchedulerState, previous: Document, next: Document, intents: Intents,
                            event: SemanticEvent)
    requires !s.closed && s.active
    requires IndexInRange(previous) && IndexInRange(next) && Indexed(next.nodes, next.index)
    ensures var call := QueueTransition(previous, next, intents);
            var events := Published(s, [call]);
            var anew := [SemanticEvent(DocumentInvalidated, next.providerID, next.generation, NO_NODE,
                                       AnnouncementNone)];
            if !Heard(call) then events == []
            else if previous.providerID == 0 || previous.providerID != next.providerID then events == anew
            else if exists places :: |places| == 257
                                     && AllDifferent(DocumentDiffs(previous, next, intents), places)
            then events == anew
            else event in events <==> Due(previous, next, intents, event)
  {
    var call := QueueTransition(previous, next, intents);
    assert AllQueue([call]) && AllLegal([call]);
    QueuedByOne(call);
    OneTransition(previous, next, intents);
    hide AllQueue, AllLegal, QueuedBy, Published, Heard, LastHeard, AllDifferent, DocumentDiffs, Due, HoldsLast,
         InFirstOrder, Indexed, Queued;
    var firsts := CyclePublishes(s, [call]);
    if Heard(call) {
      if previous.providerID == 0 || previous.providerID != next.providerID {
        NotMany(Queued(call));
        OneEvent(Queued(call), Published(s, [call]), firsts);
      } else if !exists places :: |places| == 257
                                  && AllDifferent(DocumentDiffs(previous, next, intents), places) {
        DiffsHeld(previous, next, intents, Published(s, [call]), event);
      }
    } else {
      NotMany([]);
      NoEvent([], Published(s, [call]), firsts);
    }
  }

  lemma OneTransition(previous: Document, next: Document, intents: Intents)
    requires IndexInRange(previous)
    ensures Queued(QueueTransition(previous, next, intents))
         == if previous.providerID == 0 || previous.providerID != next.providerID
            then [SemanticEvent(DocumentInvalidated, next.providerID, next.generation, NO_NODE, AnnouncementNone)]
            else DocumentDiffs(previous, next, intents)
  {
    hide DocumentDiffs;
  }

  /** A log of one event is published as it is. */
  lemma OneEvent(log: seq<SemanticEvent>, events: seq<SemanticEvent>, firsts: seq<nat>)
    requires |log| == 1 && !exists places :: |places| == 257 && AllDifferent(log, places)
    requires HoldsLast(log, events) && InFirstOrder(log, events, firsts)
    ensures events == log
  {
    assert LastAbout(log, 0);
    assert log[0] in events;
    AscendingBelow(firsts, 1);
  }

  lemma DiffsHeld(previous: Document, next: Document, intents: Intents, events: seq<SemanticEvent>,
                  event: SemanticEvent)
    requires IndexInRange(previous) && IndexInRange(next) && Indexed(next.nodes, next.index)
    requires HoldsLast(DocumentDiffs(previous, next, intents), events)
    ensures event in events <==> Due(previous, next, intents, event)
  {
    hide DocumentDiffs, Due, HoldsLast, Indexed, SameSubject;
    var log := DocumentDiffs(previous, next, intents);
    DiffsAreDue(previous, next, intents, event);
    forall n, m | 0 <= n < |log| && 0 <= m < |log| && SameSubject(log[n], log[m])
      ensures log[n] == log[m]
    {
      DiffsAreDue(previous, next, intents, log[n]);
      DiffsAreDue(previous, next, intents, log[m]);
      DueOnce(previous, next, intents, log[n], log[m]);
    }
    AllAreHeld(log, events);
  }

  /** What a cycle with one announcement publishes: the announcement, if it is a bell or a notification of a
      document. */
  lemma AnnouncementPublishes(s: SchedulerState, providerID: uint64, generation: uint64, kind: AnnouncementKind)
    requires !s.closed && s.active
    ensures Published(s, [QueueAnnouncement(providerID, generation, kind)])
         == if providerID != 0 && generation != 0 && kind in {Bell, Notification}
            then [SemanticEvent(Announcement, providerID, generation, NO_NODE, kind)] else []
  {
    var call := QueueAnnouncement(providerID, generation, kind);
    assert AllQueue([call]) && AllLegal([call]);
    QueuedByOne(call);
    var log := QueuedBy([call]);
    hide AllQueue, AllLegal, QueuedBy, Published, LastHeard, AllDifferent, HoldsLast, InFirstOrder;
    var firsts := CyclePublishes(s, [call]);
    NotMany(log);
    if Heard(call) {
      OneEvent(log, Published(s, [call]), firsts);
    } else {
      NoEvent(log, Published(s, [call]), firsts);
    }
  }

  lemma NotMany(log: seq<SemanticEvent>)
    requires |log| <= 256
    ensures !exists places :: |places| == 257 && AllDifferent(log, places)
  {
    OverflowMeaning(log);
    hide AllDifferent;
    FirstSeenShort(log);
  }

  lemma {:induction false} FirstSeenShort(log: seq<SemanticEvent>)
    ensures |FirstSeen(log)| <= |log|
  {
    if log != [] {
      FirstSeenShort(log[..|log| - 1]);
    }
  }

  lemma NoEvent(log: seq<SemanticEvent>, events: seq<SemanticEvent>, firsts: seq<nat>)
    requires log == [] && InFirstOrder(log, events, firsts)
    ensures events == []
  {
    AscendingBelow(firsts, 0);
  }

  lemma {:induction false} AscendingBelow(places: seq<nat>, n: nat)
    requires Ascending(places) && forall i :: 0 <= i < |places| ==> places[i] < n
    ensures |places| <= n
    decreases |places|
  {
    if places != [] {
      AscendingBelow(places[..|places| - 1], places[|places| - 1]);
    }
  }

  /** A transition between documents of at most 84 nodes never overflows. */
  lemma FewNodesFit(previous: Document, next: Document, intents: Intents)
    requires IndexInRange(previous) && |next.nodes| <= 84
    ensures |DocumentDiffs(previous, next, intents)| <= 256
  {
    NodeDiffsLength(previous, next, intents, |next.nodes|);
    hide NodeDiffs, GeometryDiffers, TopologyDiffers;
  }

  lemma {:induction false} NodeDiffsLength(previous: Document, next: Document, intents: Intents, n: nat)
    requires n <= |next.nodes| && IndexInRange(previous)
    ensures |NodeDiffs(previous, next, intents, n)| <= 3 * n
  {
    if n > 0 {
      NodeDiffsLength(previous, next, intents, n - 1);
    }
  }
}
