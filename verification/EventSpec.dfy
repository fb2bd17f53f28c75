/** Semantic events: what a transition between documents announces, and the scheduler as a state machine. */
module EventSpec {
  import opened Types
  import opened DocumentSpec

  const MAX_SEMANTIC_EVENTS: nat := 256

  datatype EventKind = EventNone | DocumentInvalidated | TopologyChanged | TextChanged | CaretChanged | SelectionChanged
                     | FocusChanged | Announcement

  datatype AnnouncementKind = AnnouncementNone | Bell | Notification

  datatype SemanticEvent = SemanticEvent(
    kind: EventKind,
    providerID: uint64,
    generation: uint64,
    node: NodeID,
    announcement: AnnouncementKind)

  /** The intent bits; `other` stands for the bits that have no name. */
  datatype Intents = Intents(document: bool, topology: bool, text: bool, caret: bool, selection: bool, focus: bool,
                             other: bool)
  {
    predicate None() {
      !document && !topology && !text && !caret && !selection && !focus && !other
    }
  }

  const ALL_INTENTS := Intents(true, true, true, true, true, true, false)

  datatype EventKey = EventKey(kind: EventKind, node: NodeID, announcement: AnnouncementKind)

  /** Events of one key replace each other; the focus has one key whatever node it moved to. */
  function Key(event: SemanticEvent): EventKey {
    EventKey(event.kind, if event.kind == FocusChanged then NO_NODE else event.node, event.announcement)
  }

  datatype SchedulerStats = SchedulerStats(cycles: nat, publications: nat, events: nat, overflows: nat)

  datatype SchedulerState = SchedulerState(
    active: bool,
    closed: bool,
    published: bool,
    providerID: uint64,
    generation: uint64,
    pending: map<EventKey, SemanticEvent>,
    order: seq<EventKey>,
    overflow: bool,
    stats: SchedulerStats)

  function Initial(active: bool): SchedulerState {
    SchedulerState(active, false, false, 0, 0, map[], [], false, SchedulerStats(0, 0, 0, 0))
  }

  function Cleared(s: SchedulerState): SchedulerState {
    s.(pending := map[], order := [], overflow := false)
  }

  function Invalidation(providerID: uint64, generation: uint64): SemanticEvent {
    SemanticEvent(DocumentInvalidated, providerID, generation, NO_NODE, AnnouncementNone)
  }

  function Queue(s: SchedulerState, event: SemanticEvent): SchedulerState {
    if s.overflow then s
    else if Key(event) in s.pending then s.(pending := s.pending[Key(event) := event])
    else if |s.order| == MAX_SEMANTIC_EVENTS then
      s.(overflow := true, stats := s.stats.(overflows := s.stats.overflows + 1), pending := map[], order := [])
    else s.(pending := s.pending[Key(event) := event], order := s.order + [Key(event)])
  }

  function QueueAll(s: SchedulerState, events: seq<SemanticEvent>): SchedulerState {
    if events == [] then s else Queue(QueueAll(s, events[..|events| - 1]), events[|events| - 1])
  }

  /** Two documents differ in nodes, identities or the parts of them that are not text. */
  predicate TopologyDiffers(previous: Document, next: Document) {
    || |previous.nodes| != |next.nodes|
    || exists i :: 0 <= i < |next.nodes| && NodeTopologyDiffers(previous.nodes[i], next.nodes[i])
  }

  predicate NodeTopologyDiffers(left: DocumentNode, right: DocumentNode) {
    left.id != right.id || left.parent != right.parent || left.role != right.role || left.name != right.name
  }

  predicate GeometryDiffers(previous: Document, next: Document) {
    || previous.truncated != next.truncated
    || |previous.nodes| != |next.nodes|
    || exists i :: 0 <= i < |next.nodes| && NodeGeometryDiffers(previous.nodes[i], next.nodes[i])
  }

  predicate NodeGeometryDiffers(left: DocumentNode, right: DocumentNode) {
    || left.id != right.id
    || |left.rows| != |right.rows|
    || exists r :: 0 <= r < |right.rows| && RowGeometryDiffers(left.rows[r], right.rows[r])
  }

  predicate RowGeometryDiffers(left: DocumentRow, right: DocumentRow) {
    left.softWrapped != right.softWrapped || left.bounds != right.bounds
  }

  function On(change: bool, event: SemanticEvent): seq<SemanticEvent> {
    if change then [event] else []
  }

  function Change(kind: EventKind, next: Document, node: NodeID): SemanticEvent {
    SemanticEvent(kind, next.providerID, next.generation, node, AnnouncementNone)
  }

  /** The changes of one node against the node of the same identity before. */
  function NodeChanges(before: DocumentNode, node: DocumentNode, next: Document, intents: Intents): seq<SemanticEvent> {
    On(intents.text && before.text != node.text, Change(TextChanged, next, node.id))
    + On(intents.caret && (before.hasCaret != node.hasCaret || before.caret != node.caret),
         Change(CaretChanged, next, node.id))
    + On(intents.selection && (before.hasSelect != node.hasSelect || before.selection != node.selection),
         Change(SelectionChanged, next, node.id))
  }

  /** The changes of the first `n` nodes that existed before. */
  function NodeDiffs(previous: Document, next: Document, intents: Intents, n: nat): seq<SemanticEvent>
    requires n <= |next.nodes| && IndexInRange(previous)
  {
    if n == 0 then []
    else
      var node := next.nodes[n - 1];
      NodeDiffs(previous, next, intents, n - 1)
      + if node.id in previous.index
        then NodeChanges(previous.nodes[previous.index[node.id]], node, next, intents) else []
  }

  function DocumentDiffs(previous: Document, next: Document, intents: Intents): seq<SemanticEvent>
    requires IndexInRange(previous)
  {
    var invalid := Invalidation(next.providerID, next.generation);
    On(previous.truncated != next.truncated, invalid)
    + On(intents.document && GeometryDiffers(previous, next), invalid)
    + On(intents.topology && TopologyDiffers(previous, next), Change(TopologyChanged, next, NO_NODE))
    + (if intents.text || intents.caret || intents.selection
       then NodeDiffs(previous, next, intents, |next.nodes|) else [])
    + On(intents.focus && previous.focus != next.focus, Change(FocusChanged, next, next.focus))
  }

  /** What a transition announces: everything anew for another provider, the differences for the same one. */
  function TransitionEvents(previous: Document, next: Document, intents: Intents): seq<SemanticEvent>
    requires IndexInRange(previous)
  {
    if previous.providerID == 0 || previous.providerID != next.providerID
    then [Invalidation(next.providerID, next.generation)]
    else DocumentDiffs(previous, next, intents)
  }

  /** The calls of the scheduler; each one runs under its lock, as one step. */
  datatype Call =
    | BeginCycle
    | SetActive(active: bool)
    | QueueTransition(previous: Document, next: Document, intents: Intents)
    | QueueAnnouncement(providerID: uint64, generation: uint64, kind: AnnouncementKind)
    | Drain
    | Close
  {
    predicate Legal() {
      QueueTransition? ==> IndexInRange(previous)
    }
  }

  /** What a call queues if the scheduler listens to it. */
  function Queued(call: Call): seq<SemanticEvent>
    requires call.Legal()
  {
    match call
    case QueueTransition(previous, next, intents) => TransitionEvents(previous, next, intents)
    case QueueAnnouncement(p, g, kind) => [SemanticEvent(Announcement, p, g, NO_NODE, kind)]
    case _ => []
  }

  /** The scheduler ignores queue calls that carry nothing. */
  predicate Carries(call: Call) {
    match call
    case QueueTransition(_, next, intents) => !intents.None() && next.providerID != 0
    case QueueAnnouncement(p, g, kind) => p != 0 && g != 0 && (kind == Bell || kind == Notification)
    case _ => false
  }

  function Source(call: Call): (uint64, uint64) {
    match call
    case QueueTransition(_, next, _) => (next.providerID, next.generation)
    case QueueAnnouncement(p, g, _) => (p, g)
    case _ => (0, 0)
  }

  const NO_EVENT := SemanticEvent(EventNone, 0, 0, NO_NODE, AnnouncementNone)

  /** The pending event of a key; a key without one yields the zero event. */
  function Pending(s: SchedulerState, key: EventKey): SemanticEvent {
    if key in s.pending then s.pending[key] else NO_EVENT
  }

  function Drained(s: SchedulerState): (seq<SemanticEvent>, SchedulerState) {
    if s.closed || !s.active || s.published || (!s.overflow && s.order == []) then ([], s)
    else
      var events := if s.overflow then [Invalidation(s.providerID, s.generation)]
                    else seq(|s.order|, i requires 0 <= i < |s.order| => Pending(s, s.order[i]));
      (events, Cleared(s.(published := true,
                          stats := s.stats.(publications := s.stats.publications + 1,
                                            events := s.stats.events + |events|))))
  }

  /** One call: the events it returns and the state after it. */
  function Serve(s: SchedulerState, call: Call): (seq<SemanticEvent>, SchedulerState)
    requires call.Legal()
  {
    match call
    case BeginCycle =>
      if s.closed then ([], s)
      else ([], Cleared(s).(published := false, stats := s.stats.(cycles := s.stats.cycles + 1)))
    case SetActive(active) =>
      if s.closed then ([], s)
      else if active then ([], s.(active := true))
      else ([], Cleared(s.(active := false)))
    case Drain => Drained(s)
    case Close => ([], Cleared(s.(closed := true, active := false)))
    case _ =>
      if s.closed || !s.active || !Carries(call) then ([], s)
      else ([], QueueAll(s.(providerID := Source(call).0, generation := Source(call).1), Queued(call)))
  }
}
