/** What the scheduler promises over whole runs: coalescing as a function of the events queued since the last
    clear, and the bounds on what it publishes. */
module SchedulerProperties {
  import opened Types
  import opened EventSpec

  /** The distinct keys of a log of events, in the order of their first event. */
  function FirstSeen(log: seq<SemanticEvent>): seq<EventKey> {
    if log == [] then []
    else
      var keys, key := FirstSeen(log[..|log| - 1]), Key(log[|log| - 1]);
      if key in keys then keys else keys + [key]
  }

  /** The last event of a key in a log. */
  function LastOf(log: seq<SemanticEvent>, key: EventKey): SemanticEvent {
    if log == [] then NO_EVENT
    else if Key(log[|log| - 1]) == key then log[|log| - 1]
    else LastOf(log[..|log| - 1], key)
  }

  predicate Overflows(log: seq<SemanticEvent>) {
    |FirstSeen(log)| > MAX_SEMANTIC_EVENTS
  }

  /** What a log of events is published as. */
  function Coalesced(log: seq<SemanticEvent>, providerID: uint64, generation: uint64): seq<SemanticEvent> {
    if Overflows(log) then [Invalidation(providerID, generation)]
    else seq(|FirstSeen(log)|, i requires 0 <= i < |FirstSeen(log)| => LastOf(log, FirstSeen(log)[i]))
  }

  /** Every event's key is among the keys, and no other. */
  lemma {:induction false} FirstSeenKeys(log: seq<SemanticEvent>)
    ensures forall n :: 0 <= n < |log| ==> Key(log[n]) in FirstSeen(log)
  {
    if log != [] {
      var before := log[..|log| - 1];
      FirstSeenKeys(before);
      forall n | 0 <= n < |log|
        ensures Key(log[n]) in FirstSeen(log)
      {
        if n < |before| {
          assert log[n] == before[n];
        }
      }
    }
  }

  /** The place of each key's first event. */
  ghost predicate FirstPlaces(log: seq<SemanticEvent>, keys: seq<EventKey>, firsts: seq<nat>) {
    && |firsts| == |keys|
    && forall i :: 0 <= i < |firsts| ==> IsFirst(log, keys[i], firsts[i])
  }

  ghost predicate IsFirst(log: seq<SemanticEvent>, key: EventKey, n: nat) {
    n < |log| && Key(log[n]) == key && forall j :: 0 <= j < n ==> Key(log[j]) != key
  }

  lemma FirstLater(log: seq<SemanticEvent>, event: SemanticEvent, key: EventKey, n: nat)
    requires IsFirst(log, key, n)
    ensures IsFirst(log + [event], key, n)
  {
  }

  lemma FirstNow(log: seq<SemanticEvent>, event: SemanticEvent)
    requires Key(event) !in FirstSeen(log)
    ensures IsFirst(log + [event], Key(event), |log|)
  {
    FirstSeenKeys(log);
    hide FirstSeen;
  }

  lemma FirstPlacesLater(log: seq<SemanticEvent>, event: SemanticEvent, keys: seq<EventKey>, firsts: seq<nat>)
    requires FirstPlaces(log, keys, firsts)
    ensures FirstPlaces(log + [event], keys, firsts)
  {
    hide IsFirst;
    forall i | 0 <= i < |firsts|
      ensures IsFirst(log + [event], keys[i], firsts[i])
    {
      FirstLater(log, event, keys[i], firsts[i]);
    }
  }

  lemma FirstPlacesGrow(log: seq<SemanticEvent>, keys: seq<EventKey>, firsts: seq<nat>, key: EventKey, n: nat)
    requires FirstPlaces(log, keys, firsts) && IsFirst(log, key, n)
    ensures FirstPlaces(log, keys + [key], firsts + [n])
  {
    hide IsFirst;
  }

  predicate Ascending(places: seq<nat>) {
    forall i, j :: 0 <= i < j < |places| ==> places[i] < places[j]
  }

  lemma NoFirsts()
    ensures FirstPlaces([], FirstSeen([]), []) && Ascending([])
  {
  }

  lemma LastSplits(log: seq<SemanticEvent>)
    requires log != []
    ensures log == log[..|log| - 1] + [log[|log| - 1]]
  {
  }

  /** One more event adds its place if its key is new. */
  lemma FirstsStep(log: seq<SemanticEvent>, event: SemanticEvent, firsts: seq<nat>)
    requires FirstPlaces(log, FirstSeen(log), firsts) && Ascending(firsts)
    ensures var later := if Key(event) in FirstSeen(log) then firsts else firsts + [|log|];
            FirstPlaces(log + [event], FirstSeen(log + [event]), later) && Ascending(later)
  {
    hide FirstSeen, FirstPlaces, IsFirst, Key;
    var keys := FirstSeen(log);
    FirstsBelow(log, keys, firsts);
    FirstPlacesLater(log, event, keys, firsts);
    FirstSeenStep(log, event);
    if Key(event) !in keys {
      FirstNow(log, event);
      FirstPlacesGrow(log + [event], keys, firsts, Key(event), |log|);
    }
  }

  /** The keys are those of the log, each once, ordered by their first event. */
  lemma {:induction false} FirstSeenMeaning(log: seq<SemanticEvent>) returns (firsts: seq<nat>)
    ensures FirstPlaces(log, FirstSeen(log), firsts) && Ascending(firsts)
    ensures forall n :: 0 <= n < |log| ==> Key(log[n]) in FirstSeen(log)
    decreases |log|
  {
    hide FirstSeen, FirstPlaces, Ascending, Key;
    FirstSeenKeys(log);
    if log == [] {
      NoFirsts();
      firsts := [];
    } else {
      var before, last := log[..|log| - 1], log[|log| - 1];
      LastSplits(log);
      firsts := FirstSeenMeaning(before);
      FirstsStep(before, last, firsts);
      if Key(last) !in FirstSeen(before) {
        firsts := firsts + [|before|];
      }
    }
  }

  lemma FirstSeenStep(log: seq<SemanticEvent>, event: SemanticEvent)
    ensures FirstSeen(log + [event])
         == if Key(event) in FirstSeen(log) then FirstSeen(log) else FirstSeen(log) + [Key(event)]
  {
    assert (log + [event])[..|log|] == log;
  }

  lemma FirstsBelow(log: seq<SemanticEvent>, keys: seq<EventKey>, firsts: seq<nat>)
    requires FirstPlaces(log, keys, firsts)
    ensures forall i :: 0 <= i < |firsts| ==> firsts[i] < |log|
  {
  }

  lemma {:induction false} LastOfMeaning(log: seq<SemanticEvent>, key: EventKey) returns (n: nat)
    requires key in FirstSeen(log)
    ensures n < |log| && log[n] == LastOf(log, key) && Key(log[n]) == key
    ensures forall m :: n < m < |log| ==> Key(log[m]) != key
  {
    var before := log[..|log| - 1];
    if Key(log[|log| - 1]) == key {
      n := |log| - 1;
    } else {
      n := LastOfMeaning(before, key);
      assert forall m :: 0 <= m < |before| ==> log[m] == before[m];
    }
  }

  /** The machine that only keeps the log since the last clear. */
  datatype LogState = LogState(
    active: bool,
    closed: bool,
    published: bool,
    providerID: uint64,
    generation: uint64,
    log: seq<SemanticEvent>,
    stats: SchedulerStats)

  function InitialLog(active: bool): LogState {
    LogState(active, false, false, 0, 0, [], SchedulerStats(0, 0, 0, 0))
  }

  function Logged(a: LogState, event: SemanticEvent): LogState {
    var log := a.log + [event];
    a.(log := log,
       stats := if Overflows(log) && !Overflows(a.log) then a.stats.(overflows := a.stats.overflows + 1) else a.stats)
  }

  function LoggedAll(a: LogState, events: seq<SemanticEvent>): LogState {
    if events == [] then a else Logged(LoggedAll(a, events[..|events| - 1]), events[|events| - 1])
  }

  function LogDrained(a: LogState): (seq<SemanticEvent>, LogState) {
    if a.closed || !a.active || a.published || a.log == [] then ([], a)
    else
      var events := Coalesced(a.log, a.providerID, a.generation);
      (events, a.(published := true, log := [],
                  stats := a.stats.(publications := a.stats.publications + 1, events := a.stats.events + |events|)))
  }

  function LogServe(a: LogState, call: Call): (seq<SemanticEvent>, LogState)
    requires call.Legal()
  {
    match call
    case BeginCycle =>
      if a.closed then ([], a)
      else ([], a.(log := [], published := false, stats := a.stats.(cycles := a.stats.cycles + 1)))
    case SetActive(active) =>
      if a.closed then ([], a) else if active then ([], a.(active := true)) else ([], a.(active := false, log := []))
    case Drain => LogDrained(a)
    case Close => ([], a.(closed := true, active := false, log := []))
    case _ =>
      if a.closed || !a.active || !Carries(call) then ([], a)
      else ([], LoggedAll(a.(providerID := Source(call).0, generation := Source(call).1), Queued(call)))
  }

  /** The map and order slice of the scheduler stand for the log. */
  ghost predicate Refines(s: SchedulerState, a: LogState) {
    && s.active == a.active && s.closed == a.closed && s.published == a.published
    && s.providerID == a.providerID && s.generation == a.generation && s.stats == a.stats
    && Stands(s, a.log)
  }

  ghost predicate Stands(s: SchedulerState, log: seq<SemanticEvent>) {
    if Overflows(log) then s.overflow && s.order == [] && s.pending == map[]
    else
      && !s.overflow && s.order == FirstSeen(log)
      && (forall k :: k in s.pending <==> k in s.order)
      && (forall k :: k in s.order ==> s.pending[k] == LastOf(log, k))
  }

  lemma QueueRefines(s: SchedulerState, a: LogState, event: SemanticEvent)
    requires Refines(s, a)
    ensures Refines(Queue(s, event), Logged(a, event))
  {
    OverflowStays(a.log, event);
    StandsGrows(s, a.log, event);
    hide Stands, FirstSeen, Key;
    FirstSeenStep(a.log, event);
    StandsSize(s, a.log, event);
  }

  /** What the state tells of a log it stands for. */
  lemma StandsSize(s: SchedulerState, log: seq<SemanticEvent>, event: SemanticEvent)
    requires Stands(s, log)
    ensures s.overflow <==> Overflows(log)
    ensures !s.overflow ==> |s.order| == |FirstSeen(log)| && (Key(event) in s.pending <==> Key(event) in FirstSeen(log))
  {
    hide FirstSeen, LastOf, Key;
  }

  lemma StandsGrows(s: SchedulerState, log: seq<SemanticEvent>, event: SemanticEvent)
    requires Stands(s, log)
    ensures Stands(Queue(s, event), log + [event])
  {
    OverflowStays(log, event);
    FirstSeenStep(log, event);
    LogStep(log, event);
    hide FirstSeen, LastOf, Key;
  }

  lemma OverflowStays(log: seq<SemanticEvent>, event: SemanticEvent)
    ensures Overflows(log) ==> Overflows(log + [event])
    ensures Overflows(log + [event]) <==>
              |FirstSeen(log)| + (if Key(event) in FirstSeen(log) then 0 else 1) > MAX_SEMANTIC_EVENTS
  {
    assert (log + [event])[..|log|] == log;
  }

  lemma LogStep(log: seq<SemanticEvent>, event: SemanticEvent)
    ensures forall k :: LastOf(log + [event], k) == if k == Key(event) then event else LastOf(log, k)
  {
    assert (log + [event])[..|log|] == log;
  }

  lemma {:induction false} QueueAllRefines(s: SchedulerState, a: LogState, events: seq<SemanticEvent>)
    requires Refines(s, a)
    ensures Refines(QueueAll(s, events), LoggedAll(a, events))
  {
    if events != [] {
      QueueAllRefines(s, a, events[..|events| - 1]);
      QueueRefines(QueueAll(s, events[..|events| - 1]), LoggedAll(a, events[..|events| - 1]), events[|events| - 1]);
    }
  }

  lemma FirstSeenEmpty(log: seq<SemanticEvent>)
    ensures FirstSeen(log) == [] <==> log == []
  {
    if log != [] {
      var firsts := FirstSeenMeaning(log);
      assert Key(log[0]) in FirstSeen(log);
    }
  }

  lemma DrainRefines(s: SchedulerState, a: LogState)
    requires Refines(s, a)
    ensures Drained(s).0 == LogDrained(a).0
    ensures Refines(Drained(s).1, LogDrained(a).1)
  {
    FirstSeenEmpty(a.log);
    if !(s.closed || !s.active || s.published || a.log == []) {
      assert Drained(s).0 == Coalesced(a.log, a.providerID, a.generation);
    }
  }

  lemma ServeRefines(s: SchedulerState, a: LogState, call: Call)
    requires Refines(s, a) && call.Legal()
    ensures Serve(s, call).0 == LogServe(a, call).0
    ensures Refines(Serve(s, call).1, LogServe(a, call).1)
  {
    hide QueueAll, LoggedAll, Queued, Drained, LogDrained;
    assert FirstSeen([]) == [];
    DrainRefines(s, a);
    if !(s.closed || !s.active || !Carries(call)) {
      QueueAllRefines(s.(providerID := Source(call).0, generation := Source(call).1),
                      a.(providerID := Source(call).0, generation := Source(call).1), Queued(call));
    }
  }

  ghost predicate AllLegal(calls: seq<Call>) {
    forall i :: 0 <= i < |calls| ==> calls[i].Legal()
  }

  /** The state after a run of calls. */
  ghost function Run(s: SchedulerState, calls: seq<Call>): SchedulerState
    requires AllLegal(calls)
  {
    if calls == [] then s else Serve(Run(s, calls[..|calls| - 1]), calls[|calls| - 1]).1
  }

  ghost function LogRun(a: LogState, calls: seq<Call>): LogState
    requires AllLegal(calls)
  {
    if calls == [] then a else LogServe(LogRun(a, calls[..|calls| - 1]), calls[|calls| - 1]).1
  }

  /** What the calls of a run returned, one entry a call. */
  ghost function Outputs(s: SchedulerState, calls: seq<Call>): seq<seq<SemanticEvent>>
    requires AllLegal(calls)
  {
    if calls == [] then []
    else Outputs(s, calls[..|calls| - 1]) + [Serve(Run(s, calls[..|calls| - 1]), calls[|calls| - 1]).0]
  }

  ghost function LogOutputs(a: LogState, calls: seq<Call>): seq<seq<SemanticEvent>>
    requires AllLegal(calls)
  {
    if calls == [] then []
    else LogOutputs(a, calls[..|calls| - 1]) + [LogServe(LogRun(a, calls[..|calls| - 1]), calls[|calls| - 1]).0]
  }

  /** Over every run the scheduler returns exactly what the log machine returns. */
  lemma {:induction false} RunRefines(s: SchedulerState, a: LogState, calls: seq<Call>)
    requires Refines(s, a) && AllLegal(calls)
    ensures Refines(Run(s, calls), LogRun(a, calls))
    ensures Outputs(s, calls) == LogOutputs(a, calls)
  {
    hide Refines, Serve, LogServe;
    if calls != [] {
      var before, last := calls[..|calls| - 1], calls[|calls| - 1];
      RunRefines(s, a, before);
      ServeRefines(Run(s, before), LogRun(a, before), last);
    }
  }

  lemma SchedulerRefinesLog(active: bool, calls: seq<Call>)
    requires AllLegal(calls)
    ensures Outputs(Initial(active), calls) == LogOutputs(InitialLog(active), calls)
  {
    assert Refines(Initial(active), InitialLog(active));
    RunRefines(Initial(active), InitialLog(active), calls);
  }

  ghost predicate Distinct(keys: seq<EventKey>) {
    forall i, j :: 0 <= i < j < |keys| ==> keys[i] != keys[j]
  }

  /** What every reachable state of the scheduler satisfies. */
  ghost predicate Invariant(s: SchedulerState) {
    && QueueInvariant(s)
    && (s.closed ==> !s.active && s.order == [] && !s.overflow)
    && s.stats.publications <= s.stats.cycles + (if s.published then 1 else 0)
    && s.stats.publications <= s.stats.events <= MAX_SEMANTIC_EVENTS * s.stats.publications
  }

  ghost predicate QueueInvariant(s: SchedulerState) {
    && Distinct(s.order) && |s.order| <= MAX_SEMANTIC_EVENTS
    && (forall k :: k in s.pending <==> k in s.order)
    && (s.overflow ==> s.order == [] && s.pending == map[])
  }

  /** A queue step touches nothing but the queue and the overflow count. */
  ghost predicate OnlyQueued(s: SchedulerState, t: SchedulerState) {
    && t == s.(pending := t.pending, order := t.order, overflow := t.overflow, stats := t.stats)
    && t.stats == s.stats.(overflows := t.stats.overflows)
  }

  lemma QueueKeeps(s: SchedulerState, event: SemanticEvent)
    requires QueueInvariant(s)
    ensures QueueInvariant(Queue(s, event)) && OnlyQueued(s, Queue(s, event))
  {
  }

  lemma {:induction false} QueueAllKeeps(s: SchedulerState, events: seq<SemanticEvent>)
    requires QueueInvariant(s)
    ensures QueueInvariant(QueueAll(s, events)) && OnlyQueued(s, QueueAll(s, events))
  {
    hide Queue, QueueInvariant;
    if events != [] {
      QueueAllKeeps(s, events[..|events| - 1]);
      QueueKeeps(QueueAll(s, events[..|events| - 1]), events[|events| - 1]);
    }
  }

  lemma ServeKeeps(s: SchedulerState, call: Call)
    requires Invariant(s) && call.Legal()
    ensures Invariant(Serve(s, call).1)
  {
    hide QueueAll, Queued;
    if (call.QueueTransition? || call.QueueAnnouncement?) && !(s.closed || !s.active || !Carries(call)) {
      QueueAllKeeps(s.(providerID := Source(call).0, generation := Source(call).1), Queued(call));
    }
  }

  lemma {:induction false} RunKeeps(active: bool, calls: seq<Call>)
    requires AllLegal(calls)
    ensures Invariant(Run(Initial(active), calls))
  {
    hide Serve;
    if calls != [] {
      RunKeeps(active, calls[..|calls| - 1]);
      ServeKeeps(Run(Initial(active), calls[..|calls| - 1]), calls[|calls| - 1]);
    }
  }

  /** How many of the returned lists are not empty, and how many events they hold in all. */
  ghost function Publications(outputs: seq<seq<SemanticEvent>>): nat {
    if outputs == [] then 0
    else Publications(outputs[..|outputs| - 1]) + if outputs[|outputs| - 1] == [] then 0 else 1
  }

  ghost function EventCount(outputs: seq<seq<SemanticEvent>>): nat {
    if outputs == [] then 0 else EventCount(outputs[..|outputs| - 1]) + |outputs[|outputs| - 1]|
  }

  ghost function CyclesBegun(calls: seq<Call>): nat {
    if calls == [] then 0
    else CyclesBegun(calls[..|calls| - 1]) + if calls[|calls| - 1].BeginCycle? then 1 else 0
  }

  /** What one call adds to the statistics and does to the published flag. */
  lemma ServeCounts(s: SchedulerState, call: Call)
    requires Invariant(s) && call.Legal()
    ensures var (events, t) := Serve(s, call);
            && t.stats.publications == s.stats.publications + (if events == [] then 0 else 1)
            && t.stats.events == s.stats.events + |events|
            && t.stats.cycles == s.stats.cycles + (if call.BeginCycle? && !s.closed then 1 else 0)
            && (events != [] ==> call.Drain? && !s.published && t.published)
            && (!call.BeginCycle? && s.published ==> t.published)
            && (s.closed ==> t.closed && events == [] && t.stats == s.stats)
  {
    hide QueueAll, Queued;
    if (call.QueueTransition? || call.QueueAnnouncement?) && !(s.closed || !s.active || !Carries(call)) {
      QueueAllKeeps(s.(providerID := Source(call).0, generation := Source(call).1), Queued(call));
    }
  }

  /** The statistics count exactly what was published. */
  lemma {:induction false} StatsCountOutputs(active: bool, calls: seq<Call>)
    requires AllLegal(calls)
    ensures var s, outputs := Run(Initial(active), calls), Outputs(Initial(active), calls);
            && s.stats.publications == Publications(outputs)
            && s.stats.events == EventCount(outputs)
            && s.stats.cycles <= CyclesBegun(calls)
            && Publications(outputs) <= CyclesBegun(calls) + 1
            && Publications(outputs) <= EventCount(outputs) <= MAX_SEMANTIC_EVENTS * Publications(outputs)
  {
    hide Serve;
    RunKeeps(active, calls);
    if calls != [] {
      var before, last := calls[..|calls| - 1], calls[|calls| - 1];
      StatsCountOutputs(active, before);
      RunKeeps(active, before);
      ServeCounts(Run(Initial(active), before), last);
      var outputs := Outputs(Initial(active), calls);
      assert outputs[..|outputs| - 1] == Outputs(Initial(active), before);
    }
  }

  /** Between two calls that begin a cycle, at most one drain returns events, and none once one has. */
  lemma {:induction false} OnePublicationPerCycle(s: SchedulerState, calls: seq<Call>)
    requires Invariant(s) && AllLegal(calls)
    requires forall i :: 0 <= i < |calls| ==> !calls[i].BeginCycle?
    ensures Invariant(Run(s, calls))
    ensures Publications(Outputs(s, calls)) + (if s.published then 1 else 0) <= if Run(s, calls).published then 1 else 0
  {
    hide Serve, Invariant;
    if calls != [] {
      var before, last := calls[..|calls| - 1], calls[|calls| - 1];
      OnePublicationPerCycle(s, before);
      ServeCounts(Run(s, before), last);
      ServeKeeps(Run(s, before), last);
      var outputs := Outputs(s, calls);
      assert outputs[..|outputs| - 1] == Outputs(s, before);
    }
  }

  /** A closed scheduler returns nothing and counts nothing, whatever is called. */
  lemma {:induction false} ClosedForever(s: SchedulerState, calls: seq<Call>)
    requires Invariant(s) && s.closed && AllLegal(calls)
    ensures Run(s, calls).closed && Run(s, calls).stats == s.stats && Invariant(Run(s, calls))
    ensures Publications(Outputs(s, calls)) == 0
  {
    hide Serve, Invariant;
    if calls != [] {
      var before, last := calls[..|calls| - 1], calls[|calls| - 1];
      ClosedForever(s, before);
      ServeCounts(Run(s, before), last);
      ServeKeeps(Run(s, before), last);
      var outputs := Outputs(s, calls);
      assert outputs[..|outputs| - 1] == Outputs(s, before);
    }
  }
}
