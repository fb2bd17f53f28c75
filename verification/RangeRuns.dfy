/** Ranges over whole runs: they stay valid on their own document and are refused by the others. */
module RangeRuns {
  import opened Types
  import opened Graphemes
  import opened DocumentSpec
  import opened DocumentProperties
  import opened RangeSpec
  import opened RangeProperties

  /** One operation on a range. A text search that finds nothing yields no range, and its caller keeps the one it
      has. */
  datatype RangeCall =
    | CallExpand(unit: TextUnit)
    | CallMove(unit: TextUnit, count: int)
    | CallMoveEndpoint(start: bool, unit: TextUnit, count: int)
    | CallMoveEndpointTo(start: bool, target: Range, targetStart: bool)
    | CallFind(seg: Segmenter, fold: (Text, Text) -> bool, needle: Text, backward: bool, ignoreCase: bool)

  ghost function Apply(document: Document, value: Range, call: RangeCall): Result<Range>
    requires IndexInRange(document)
  {
    match call
    case CallExpand(unit) => Expand(document, value, unit)
    case CallMove(unit, count) =>
      (match Move(document, value, unit, count)
       case Ok((moved, _)) => Ok(moved)
       case Err(e) => Err(e))
    case CallMoveEndpoint(start, unit, count) =>
      (match MoveEndpoint(document, value, start, unit, count)
       case Ok((moved, _)) => Ok(moved)
       case Err(e) => Err(e))
    case CallMoveEndpointTo(start, target, targetStart) => MoveEndpointTo(document, value, start, target, targetStart)
    case CallFind(seg, fold, needle, backward, ignoreCase) =>
      (match Find(seg, fold, document, value, needle, backward, ignoreCase)
       case Ok(found) => Ok(if found.Some? then found.value else value)
       case Err(e) => Err(e))
  }

  /** What a caller has to respect: a known unit, a target range on the same node of the document. */
  ghost predicate Legal(document: Document, value: Range, call: RangeCall)
    requires IndexInRange(document)
  {
    match call
    case CallExpand(unit) => unit != UnitUnknown
    case CallMove(unit, _) => unit != UnitUnknown
    case CallMoveEndpoint(_, unit, _) => unit != UnitUnknown
    case CallMoveEndpointTo(_, target, _) => Resolve(document, target).Ok? && target.node == value.node
    case CallFind(_, _, _, _, _) => true
  }

  /** The range names this very document and node, and lies inside it. */
  predicate On(document: Document, node: NodeID, value: Range)
    requires IndexInRange(document)
  {
    && Resolve(document, value).Ok?
    && value.node == node && value.instance == document.instance
  }

  lemma EndpointStays(document: Document, value: Range, start: bool, position: int)
    requires IndexInRange(document) && Resolve(document, value).Ok?
    requires 0 <= position <= |Resolve(document, value).value.graphemes|
    ensures Resolve(document, WithEndpoint(value, start, position)) == Resolve(document, value)
    ensures WithEndpoint(value, start, position).node == value.node
    ensures WithEndpoint(value, start, position).instance == value.instance
  {
  }

  lemma ExpandStays(document: Document, value: Range, unit: TextUnit)
    requires Readable(document) && Resolve(document, value).Ok? && unit != UnitUnknown
    ensures Expand(document, value, unit).Ok?
    ensures Resolve(document, Expand(document, value, unit).value) == Resolve(document, value)
  {
    ResolvedWellFormed(document, value);
    var node := Resolve(document, value).value;
    SegmentsTile(node, unit);
    SegmentInside(Segments(node, unit), |node.graphemes|,
                  SegmentIndex(Segments(node, unit), value.start, |node.graphemes|));
  }

  lemma ResolvedEndpoint(document: Document, value: Range, start: bool)
    requires IndexInRange(document) && Resolve(document, value).Ok?
    ensures 0 <= Endpoint(value, start) <= |Resolve(document, value).value.graphemes|
  {
  }

  lemma MoveEndpointUnfolds(document: Document, value: Range, start: bool, unit: TextUnit, count: int)
    requires IndexInRange(document) && Resolve(document, value).Ok? && unit != UnitUnknown
    requires var boundaries := Boundaries(Resolve(document, value).value, unit);
             boundaries != [] && Endpoint(value, start) <= boundaries[|boundaries| - 1]
    ensures var (position, moved) :=
              MoveBoundary(Boundaries(Resolve(document, value).value, unit), Endpoint(value, start), count);
            MoveEndpoint(document, value, start, unit, count)
            == Ok(if count == 0 then (value, 0) else (WithEndpoint(value, start, position), moved))
  {
    hide Resolve, Boundaries, MoveBoundary, WithEndpoint;
  }

  lemma MoveEndpointStays(document: Document, value: Range, start: bool, unit: TextUnit, count: int)
    requires Readable(document) && Resolve(document, value).Ok? && unit != UnitUnknown
    ensures MoveEndpoint(document, value, start, unit, count).Ok?
    ensures var moved := MoveEndpoint(document, value, start, unit, count).value.0;
            && Resolve(document, moved) == Resolve(document, value)
            && moved.node == value.node && moved.instance == value.instance
  {
    hide Readable, NodeWellFormed, Resolve, Segments, Boundaries, Increasing, MoveBoundary, MoveEndpoint, WithEndpoint,
         Endpoint, Crossed;
    ReadableIndex(document);
    ResolvedWellFormed(document, value);
    ResolvedEndpoint(document, value, start);
    var node := Resolve(document, value).value;
    BoundariesMeaning(node, unit);
    MoveEndpointUnfolds(document, value, start, unit, count);
    if count != 0 {
      MoveBoundaryLands(Boundaries(node, unit), |node.graphemes|, Endpoint(value, start), count);
      EndpointStays(document, value, start, MoveBoundary(Boundaries(node, unit), Endpoint(value, start), count).0);
    }
  }

  lemma FindStays(document: Document, value: Range, seg: Segmenter, fold: (Text, Text) -> bool, needle: Text,
                  backward: bool, ignoreCase: bool)
    requires IndexInRange(document) && Resolve(document, value).Ok?
    ensures var found := Find(seg, fold, document, value, needle, backward, ignoreCase);
            && found.Ok?
            && (found.value.Some? ==>
                  && Resolve(document, found.value.value) == Resolve(document, value)
                  && found.value.value.node == value.node && found.value.value.instance == value.instance)
  {
    hide MatchesAt;
  }

  /** An operation on a range of the document succeeds exactly when it is legal, and then its result is again a range
      of the same node. */
  lemma ApplyStays(document: Document, node: NodeID, value: Range, call: RangeCall)
    requires Readable(document) && On(document, node, value)
    ensures Apply(document, value, call).Ok? <==> Legal(document, value, call)
    ensures Apply(document, value, call).Ok? ==> On(document, node, Apply(document, value, call).value)
  {
    match call
    case CallExpand(unit) =>
      if unit != UnitUnknown {
        ExpandStays(document, value, unit);
        ExpandKeepsNode(document, value, unit);
      }
    case CallMove(unit, count) =>
      if unit != UnitUnknown {
        MoveStays(document, value, unit, count);
        MoveKeepsNode(document, value, unit, count);
      }
    case CallMoveEndpoint(start, unit, count) =>
      if unit != UnitUnknown {
        MoveEndpointStays(document, value, start, unit, count);
      }
    case CallMoveEndpointTo(start, target, targetStart) =>
      if Legal(document, value, call) {
        EndpointStays(document, value, start, Endpoint(target, targetStart));
      }
    case CallFind(seg, fold, needle, backward, ignoreCase) =>
      FindStays(document, value, seg, fold, needle, backward, ignoreCase);
  }

  lemma ExpandKeepsNode(document: Document, value: Range, unit: TextUnit)
    requires IndexInRange(document) && Expand(document, value, unit).Ok?
    ensures var r := Expand(document, value, unit).value; r.node == value.node && r.instance == value.instance
  {
  }

  lemma MoveKeepsNode(document: Document, value: Range, unit: TextUnit, count: int)
    requires IndexInRange(document) && unit != UnitUnknown && Resolve(document, value).Ok?
    ensures Move(document, value, unit, count).Ok?
    ensures var r := Move(document, value, unit, count).value.0; r.node == value.node && r.instance == value.instance
  {
  }

  /** The range after a run; an operation that is refused leaves it as it was. */
  ghost function RunRange(document: Document, value: Range, calls: seq<RangeCall>): Range
    requires IndexInRange(document)
  {
    if calls == [] then value
    else
      var before := RunRange(document, value, calls[..|calls| - 1]);
      match Apply(document, before, calls[|calls| - 1])
      case Ok(after) => after
      case Err(_) => before
  }

  /** Over every sequence of operations, refused ones among them, a range of the document stays one of its node. */
  lemma {:induction false} RunKeepsRange(document: Document, node: NodeID, value: Range, calls: seq<RangeCall>)
    requires Readable(document) && On(document, node, value)
    ensures On(document, node, RunRange(document, value, calls))
  {
    hide Apply, On, Legal, NodeWellFormed;
    if calls != [] {
      var before := calls[..|calls| - 1];
      RunKeepsRange(document, node, value, before);
      ApplyStays(document, node, RunRange(document, value, before), calls[|calls| - 1]);
    }
  }

  lemma NewRangeIsOn(document: Document, node: NodeID, start: int, end: int)
    requires Readable(document) && NewRange(document, node, start, end).Ok?
    ensures On(document, node, NewRange(document, node, start, end).value)
  {
  }

  /** Starting from a new range, after any sequence of operations the range is valid on its node, and the next
      operation is refused exactly when its unit is unknown or its target is no range of the node. */
  lemma RunStays(document: Document, node: NodeID, start: int, end: int, calls: seq<RangeCall>, call: RangeCall)
    requires Readable(document) && NewRange(document, node, start, end).Ok?
    ensures var value := RunRange(document, NewRange(document, node, start, end).value, calls);
            && On(document, node, value)
            && (Apply(document, value, call).Ok? <==> Legal(document, value, call))
  {
    hide *;
    ReadableIndex(document);
    NewRangeIsOn(document, node, start, end);
    RunKeepsRange(document, node, NewRange(document, node, start, end).value, calls);
    ApplyStays(document, node, RunRange(document, NewRange(document, node, start, end).value, calls), call);
  }

  lemma ReadableIndex(document: Document)
    requires Readable(document)
    ensures IndexInRange(document)
  {
  }

  /** A document with another instance number refuses the range, whatever is asked. */
  lemma StaleElsewhere(other: Document, value: Range, call: RangeCall)
    requires IndexInRange(other) && value.instance != other.instance
    ensures Apply(other, value, call) == Err(StaleRange)
  {
  }

  /** The counter after `n` constructions. */
  function CounterAfter(seg: Segmenter, drafts: seq<DocumentDraft>, last: uint64, n: nat): uint64
    requires n <= |drafts|
  {
    if n == 0 then last else NextInstance(Compile(seg, drafts[n - 1]), CounterAfter(seg, drafts, last, n - 1))
  }

  /** How many of the drafts from `i` up to `n` compile. */
  function Compiled(seg: Segmenter, drafts: seq<DocumentDraft>, i: nat, n: nat): nat
    requires i <= n <= |drafts|
    decreases n
  {
    if i == n then 0 else Compiled(seg, drafts, i, n - 1) + if Compile(seg, drafts[n - 1]).Ok? then 1 else 0
  }

  /** The document of construction `i` in a run of constructions. */
  function Constructed(seg: Segmenter, drafts: seq<DocumentDraft>, last: uint64, i: nat): Result<Document>
    requires i < |drafts|
  {
    NewDocument(seg, drafts[i], CounterAfter(seg, drafts, last, i))
  }

  const COUNTER_SPAN: nat := 0x1_0000_0000_0000_0000

  lemma StepRound(n: nat)
    ensures (n + 1) % COUNTER_SPAN == if n % COUNTER_SPAN == MAX_UINT64 then 0 else n % COUNTER_SPAN + 1
  {
  }

  /** The counter advances by one for every draft that compiles, round the 64 bits. */
  lemma {:induction false} CounterCounts(seg: Segmenter, drafts: seq<DocumentDraft>, last: uint64, i: nat, n: nat)
    requires i <= n <= |drafts|
    ensures CounterAfter(seg, drafts, last, n)
         == (CounterAfter(seg, drafts, last, i) + Compiled(seg, drafts, i, n)) % COUNTER_SPAN
    decreases n
  {
    hide Compile;
    if i < n {
      CounterCounts(seg, drafts, last, i, n - 1);
      StepRound(CounterAfter(seg, drafts, last, i) + Compiled(seg, drafts, i, n - 1));
    }
  }

  /** Two documents of one run have the same instance number exactly when the number of drafts that compiled from the
      one up to the other is a multiple of 2^64. */
  lemma InstancesAreDistinct(seg: Segmenter, drafts: seq<DocumentDraft>, last: uint64, i: nat, j: nat)
    requires i < j < |drafts|
    requires Constructed(seg, drafts, last, i).Ok? && Constructed(seg, drafts, last, j).Ok?
    ensures Constructed(seg, drafts, last, i).value.instance == Constructed(seg, drafts, last, j).value.instance
       <==> Compiled(seg, drafts, i, j) % COUNTER_SPAN == 0
  {
    hide Compile, CounterAfter, Compiled;
    CounterCounts(seg, drafts, last, i, j);
  }

  /** The document of a construction that succeeded. */
  function Built(seg: Segmenter, drafts: seq<DocumentDraft>, last: uint64, i: nat): (document: Document)
    requires i < |drafts| && Constructed(seg, drafts, last, i).Ok?
    ensures IndexInRange(document)
  {
    BuiltIsReadable(seg, drafts[i], CounterAfter(seg, drafts, last, i));
    Constructed(seg, drafts, last, i).value
  }

  lemma BuiltIsReadable(seg: Segmenter, draft: DocumentDraft, last: uint64)
    requires NewDocument(seg, draft, last).Ok?
    ensures Readable(NewDocument(seg, draft, last).value)
  {
    hide Compile, WellFormed, Readable, AllSound, SomethingLost;
    CompileKeeps(seg, draft);
    WellFormedIsReadable(Compile(seg, draft).value);
    StaysReadable(Compile(seg, draft).value, NewDocument(seg, draft, last).value.instance);
  }

  lemma StaysReadable(document: Document, instance: uint64)
    requires Readable(document)
    ensures Readable(document.(instance := instance))
  {
    hide NodeWellFormed;
  }

  /** Whatever is done with a range of one document, every document constructed before or after it refuses it as
      stale, unless the drafts that compiled in between are a multiple of 2^64. */
  lemma OthersRefuse(seg: Segmenter, drafts: seq<DocumentDraft>, last: uint64, i: nat, j: nat, node: NodeID, start: int,
                     end: int, calls: seq<RangeCall>, call: RangeCall)
    requires i < |drafts| && j < |drafts| && i != j
    requires Constructed(seg, drafts, last, i).Ok? && Constructed(seg, drafts, last, j).Ok?
    requires (if i < j then Compiled(seg, drafts, i, j) else Compiled(seg, drafts, j, i)) % COUNTER_SPAN != 0
    requires NewRange(Built(seg, drafts, last, i), node, start, end).Ok?
    ensures var own, other := Built(seg, drafts, last, i), Built(seg, drafts, last, j);
            Apply(other, RunRange(own, NewRange(own, node, start, end).value, calls), call) == Err(StaleRange)
  {
    hide Compile, CounterAfter, Compiled, NewRange, RunRange, Apply, Readable, NewDocument, Resolve;
    var own, other := Built(seg, drafts, last, i), Built(seg, drafts, last, j);
    if i < j {
      InstancesAreDistinct(seg, drafts, last, i, j);
    } else {
      InstancesAreDistinct(seg, drafts, last, j, i);
    }
    BuiltIsReadable(seg, drafts[i], CounterAfter(seg, drafts, last, i));
    NewRangeIsOn(own, node, start, end);
    RunKeepsRange(own, node, NewRange(own, node, start, end).value, calls);
    StaleElsewhere(other, RunRange(own, NewRange(own, node, start, end).value, calls), call);
  }

  /** The construction that finds the counter exhausted is refused, and the next document has the first number. */
  lemma ExhaustedCounterRepeats(seg: Segmenter, draft: DocumentDraft)
    requires Compile(seg, draft).Ok?
    ensures NewDocument(seg, draft, MAX_UINT64) == Err(CounterExhausted)
    ensures NewDocument(seg, draft, NextInstance(Compile(seg, draft), MAX_UINT64)) == NewDocument(seg, draft, 0)
    ensures NewDocument(seg, draft, 0).Ok? && NewDocument(seg, draft, 0).value.instance == 1
  {
  }

  lemma {:induction false} AllCompiled(seg: Segmenter, drafts: seq<DocumentDraft>, n: nat)
    requires n <= |drafts| && forall k :: 0 <= k < |drafts| ==> Compile(seg, drafts[k]).Ok?
    ensures Compiled(seg, drafts, 0, n) == n
  {
    hide Compile;
    if n > 0 {
      AllCompiled(seg, drafts, n - 1);
    }
  }

  /** In a run of 2^64 + 1 constructions of a draft that compiles the last document has the number of the first, so it
      answers to the first one's ranges. */
  lemma InstancesComeRound(seg: Segmenter, draft: DocumentDraft)
    requires Compile(seg, draft).Ok?
    ensures var drafts := seq(COUNTER_SPAN + 1, _ => draft);
            var first, again := Constructed(seg, drafts, 0, 0), Constructed(seg, drafts, 0, COUNTER_SPAN);
            first.Ok? && again.Ok? && first == again && first.value.instance == 1
  {
    hide Compile, Compiled;
    var drafts := seq(COUNTER_SPAN + 1, _ => draft);
    assert CounterAfter(seg, drafts, 0, 0) == 0;
    hide CounterAfter;
    AllCompiled(seg, drafts, COUNTER_SPAN);
    CounterCounts(seg, drafts, 0, 0, COUNTER_SPAN);
    assert drafts[0] == draft && drafts[COUNTER_SPAN] == draft;
  }
}
