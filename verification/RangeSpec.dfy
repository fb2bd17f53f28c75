/** Text ranges over a document node, as values that every operation replaces. */
module RangeSpec {
  import opened Types
  import opened Graphemes
  import opened DocumentSpec

  datatype Range = Range(providerID: uint64, generation: uint64, instance: uint64, node: NodeID, start: int, end: int) {
    function Span(): Span {
      Types.Span(start, end)
    }
  }

  datatype TextUnit = UnitCharacter | UnitFormat | UnitWord | UnitLine | UnitParagraph | UnitPage | UnitDocument
                    | UnitUnknown

  function NodeValue(document: Document, id: NodeID): Option<DocumentNode>
    requires IndexInRange(document)
  {
    if id in document.index then Some(document.nodes[document.index[id]]) else None
  }

  function NewRange(document: Document, node: NodeID, start: int, end: int): Result<Range>
    requires IndexInRange(document)
  {
    var stored := NodeValue(document, node);
    if stored.None? || !Types.Span(start, end).Valid(|stored.value.graphemes|) then Err(InvalidRange)
    else Ok(Range(document.providerID, document.generation, document.instance, node, start, end))
  }

  function Resolve(document: Document, value: Range): Result<DocumentNode>
    requires IndexInRange(document)
  {
    if value.providerID == 0 || value.providerID != document.providerID || value.generation != document.generation
       || value.instance != document.instance then Err(StaleRange)
    else
      var node := NodeValue(document, value.node);
      if node.None? || !value.Span().Valid(|node.value.graphemes|) then Err(InvalidRange) else Ok(node.value)
  }

  /** Where the line of row `i` ends: past its separator, if it has one. */
  function LineEnd(rows: seq<DocumentRow>, i: nat): int
    requires i < |rows|
  {
    if i + 1 < |rows| && rows[i + 1].start > rows[i].end then rows[i + 1].start else rows[i].end
  }

  function Lines(rows: seq<DocumentRow>): (lines: seq<Span>)
    ensures |lines| == |rows|
  {
    seq(|rows|, i requires 0 <= i < |rows| => Span(rows[i].start, LineEnd(rows, i)))
  }

  /** The segments of a node; an unknown unit has none. */
  function Segments(node: DocumentNode, unit: TextUnit): (segments: seq<Span>)
    ensures unit != UnitUnknown ==> segments != []
  {
    var length := |node.graphemes|;
    match unit
    case UnitCharacter => if length == 0 then [Span(0, 0)] else seq(length, i => Span(i, i + 1))
    case UnitFormat | UnitWord | UnitLine =>
      if node.rows == [] then [Span(0, length)]
      else Lines(node.rows)
    case UnitParagraph | UnitPage | UnitDocument => [Span(0, length)]
    case UnitUnknown => []
  }

  /** The starts of the first `n` segments, each new one once. */
  function Starts(segments: seq<Span>, n: nat): seq<int>
    requires n <= |segments|
  {
    if n == 0 then [] else AppendNew(Starts(segments, n - 1), segments[n - 1].start)
  }

  function AppendNew(values: seq<int>, value: int): (r: seq<int>)
    ensures r != [] && r[|r| - 1] == value
  {
    if values == [] || values[|values| - 1] != value then values + [value] else values
  }

  function Boundaries(node: DocumentNode, unit: TextUnit): seq<int> {
    var segments := Segments(node, unit);
    AppendNew(Starts(segments, |segments|), |node.graphemes|)
  }

  predicate Holds(segment: Span, position: int) {
    segment.start <= position < segment.end
  }

  /** The first of the segments from `from` that holds the position, or 0 if none does. */
  function FirstHolding(segments: seq<Span>, position: int, from: nat): (index: nat)
    requires from <= |segments|
    ensures segments != [] ==> index < |segments|
    decreases |segments| - from
  {
    if from == |segments| then 0
    else if Holds(segments[from], position) then from
    else FirstHolding(segments, position, from + 1)
  }

  function SegmentIndex(segments: seq<Span>, position: int, length: int): (index: int)
    ensures segments != [] ==> 0 <= index < |segments|
  {
    if position >= length then |segments| - 1 else FirstHolding(segments, position, 0)
  }

  function Clamp(value: int, low: int, high: int): int {
    if value < low then low else if value > high then high else value
  }

  /** How many leading boundaries do not lie beyond the position. */
  function UpTo(boundaries: seq<int>, position: int): (n: nat)
    ensures n <= |boundaries|
  {
    if boundaries == [] || boundaries[0] > position then 0 else 1 + UpTo(boundaries[1..], position)
  }

  /** How many leading boundaries lie before the position. */
  function Before(boundaries: seq<int>, position: int): (n: nat)
    ensures n <= |boundaries|
    ensures boundaries != [] && position <= boundaries[|boundaries| - 1] ==> n < |boundaries|
  {
    if boundaries == [] || boundaries[0] >= position then 0 else 1 + Before(boundaries[1..], position)
  }

  /** The target boundary and how many were crossed. */
  function MoveBoundary(boundaries: seq<int>, position: int, count: int): (int, int)
    requires boundaries != [] && position <= boundaries[|boundaries| - 1]
  {
    if count > 0 then
      var first := UpTo(boundaries, position);
      if first == |boundaries| then (position, 0)
      else
        var target := Clamp(first + count - 1, first, |boundaries| - 1);
        (boundaries[target], target - first + 1)
    else
      var first := Before(boundaries, position);
      var target := Clamp(first + count, 0, first);
      (boundaries[target], target - first)
  }

  function At(value: Range, segment: Span): Range {
    value.(start := segment.start, end := segment.end)
  }

  function Expand(document: Document, value: Range, unit: TextUnit): Result<Range>
    requires IndexInRange(document)
  {
    match Resolve(document, value)
    case Err(e) => Err(e)
    case Ok(node) =>
      if unit == UnitUnknown then Err(InvalidRange)
      else
        var segments := Segments(node, unit);
        Ok(At(value, segments[SegmentIndex(segments, value.start, |node.graphemes|)]))
  }

  function Move(document: Document, value: Range, unit: TextUnit, count: int): Result<(Range, int)>
    requires IndexInRange(document)
  {
    match Resolve(document, value)
    case Err(e) => Err(e)
    case Ok(node) =>
      if unit == UnitUnknown then Err(InvalidRange)
      else if count == 0 then Ok((value, 0))
      else
        var segments := Segments(node, unit);
        var index := SegmentIndex(segments, value.start, |node.graphemes|);
        var target := Clamp(index + count, 0, |segments| - 1);
        Ok((At(value, segments[target]), target - index))
  }

  /** The range with one endpoint moved; the other follows if it would be passed. */
  function WithEndpoint(value: Range, start: bool, position: int): Range {
    if start then value.(start := position, end := Max(value.end, position))
    else value.(end := position, start := Min(value.start, position))
  }

  function Endpoint(value: Range, start: bool): int {
    if start then value.start else value.end
  }

  function MoveEndpoint(document: Document, value: Range, start: bool, unit: TextUnit, count: int): Result<(Range, int)>
    requires IndexInRange(document)
  {
    match Resolve(document, value)
    case Err(e) => Err(e)
    case Ok(node) =>
      if unit == UnitUnknown then Err(InvalidRange)
      else if count == 0 then Ok((value, 0))
      else
        var (position, moved) := MoveBoundary(Boundaries(node, unit), Endpoint(value, start), count);
        Ok((WithEndpoint(value, start, position), moved))
  }

  function MoveEndpointTo(document: Document, value: Range, start: bool, target: Range,
                          targetStart: bool): Result<Range>
    requires IndexInRange(document)
  {
    if Resolve(document, value).Err? then Err(Resolve(document, value).error)
    else if Resolve(document, target).Err? then Err(Resolve(document, target).error)
    else if value.node != target.node then Err(InvalidRange)
    else Ok(WithEndpoint(value, start, Endpoint(target, targetStart)))
  }

  /** One grapheme of the text matches one of the needle: the same, or the same under case folding. */
  predicate SameGrapheme(fold: (Text, Text) -> bool, left: Text, right: Text, ignoreCase: bool) {
    if ignoreCase then fold(left, right) else left == right
  }

  predicate MatchesAt(graphemes: seq<Text>, wanted: seq<Text>, at: int, fold: (Text, Text) -> bool, ignoreCase: bool) {
    && 0 <= at && at + |wanted| <= |graphemes|
    && forall i :: 0 <= i < |wanted| ==> SameGrapheme(fold, graphemes[at + i], wanted[i], ignoreCase)
  }

  /** The first place from `at` up to `last` that matches. */
  function FirstMatch(graphemes: seq<Text>, wanted: seq<Text>, at: int, last: int, fold: (Text, Text) -> bool,
                      ignoreCase: bool): (r: Option<int>)
    ensures r.Some? ==> at <= r.value <= last
    decreases last - at
  {
    if at > last then None
    else if MatchesAt(graphemes, wanted, at, fold, ignoreCase) then Some(at)
    else FirstMatch(graphemes, wanted, at + 1, last, fold, ignoreCase)
  }

  /** The last place from `at` down to `first` that matches. */
  function LastMatch(graphemes: seq<Text>, wanted: seq<Text>, at: int, first: int, fold: (Text, Text) -> bool,
                     ignoreCase: bool): (r: Option<int>)
    ensures r.Some? ==> first <= r.value <= at
    decreases at - first
  {
    if at < first then None
    else if MatchesAt(graphemes, wanted, at, fold, ignoreCase) then Some(at)
    else LastMatch(graphemes, wanted, at - 1, first, fold, ignoreCase)
  }

  /** Where the needle's graphemes first, or backward last, occur inside the range. */
  function Find(seg: Segmenter, fold: (Text, Text) -> bool, document: Document, value: Range, needle: Text,
                backward: bool, ignoreCase: bool): Result<Option<Range>>
    requires IndexInRange(document)
  {
    match Resolve(document, value)
    case Err(e) => Err(e)
    case Ok(node) =>
      var wanted := seg(needle);
      var last := value.end - |wanted|;
      var found := if wanted == [] then None
                   else if backward then LastMatch(node.graphemes, wanted, last, value.start, fold, ignoreCase)
                   else FirstMatch(node.graphemes, wanted, value.start, last, fold, ignoreCase);
      Ok(match found
         case None => None
         case Some(at) => Some(value.(start := at, end := at + |wanted|)))
  }
}
