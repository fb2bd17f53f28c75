/** The loops of the range operations. */
module Ranges {
  import opened Types
  import opened Graphemes
  import opened DocumentSpec
  import opened RangeSpec

  method TextUnitSegments(node: DocumentNode, unit: TextUnit) returns (result: Result<seq<Span>>)
    ensures result == if unit == UnitUnknown then Err(InvalidRange) else Ok(Segments(node, unit))
  {
    var length := |node.graphemes|;
    var segments: seq<Span> := [];
    match unit
    case UnitCharacter =>
      if length == 0 {
        return Ok([Span(0, 0)]);
      }
      for index := 0 to length
        invariant |segments| == index
        invariant forall i :: 0 <= i < index ==> segments[i] == Span(i, i + 1)
      {
        segments := segments + [Span(index, index + 1)];
      }
      assert segments == Segments(node, unit);
      return Ok(segments);
    case UnitFormat | UnitWord | UnitLine =>
      if |node.rows| == 0 {
        return Ok([Span(0, length)]);
      }
      for index := 0 to |node.rows|
        invariant |segments| == index
        invariant forall i :: 0 <= i < index ==> segments[i] == Span(node.rows[i].start, LineEnd(node.rows, i))
      {
        var row := node.rows[index];
        var end := row.end;
        if index + 1 < |node.rows| && node.rows[index + 1].start > end {
          end := node.rows[index + 1].start;
        }
        segments := segments + [Span(row.start, end)];
      }
      assert segments == Segments(node, unit);
      return Ok(segments);
    case UnitParagraph | UnitPage | UnitDocument =>
      return Ok([Span(0, length)]);
    case UnitUnknown =>
      return Err(InvalidRange);
  }

  method TextUnitBoundaries(node: DocumentNode, unit: TextUnit) returns (result: Result<seq<int>>)
    ensures result == if unit == UnitUnknown then Err(InvalidRange) else Ok(Boundaries(node, unit))
  {
    var found := TextUnitSegments(node, unit);
    if found.Err? {
      return Err(found.error);
    }
    var segments := found.value;
    var boundaries: seq<int> := [];
    for n := 0 to |segments|
      invariant boundaries == Starts(segments, n)
    {
      if |boundaries| == 0 || boundaries[|boundaries| - 1] != segments[n].start {
        boundaries := boundaries + [segments[n].start];
      }
    }
    var end := |node.graphemes|;
    if |boundaries| == 0 || boundaries[|boundaries| - 1] != end {
      boundaries := boundaries + [end];
    }
    return Ok(boundaries);
  }

  method FindSegment(segments: seq<Span>, position: int, length: int) returns (index: int)
    ensures index == SegmentIndex(segments, position, length)
  {
    if position >= length {
      return |segments| - 1;
    }
    for n := 0 to |segments|
      invariant FirstHolding(segments, position, 0) == FirstHolding(segments, position, n)
    {
      if position >= segments[n].start && position < segments[n].end {
        return n;
      }
    }
    return 0;
  }

  lemma {:induction false} UpToStep(boundaries: seq<int>, position: int, n: nat)
    requires n <= |boundaries| && forall i :: 0 <= i < n ==> boundaries[i] <= position
    ensures n == |boundaries| || boundaries[n] > position ==> UpTo(boundaries, position) == n
  {
    if n > 0 {
      UpToStep(boundaries[1..], position, n - 1);
    }
  }

  lemma {:induction false} BeforeStep(boundaries: seq<int>, position: int, n: nat)
    requires n <= |boundaries| && forall i :: 0 <= i < n ==> boundaries[i] < position
    ensures n == |boundaries| || boundaries[n] >= position ==> Before(boundaries, position) == n
  {
    if n > 0 {
      BeforeStep(boundaries[1..], position, n - 1);
    }
  }

  method MoveAcross(boundaries: seq<int>, position: int, count: int) returns (result: int, moved: int)
    requires boundaries != [] && position <= boundaries[|boundaries| - 1]
    ensures (result, moved) == MoveBoundary(boundaries, position, count)
  {
    var first := 0;
    if count > 0 {
      while first < |boundaries| && boundaries[first] <= position
        invariant 0 <= first <= |boundaries|
        invariant forall i :: 0 <= i < first ==> boundaries[i] <= position
      {
        first := first + 1;
      }
      UpToStep(boundaries, position, first);
      if first == |boundaries| {
        return position, 0;
      }
      var target := Clamp(first + count - 1, first, |boundaries| - 1);
      return boundaries[target], target - first + 1;
    }
    while first < |boundaries| && boundaries[first] < position
      invariant 0 <= first <= |boundaries|
      invariant forall i :: 0 <= i < first ==> boundaries[i] < position
    {
      first := first + 1;
    }
    BeforeStep(boundaries, position, first);
    var target := Clamp(first + count, 0, first);
    return boundaries[target], target - first;
  }

  method MatchAt(graphemes: seq<Text>, wanted: seq<Text>, at: nat, fold: (Text, Text) -> bool, ignoreCase: bool)
    returns (matches: bool)
    requires at + |wanted| <= |graphemes|
    ensures matches <==> MatchesAt(graphemes, wanted, at, fold, ignoreCase)
  {
    for offset := 0 to |wanted|
      invariant forall i :: 0 <= i < offset ==> SameGrapheme(fold, graphemes[at + i], wanted[i], ignoreCase)
    {
      var left, right := graphemes[at + offset], wanted[offset];
      if ignoreCase {
        if !fold(left, right) {
          assert !SameGrapheme(fold, graphemes[at + offset], wanted[offset], ignoreCase);
          return false;
        }
      } else if left != right {
        assert !SameGrapheme(fold, graphemes[at + offset], wanted[offset], ignoreCase);
        return false;
      }
    }
    return true;
  }

  /** The backward loop of a search. */
  method SearchBackward(graphemes: seq<Text>, wanted: seq<Text>, last: int, first: int, fold: (Text, Text) -> bool,
                        ignoreCase: bool)
    returns (found: Option<int>)
    requires 0 <= first && last + |wanted| <= |graphemes|
    ensures found == LastMatch(graphemes, wanted, last, first, fold, ignoreCase)
    ensures match found
            case Some(at) =>
              && first <= at <= last && MatchesAt(graphemes, wanted, at, fold, ignoreCase)
              && forall i :: at < i <= last ==> !MatchesAt(graphemes, wanted, i, fold, ignoreCase)
            case None => forall i :: first <= i <= last ==> !MatchesAt(graphemes, wanted, i, fold, ignoreCase)
  {
    hide MatchesAt;
    var at := last;
    while at >= first
      invariant at <= last
      invariant forall i :: at < i <= last ==> !MatchesAt(graphemes, wanted, i, fold, ignoreCase)
      invariant LastMatch(graphemes, wanted, last, first, fold, ignoreCase)
             == LastMatch(graphemes, wanted, at, first, fold, ignoreCase)
      decreases at - first
    {
      var matches := MatchAt(graphemes, wanted, at, fold, ignoreCase);
      if matches {
        return Some(at);
      }
      at := at - 1;
    }
    return None;
  }

  /** The forward loop of a search. */
  method SearchForward(graphemes: seq<Text>, wanted: seq<Text>, first: int, last: int, fold: (Text, Text) -> bool,
                       ignoreCase: bool)
    returns (found: Option<int>)
    requires 0 <= first && last + |wanted| <= |graphemes|
    ensures found == FirstMatch(graphemes, wanted, first, last, fold, ignoreCase)
    ensures match found
            case Some(at) =>
              && first <= at <= last && MatchesAt(graphemes, wanted, at, fold, ignoreCase)
              && forall i :: first <= i < at ==> !MatchesAt(graphemes, wanted, i, fold, ignoreCase)
            case None => forall i :: first <= i <= last ==> !MatchesAt(graphemes, wanted, i, fold, ignoreCase)
  {
    hide MatchesAt;
    var at := first;
    while at <= last
      invariant first <= at
      invariant forall i :: first <= i < at ==> !MatchesAt(graphemes, wanted, i, fold, ignoreCase)
      invariant FirstMatch(graphemes, wanted, first, last, fold, ignoreCase)
             == FirstMatch(graphemes, wanted, at, last, fold, ignoreCase)
      decreases last - at
    {
      var matches := MatchAt(graphemes, wanted, at, fold, ignoreCase);
      if matches {
        return Some(at);
      }
      at := at + 1;
    }
    return None;
  }

  /** The range of a place inside a range is the same range with other ends. */
  lemma FoundIsInside(document: Document, value: Range, at: int, size: nat)
    requires IndexInRange(document) && Resolve(document, value).Ok?
    requires value.start <= at && at + size <= value.end
    ensures NewRange(document, value.node, at, at + size) == Ok(value.(start := at, end := at + size))
    ensures Resolve(document, value.(start := at, end := at + size)).Ok?
  {
  }

  /** Finds the first, or backward the last, place inside the range where the needle's graphemes occur. It reports
      nothing found only when there is no such place or nothing was sought. */
  method FindText(seg: Segmenter, fold: (Text, Text) -> bool, document: Document, value: Range, needle: Text,
                  backward: bool, ignoreCase: bool)
    returns (result: Result<Option<Range>>)
    requires IndexInRange(document)
    ensures Resolve(document, value).Err? ==> result == Err(Resolve(document, value).error)
    ensures Resolve(document, value).Ok? ==>
              && result.Ok?
              && var graphemes, wanted := Resolve(document, value).value.graphemes, seg(needle);
                 match result.value
                 case Some(found) =>
                   && wanted != []
                   && found == value.(start := found.start, end := found.start + |wanted|)
                   && value.start <= found.start && found.end <= value.end
                   && MatchesAt(graphemes, wanted, found.start, fold, ignoreCase)
                   && (forall at :: value.start <= at && at + |wanted| <= value.end
                          && (if backward then at > found.start else at < found.start)
                          ==> !MatchesAt(graphemes, wanted, at, fold, ignoreCase))
                 case None =>
                   wanted == [] || forall at :: value.start <= at && at + |wanted| <= value.end
                                     ==> !MatchesAt(graphemes, wanted, at, fold, ignoreCase)
    ensures result.Ok? && result.value.Some? ==> Resolve(document, result.value.value).Ok?
    ensures result == Find(seg, fold, document, value, needle, backward, ignoreCase)
  {
    hide MatchesAt, NewRange, FirstMatch, LastMatch;
    var resolved := Resolve(document, value);
    if resolved.Err? {
      return Err(resolved.error);
    }
    var graphemes, wanted := resolved.value.graphemes, seg(needle);
    if |wanted| == 0 || |wanted| > value.end - value.start {
      if |wanted| > 0 {
        NothingToFind(graphemes, wanted, value.start, value.end - |wanted|, fold, ignoreCase);
      }
      return Ok(None);
    }
    var found: Option<int>;
    if backward {
      found := SearchBackward(graphemes, wanted, value.end - |wanted|, value.start, fold, ignoreCase);
    } else {
      found := SearchForward(graphemes, wanted, value.start, value.end - |wanted|, fold, ignoreCase);
    }
    if found.None? {
      return Ok(None);
    }
    var range := NewRange(document, value.node, found.value, found.value + |wanted|);
    FoundIsInside(document, value, found.value, |wanted|);
    return Ok(Some(range.value));
  }

  lemma NothingToFind(graphemes: seq<Text>, wanted: seq<Text>, first: int, last: int, fold: (Text, Text) -> bool,
                      ignoreCase: bool)
    requires last < first
    ensures FirstMatch(graphemes, wanted, first, last, fold, ignoreCase) == None
    ensures LastMatch(graphemes, wanted, last, first, fold, ignoreCase) == None
  {
  }

  method ExpandRange(document: Document, value: Range, unit: TextUnit) returns (result: Result<Range>)
    requires IndexInRange(document)
    ensures result == Expand(document, value, unit)
  {
    hide Resolve, Segments, SegmentIndex;
    var resolved := Resolve(document, value);
    if resolved.Err? {
      return Err(resolved.error);
    }
    var node := resolved.value;
    var segments := TextUnitSegments(node, unit);
    if segments.Err? {
      return Err(segments.error);
    }
    var index := FindSegment(segments.value, value.start, |node.graphemes|);
    return Ok(At(value, segments.value[index]));
  }

  method MoveRange(document: Document, value: Range, unit: TextUnit, count: int) returns (result: Result<(Range, int)>)
    requires IndexInRange(document)
    ensures result == Move(document, value, unit, count)
  {
    hide Resolve, Segments, SegmentIndex;
    var resolved := Resolve(document, value);
    if resolved.Err? {
      return Err(resolved.error);
    }
    var node := resolved.value;
    var segments := TextUnitSegments(node, unit);
    if segments.Err? {
      return Err(segments.error);
    }
    if count == 0 {
      return Ok((value, 0));
    }
    var index := FindSegment(segments.value, value.start, |node.graphemes|);
    var target := Clamp(index + count, 0, |segments.value| - 1);
    return Ok((At(value, segments.value[target]), target - index));
  }

  lemma EndpointInText(document: Document, value: Range, start: bool, unit: TextUnit)
    requires IndexInRange(document) && Resolve(document, value).Ok? && unit != UnitUnknown
    ensures var boundaries := Boundaries(Resolve(document, value).value, unit);
            boundaries != [] && Endpoint(value, start) <= boundaries[|boundaries| - 1]
  {
  }

  method MoveRangeEndpoint(document: Document, value: Range, start: bool, unit: TextUnit, count: int)
    returns (result: Result<(Range, int)>)
    requires IndexInRange(document)
    ensures result == MoveEndpoint(document, value, start, unit, count)
  {
    if Resolve(document, value).Ok? && unit != UnitUnknown {
      EndpointInText(document, value, start, unit);
    }
    hide Resolve, Boundaries, MoveBoundary;
    var resolved := Resolve(document, value);
    if resolved.Err? {
      return Err(resolved.error);
    }
    var boundaries := TextUnitBoundaries(resolved.value, unit);
    if boundaries.Err? {
      return Err(boundaries.error);
    }
    if count == 0 {
      return Ok((value, 0));
    }
    var position, moved := MoveAcross(boundaries.value, Endpoint(value, start), count);
    var changed := value;
    if start {
      changed := changed.(start := position);
      if changed.start > changed.end {
        changed := changed.(end := changed.start);
      }
    } else {
      changed := changed.(end := position);
      if changed.end < changed.start {
        changed := changed.(start := changed.end);
      }
    }
    return Ok((changed, moved));
  }
}
