/** What the range operations promise on well-formed documents. */
module RangeProperties {
  import opened Types
  import opened DocumentSpec
  import opened DocumentProperties
  import opened RangeSpec

  /** Consecutive stretches from 0 to the length, without gap or overlap. */
  ghost predicate TileSpans(segments: seq<Span>, length: int) {
    && segments != []
    && segments[0].start == 0 && segments[|segments| - 1].end == length
    && (forall i :: 0 <= i < |segments| ==> segments[i].start <= segments[i].end)
    && (forall i :: 0 <= i < |segments| - 1 ==> segments[i].end == segments[i + 1].start)
  }

  /** The line of a row ends where the line of the next one starts, and the last one at the end. */
  lemma LineEndMeets(rows: seq<DocumentRow>, graphemes: seq<Text>, i: nat)
    requires Tiles(rows, graphemes) && i < |rows|
    ensures rows[i].start <= LineEnd(rows, i)
    ensures LineEnd(rows, i) == if i == |rows| - 1 then |graphemes| else rows[i + 1].start
    ensures rows[0].start == 0
  {
    hide HasLineBreak, Concat;
    assert RowMatches(rows[i], graphemes);
    if i < |rows| - 1 {
      assert Follows(rows[i], rows[i + 1], graphemes);
    }
  }

  lemma LinesTile(rows: seq<DocumentRow>, graphemes: seq<Text>)
    requires Tiles(rows, graphemes) && rows != []
    ensures TileSpans(Lines(rows), |graphemes|)
  {
    hide Tiles, LineEnd;
    var lines := Lines(rows);
    LineEndMeets(rows, graphemes, 0);
    LineEndMeets(rows, graphemes, |rows| - 1);
    forall i | 0 <= i < |lines|
      ensures lines[i].start <= lines[i].end
      ensures i < |lines| - 1 ==> lines[i].end == lines[i + 1].start
    {
      LineEndMeets(rows, graphemes, i);
    }
  }

  /** Every unit cuts the text of a node into such stretches. */
  lemma SegmentsTile(node: DocumentNode, unit: TextUnit)
    requires NodeWellFormed(node) && unit != UnitUnknown
    ensures TileSpans(Segments(node, unit), |node.graphemes|)
  {
    NodeTiles(node);
    hide NodeWellFormed, Tiles, LineEnd;
    if unit in {UnitFormat, UnitWord, UnitLine} && node.rows != [] {
      LinesTile(node.rows, node.graphemes);
    }
  }

  lemma NodeTiles(node: DocumentNode)
    requires NodeWellFormed(node)
    ensures Tiles(node.rows, node.graphemes)
  {
  }

  lemma {:induction false} SpansOrdered(segments: seq<Span>, length: int, i: nat, j: nat)
    requires TileSpans(segments, length) && i < j < |segments|
    ensures segments[i].end <= segments[j].start
    decreases j
  {
    if i < j - 1 {
      SpansOrdered(segments, length, i, j - 1);
    }
  }

  lemma {:induction false} SomeSpanHolds(segments: seq<Span>, length: int, position: int, from: nat)
    requires TileSpans(segments, length) && from < |segments|
    requires segments[from].start <= position < length
    ensures Holds(segments[FirstHolding(segments, position, from)], position)
    decreases |segments| - from
  {
    if !Holds(segments[from], position) {
      SomeSpanHolds(segments, length, position, from + 1);
    }
  }

  /** The search finds the one segment that holds an interior position; it never falls through. */
  lemma SegmentIndexFinds(segments: seq<Span>, length: int, position: int)
    requires TileSpans(segments, length) && 0 <= position < length
    ensures Holds(segments[SegmentIndex(segments, position, length)], position)
    ensures forall j :: 0 <= j < |segments| && Holds(segments[j], position) ==>
        j == SegmentIndex(segments, position, length)
  {
    SomeSpanHolds(segments, length, position, 0);
    var index := SegmentIndex(segments, position, length);
    forall j | 0 <= j < |segments| && Holds(segments[j], position)
      ensures j == index
    {
      if j < index {
        SpansOrdered(segments, length, j, index);
      }
      if index < j {
        SpansOrdered(segments, length, index, j);
      }
    }
  }

  /** The segment at an index is found again from its start exactly when it is not empty or is the last. */
  lemma IndexOfStart(segments: seq<Span>, length: int, target: nat)
    requires TileSpans(segments, length) && target < |segments|
    ensures var index := SegmentIndex(segments, segments[target].start, length);
            && target <= index
            && (index == target <==> segments[target].start < segments[target].end || target == |segments| - 1)
  {
    var start := segments[target].start;
    var last := |segments| - 1;
    if target < last {
      SpansOrdered(segments, length, target, last);
    }
    if 0 < target {
      SpansOrdered(segments, length, 0, target);
    }
    if start < length {
      SegmentIndexFinds(segments, length, start);
      var index := SegmentIndex(segments, start, length);
      if index < target {
        SpansOrdered(segments, length, index, target);
      }
    }
  }

  /** What ranges rely on: an index that leads to nodes, and nodes whose rows tile their text. */
  ghost predicate Readable(document: Document) {
    && document.providerID != 0
    && IndexInRange(document)
    && forall i :: 0 <= i < |document.nodes| ==> NodeWellFormed(document.nodes[i])
  }

  /** Every document that was built can be read. */
  lemma WellFormedIsReadable(document: Document)
    requires WellFormed(document)
    ensures Readable(document)
  {
  }

  lemma ResolvedWellFormed(document: Document, value: Range)
    requires Readable(document)
    ensures IndexInRange(document)
    ensures Resolve(document, value).Ok? ==> NodeWellFormed(Resolve(document, value).value)
  {
  }

  lemma ExpandIsIdempotent(document: Document, value: Range, unit: TextUnit)
    requires Readable(document)
    ensures Expand(document, value, unit).Ok? ==>
              Expand(document, Expand(document, value, unit).value, unit) == Expand(document, value, unit)
  {
    ResolvedWellFormed(document, value);
    hide Readable, Segments, FirstHolding, Tiles;
    if Expand(document, value, unit).Ok? {
      var node := Resolve(document, value).value;
      var segments, length := Segments(node, unit), |node.graphemes|;
      SegmentsTile(node, unit);
      var index := SegmentIndex(segments, value.start, length);
      SegmentInside(segments, length, index);
      IndexOfStart(segments, length, index);
      if value.start < length {
        SegmentIndexFinds(segments, length, value.start);
      }
    }
  }

  lemma ResolvedAt(document: Document, value: Range, segment: Span)
    requires IndexInRange(document) && Resolve(document, value).Ok?
    requires segment.Valid(|Resolve(document, value).value.graphemes|)
    ensures Resolve(document, At(value, segment)) == Resolve(document, value)
  {
  }

  lemma ClampInside(value: int, size: nat)
    requires size > 0
    ensures 0 <= Clamp(value, 0, size - 1) < size
  {
  }

  lemma MoveUnfolds(document: Document, value: Range, unit: TextUnit, count: int)
    requires IndexInRange(document) && Resolve(document, value).Ok? && unit != UnitUnknown
    ensures var node := Resolve(document, value).value;
            var segments := Segments(node, unit);
            var index := SegmentIndex(segments, value.start, |node.graphemes|);
            var target := Clamp(index + count, 0, |segments| - 1);
            Move(document, value, unit, count)
            == Ok(if count == 0 then (value, 0) else (At(value, segments[target]), target - index))
  {
    hide Resolve, Segments, SegmentIndex;
  }

  lemma SegmentInside(segments: seq<Span>, length: int, i: nat)
    requires TileSpans(segments, length) && i < |segments|
    ensures segments[i].Valid(length)
  {
    if 0 < i {
      SpansOrdered(segments, length, 0, i);
    }
    if i < |segments| - 1 {
      SpansOrdered(segments, length, i, |segments| - 1);
    }
  }

  /** Moving keeps the range on its node, at a segment. */
  lemma MoveStays(document: Document, value: Range, unit: TextUnit, count: int)
    requires Readable(document)
    requires Resolve(document, value).Ok? && unit != UnitUnknown
    ensures var (there, moved) := Move(document, value, unit, count).value;
            && Resolve(document, there) == Resolve(document, value)
            && (count != 0 ==>
                  var node := Resolve(document, value).value;
                  var segments, index := Segments(node, unit),
                      SegmentIndex(Segments(node, unit), value.start, |node.graphemes|);
                  && 0 <= index + moved < |segments|
                  && index + moved == Clamp(index + count, 0, |segments| - 1)
                  && there == At(value, segments[index + moved]))
  {
    hide *;
    ResolvedWellFormed(document, value);
    var node := Resolve(document, value).value;
    SegmentsTile(node, unit);
    var segments, index := Segments(node, unit), SegmentIndex(Segments(node, unit), value.start, |node.graphemes|);
    ClampInside(index + count, |segments|);
    var target := Clamp(index + count, 0, |segments| - 1);
    SegmentInside(segments, |node.graphemes|, target);
    ResolvedAt(document, value, segments[target]);
    MoveUnfolds(document, value, unit, count);
  }

  /** Moving by a count and back by what was moved comes to the segment the range started in, exactly when the
      segment it landed in can be found again from its start, or the range started in the last one. */
  lemma MoveAndBack(document: Document, value: Range, unit: TextUnit, count: int, node: DocumentNode,
                    there: Range, moved: int, back: Range)
    requires Readable(document)
    requires Resolve(document, value) == Ok(node) && unit != UnitUnknown && count != 0
    requires Move(document, value, unit, count) == Ok((there, moved))
    requires Move(document, there, unit, -moved).Ok? && Move(document, there, unit, -moved).value.0 == back
    ensures var segments, index := Segments(node, unit),
        SegmentIndex(Segments(node, unit), value.start, |node.graphemes|);
            back == At(value, segments[index]) <==>
              there.start < there.end || index + moved == |segments| - 1 || index == |segments| - 1
  {
    hide *;
    ResolvedWellFormed(document, value);
    SegmentsTile(node, unit);
    ResolvedInside(document, value);
    MoveStays(document, value, unit, count);
    MoveStays(document, there, unit, -moved);
    if moved == 0 {
      MoveByNone(document, there, unit);
    }
    BackIsHome(Segments(node, unit), |node.graphemes|, value, count, there, moved, back);
  }

  lemma ResolvedInside(document: Document, value: Range)
    requires IndexInRange(document) && Resolve(document, value).Ok?
    ensures 0 <= value.start <= value.end <= |Resolve(document, value).value.graphemes|
  {
  }

  lemma BackIsHome(segments: seq<Span>, length: int, value: Range, count: int, there: Range, moved: int, back: Range)
    requires TileSpans(segments, length) && 0 <= value.start && count != 0
    requires var index := SegmentIndex(segments, value.start, length);
             && index + moved == Clamp(index + count, 0, |segments| - 1)
             && there == At(value, segments[index + moved])
    requires var again := SegmentIndex(segments, there.start, length);
             if moved == 0 then back == there else back == At(there, segments[Clamp(again - moved, 0, |segments| - 1)])
    ensures var index := SegmentIndex(segments, value.start, length);
            back == At(value, segments[index]) <==>
              there.start < there.end || index + moved == |segments| - 1 || index == |segments| - 1
  {
    IndexBack(segments, length, value.start, count);
  }

  lemma MoveByNone(document: Document, value: Range, unit: TextUnit)
    requires IndexInRange(document) && Move(document, value, unit, 0).Ok?
    ensures Move(document, value, unit, 0).value.0 == value
  {
  }

  /** The same for the indices of the segments. */
  lemma IndexBack(segments: seq<Span>, length: int, position: int, count: int)
    requires TileSpans(segments, length) && 0 <= position && count != 0
    ensures var index := SegmentIndex(segments, position, length);
            var target := Clamp(index + count, 0, |segments| - 1);
            var moved := target - index;
            var back := if moved == 0 then target
                        else Clamp(SegmentIndex(segments, segments[target].start, length) - moved, 0, |segments| - 1);
            segments[back] == segments[index] <==>
              segments[target].start < segments[target].end || target == |segments| - 1 || index == |segments| - 1
  {
    var index := SegmentIndex(segments, position, length);
    var target := Clamp(index + count, 0, |segments| - 1);
    IndexKept(segments, length, position);
    IndexOfStart(segments, length, target);
    var back := Clamp(SegmentIndex(segments, segments[target].start, length) - (target - index), 0, |segments| - 1);
    DistinctSegments(segments, length, index, back);
  }

  /** The segment found for a position is not empty, or is the last. */
  lemma IndexKept(segments: seq<Span>, length: int, position: int)
    requires TileSpans(segments, length) && 0 <= position
    ensures var index := SegmentIndex(segments, position, length);
            segments[index].start < segments[index].end || index == |segments| - 1
  {
    if position < length {
      SegmentIndexFinds(segments, length, position);
    }
  }

  /** A segment that is not empty differs from every other one. */
  lemma DistinctSegments(segments: seq<Span>, length: int, i: nat, j: nat)
    requires TileSpans(segments, length) && i < |segments| && j < |segments|
    ensures i != j && segments[i].start < segments[i].end ==> segments[i] != segments[j]
  {
    if i < j {
      SpansOrdered(segments, length, i, j);
    }
    if j < i {
      SpansOrdered(segments, length, j, i);
    }
  }

  ghost predicate Increasing(values: seq<int>) {
    forall i, j :: 0 <= i < j < |values| ==> values[i] < values[j]
  }

  lemma {:induction false} StartsIncrease(segments: seq<Span>, length: int, n: nat)
    requires TileSpans(segments, length) && n <= |segments|
    ensures Increasing(Starts(segments, n))
    ensures n > 0 ==>
        Starts(segments, n)[0] == 0 && Starts(segments, n)[|Starts(segments, n)| - 1] == segments[n - 1].start
    ensures forall p :: p in Starts(segments, n) <==> exists i :: 0 <= i < n && segments[i].start == p
    ensures n == 0 ==> Starts(segments, n) == []
  {
    if n > 0 {
      StartsIncrease(segments, length, n - 1);
      if n > 1 {
        assert segments[n - 2].start <= segments[n - 2].end == segments[n - 1].start;
      }
      var before, after := Starts(segments, n - 1), Starts(segments, n);
      forall p
        ensures p in after <==> exists i :: 0 <= i < n && segments[i].start == p
      {
        assert p in after <==> p in before || p == segments[n - 1].start;
      }
    }
  }

  /** The boundaries of a unit are the starts of its segments and the end of the text, in increasing order. */
  lemma BoundariesMeaning(node: DocumentNode, unit: TextUnit)
    requires NodeWellFormed(node) && unit != UnitUnknown
    ensures var boundaries, segments, length := Boundaries(node, unit), Segments(node, unit), |node.graphemes|;
            && boundaries != [] && Increasing(boundaries)
            && boundaries[0] == 0 && boundaries[|boundaries| - 1] == length
            && forall p :: p in boundaries <==> p == length || exists i :: 0 <= i < |segments| && segments[i].start == p
  {
    SegmentsTile(node, unit);
    var segments, length := Segments(node, unit), |node.graphemes|;
    StartsAndEnd(segments, length);
    hide NodeWellFormed, Segments, TileSpans, Starts, AppendNew, Increasing;
  }

  /** The starts of stretches that tile the text, and its end. */
  lemma StartsAndEnd(segments: seq<Span>, length: int)
    requires TileSpans(segments, length)
    ensures var boundaries := AppendNew(Starts(segments, |segments|), length);
            && Increasing(boundaries) && boundaries[0] == 0
            && forall p :: p in boundaries <==> p == length || exists i :: 0 <= i < |segments| && segments[i].start == p
  {
    StartsIncrease(segments, length, |segments|);
    LastIsLow(segments, length);
    hide TileSpans, Starts;
    var starts := Starts(segments, |segments|);
    AppendedValues(starts, length);
  }

  lemma LastIsLow(segments: seq<Span>, length: int)
    requires TileSpans(segments, length)
    ensures segments != [] && segments[|segments| - 1].start <= length
  {
  }

  lemma AppendedValues(values: seq<int>, value: int)
    requires values != [] && Increasing(values) && values[|values| - 1] <= value
    ensures Increasing(AppendNew(values, value)) && AppendNew(values, value)[0] == values[0]
    ensures forall p :: p in AppendNew(values, value) <==> p in values || p == value
  {
  }

  lemma {:induction false} UpToMeaning(boundaries: seq<int>, position: int)
    requires Increasing(boundaries)
    ensures forall i :: 0 <= i < |boundaries| ==> (i < UpTo(boundaries, position) <==> boundaries[i] <= position)
  {
    if boundaries != [] && boundaries[0] <= position {
      assert forall i :: 1 <= i < |boundaries| ==> boundaries[i] == boundaries[1..][i - 1];
      UpToMeaning(boundaries[1..], position);
    }
  }

  lemma {:induction false} BeforeMeaning(boundaries: seq<int>, position: int)
    requires Increasing(boundaries)
    ensures forall i :: 0 <= i < |boundaries| ==> (i < Before(boundaries, position) <==> boundaries[i] < position)
  {
    if boundaries != [] && boundaries[0] < position {
      assert forall i :: 1 <= i < |boundaries| ==> boundaries[i] == boundaries[1..][i - 1];
      BeforeMeaning(boundaries[1..], position);
    }
  }

  ghost predicate Covering(boundaries: seq<int>, length: int) {
    boundaries != [] && Increasing(boundaries) && boundaries[0] == 0 && boundaries[|boundaries| - 1] == length
  }

  /** How many boundaries lie beyond `from` and not beyond `to`. */
  function Crossed(boundaries: seq<int>, from: int, to: int): nat {
    if boundaries == [] then 0
    else
      Crossed(boundaries[..|boundaries| - 1], from, to) + if from < boundaries[|boundaries| - 1] <= to then 1 else 0
  }

  lemma {:induction false} CrossedMeaning(boundaries: seq<int>, from: int, to: int)
    requires Increasing(boundaries) && from <= to
    ensures Crossed(boundaries, from, to) == UpTo(boundaries, to) - UpTo(boundaries, from)
  {
    if boundaries != [] {
      var before := boundaries[..|boundaries| - 1];
      CrossedMeaning(before, from, to);
      UpToOfPrefix(boundaries, from);
      UpToOfPrefix(boundaries, to);
    }
  }

  lemma UpToOfPrefix(boundaries: seq<int>, position: int)
    requires Increasing(boundaries) && boundaries != []
    ensures UpTo(boundaries, position) == UpTo(boundaries[..|boundaries| - 1], position)
                                        + if boundaries[|boundaries| - 1] <= position then 1 else 0
  {
    var before, last := boundaries[..|boundaries| - 1], |boundaries| - 1;
    UpToMeaning(boundaries, position);
    UpToMeaning(before, position);
    var n := UpTo(boundaries, position);
    assert forall i :: 0 <= i < last ==> before[i] == boundaries[i];
    if n < |boundaries| {
      assert n > 0 ==> boundaries[n - 1] <= position;
      assert boundaries[n] > position;
      assert boundaries[last] > position;
      assert UpTo(before, position) < last ==> before[UpTo(before, position)] > position;
    } else {
      assert boundaries[last] <= position;
    }
  }

  /** Counting up to a position differs from counting before it by the boundary at the position. */
  lemma UpToAndBefore(boundaries: seq<int>, position: int)
    requires Increasing(boundaries)
    ensures UpTo(boundaries, position) == Before(boundaries, position) + if position in boundaries then 1 else 0
  {
    UpToMeaning(boundaries, position);
    BeforeMeaning(boundaries, position);
    var n, m := UpTo(boundaries, position), Before(boundaries, position);
    if m < n {
      assert boundaries[m] == position && boundaries[n - 1] == position;
    }
  }

  /** A move lands inside the text, on the boundary whose number beyond the position is what it reports moved, and
      moves less than asked only at an end of the text. */
  lemma MoveBoundaryLands(boundaries: seq<int>, length: int, position: int, count: int)
    requires Covering(boundaries, length) && 0 <= position <= length && count != 0
    ensures var (result, moved) := MoveBoundary(boundaries, position, count);
            && 0 <= result <= length
            && (moved != 0 ==> result in boundaries)
            && (moved == 0 ==> result == position)
            && (count > 0 ==> 0 <= moved <= count && Crossed(boundaries, position, result) == moved
                              && (moved < count ==> result == length))
            && (count < 0 ==> count <= moved <= 0 && Crossed(boundaries, result - 1, position - 1) == -moved
                              && (count < moved ==> result == 0))
  {
    var (result, moved) := MoveBoundary(boundaries, position, count);
    UpToMeaning(boundaries, position);
    BeforeMeaning(boundaries, position);
    if count > 0 {
      CrossedMeaning(boundaries, position, result);
      UpToAt(boundaries, UpTo(boundaries, position) + moved - 1);
    } else {
      var target := Before(boundaries, position) + moved;
      CrossedMeaning(boundaries, result - 1, position - 1);
      UpToIsBefore(boundaries, position);
      UpToIsBefore(boundaries, result);
      BeforeAt(boundaries, target);
    }
  }

  lemma UpToAt(boundaries: seq<int>, i: int)
    requires Increasing(boundaries) && 0 <= i < |boundaries|
    ensures UpTo(boundaries, boundaries[i]) == i + 1
  {
    UpToMeaning(boundaries, boundaries[i]);
    var n := UpTo(boundaries, boundaries[i]);
    assert i < n;
    assert i + 1 < |boundaries| ==> boundaries[i] < boundaries[i + 1];
  }

  lemma BeforeAt(boundaries: seq<int>, i: int)
    requires Increasing(boundaries) && 0 <= i < |boundaries|
    ensures Before(boundaries, boundaries[i]) == i
  {
    UpToAt(boundaries, i);
    UpToAndBefore(boundaries, boundaries[i]);
  }

  lemma {:induction false} UpToIsBefore(boundaries: seq<int>, position: int)
    ensures UpTo(boundaries, position - 1) == Before(boundaries, position)
  {
    if boundaries != [] && boundaries[0] < position {
      UpToIsBefore(boundaries[1..], position);
    }
  }

  /** Moves in one direction add up. */
  lemma MovesAdd(boundaries: seq<int>, length: int, position: int, a: int, b: int)
    requires Covering(boundaries, length) && 0 <= position <= length
    requires (a > 0 && b > 0) || (a < 0 && b < 0)
    ensures var (middle, first) := MoveBoundary(boundaries, position, a);
            && 0 <= middle <= length
            && var (result, second) := MoveBoundary(boundaries, middle, b);
               MoveBoundary(boundaries, position, a + b) == (result, first + second)
  {
    hide UpTo, Before, Crossed;
    var (middle, first) := MoveBoundary(boundaries, position, a);
    MoveBoundaryLands(boundaries, length, position, a);
    if a > 0 {
      if first > 0 {
        UpToAt(boundaries, UpTo(boundaries, position) + first - 1);
      }
    } else {
      BeforeAt(boundaries, Before(boundaries, position) + first);
    }
  }

  /** Moving back by what was moved returns to the position exactly when the position is a boundary, unless nothing
      was moved. */
  lemma MoveBoundaryBack(boundaries: seq<int>, length: int, position: int, count: int)
    requires Covering(boundaries, length) && 0 <= position <= length && count != 0
    ensures var (there, moved) := MoveBoundary(boundaries, position, count);
            && 0 <= there <= length
            && (moved != 0 ==>
                  && (MoveBoundary(boundaries, there, -moved) == (position, -moved) <==> position in boundaries)
                  && (position !in boundaries ==> MoveBoundary(boundaries, there, -moved).0 != position))
  {
    hide UpTo, Before, Crossed;
    var (there, moved) := MoveBoundary(boundaries, position, count);
    MoveBoundaryLands(boundaries, length, position, count);
    if moved != 0 {
      MoveBoundaryLands(boundaries, length, there, -moved);
      UpToAndBefore(boundaries, position);
      UpToMeaning(boundaries, position);
      BeforeMeaning(boundaries, position);
      if count > 0 {
        BeforeAt(boundaries, UpTo(boundaries, position) + moved - 1);
      } else {
        UpToAt(boundaries, Before(boundaries, position) + moved);
      }
    }
  }
}
