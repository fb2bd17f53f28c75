/** What the units of text are, told by where ranges come to: a character is one grapheme, a format run, a word and a
    line are the stretch of one row, and a paragraph, a page and a document are the whole text of the node. */
module UnitMeaning {
  import opened Types
  import opened DocumentSpec
  import opened DocumentProperties
  import opened RangeSpec
  import opened RangeProperties

  predicate IsRowUnit(unit: TextUnit) {
    unit == UnitFormat || unit == UnitWord || unit == UnitLine
  }

  predicate IsWholeUnit(unit: TextUnit) {
    unit == UnitParagraph || unit == UnitPage || unit == UnitDocument
  }

  /** Where the stretch of a row ends: where the next row starts, or at the end of the text. */
  function StretchEnd(node: DocumentNode, i: nat): int
    requires i < |node.rows|
  {
    if i + 1 < |node.rows| then node.rows[i + 1].start else |node.graphemes|
  }

  /** The row the position belongs to; the end of the text belongs to the last one. */
  predicate BelongsTo(node: DocumentNode, position: int, i: nat)
    requires i < |node.rows|
  {
    if position < |node.graphemes| then node.rows[i].start <= position < StretchEnd(node, i) else i == |node.rows| - 1
  }

  /** The grapheme the position is before; the end of the text is at the last one. */
  function GraphemeAt(node: DocumentNode, position: int): int {
    if position < |node.graphemes| then position else |node.graphemes| - 1
  }

  /** The place of the range in the text. */
  function Ends(value: Range): (int, int) {
    (value.start, value.end)
  }

  lemma CharacterSegments(node: DocumentNode)
    ensures var segments, length := Segments(node, UnitCharacter), |node.graphemes|;
            if length == 0 then segments == [Span(0, 0)]
            else |segments| == length && forall i :: 0 <= i < length ==> segments[i] == Span(i, i + 1)
  {
  }

  lemma {:induction false} CharacterAt(segments: seq<Span>, position: int, from: nat)
    requires forall i :: 0 <= i < |segments| ==> segments[i] == Span(i, i + 1)
    requires from <= position < |segments|
    ensures FirstHolding(segments, position, from) == position
    decreases position - from
  {
    if from < position {
      CharacterAt(segments, position, from + 1);
    }
  }

  lemma CharacterIndex(node: DocumentNode, position: int)
    requires 0 <= position <= |node.graphemes| && node.graphemes != []
    ensures SegmentIndex(Segments(node, UnitCharacter), position, |node.graphemes|) == GraphemeAt(node, position)
  {
    CharacterSegments(node);
    hide Segments;
    if position < |node.graphemes| {
      CharacterAt(Segments(node, UnitCharacter), position, 0);
    }
  }

  lemma ExpandUnfolds(document: Document, value: Range, unit: TextUnit, node: DocumentNode)
    requires IndexInRange(document) && Resolve(document, value) == Ok(node) && unit != UnitUnknown
    ensures Expand(document, value, unit)
         == Ok(At(value, Segments(node, unit)[SegmentIndex(Segments(node, unit), value.start, |node.graphemes|)]))
  {
    hide Resolve, Segments, SegmentIndex;
  }

  /** Expanding to a character takes the one grapheme the range starts before; at the end of the text the last one, and
      in an empty text nothing. */
  lemma ExpandToCharacter(document: Document, value: Range, node: DocumentNode)
    requires IndexInRange(document) && Resolve(document, value) == Ok(node)
    ensures Expand(document, value, UnitCharacter).Ok?
    ensures Ends(Expand(document, value, UnitCharacter).value)
         == if node.graphemes == [] then (0, 0)
            else (GraphemeAt(node, value.start), GraphemeAt(node, value.start) + 1)
  {
    ExpandUnfolds(document, value, UnitCharacter, node);
    ResolvedInside(document, value);
    CharacterSegments(node);
    if node.graphemes != [] {
      CharacterIndex(node, value.start);
    }
    hide Segments, Resolve, Expand;
  }

  /** The stretches of the rows. */
  lemma RowSegments(node: DocumentNode, unit: TextUnit)
    requires NodeWellFormed(node) && IsRowUnit(unit)
    ensures var segments := Segments(node, unit);
            if node.rows == [] then segments == [Span(0, |node.graphemes|)] && node.graphemes == []
            else
              && |segments| == |node.rows|
              && forall i :: 0 <= i < |segments| ==> segments[i] == Span(node.rows[i].start, StretchEnd(node, i))
  {
    NodeTiles(node);
    hide Tiles, LineEnd;
    if node.rows == [] {
      NoRowsNoText(node);
    } else {
      forall i | 0 <= i < |node.rows|
        ensures Segments(node, unit)[i] == Span(node.rows[i].start, StretchEnd(node, i))
      {
        LineEndMeets(node.rows, node.graphemes, i);
      }
    }
  }

  lemma NoRowsNoText(node: DocumentNode)
    requires Tiles(node.rows, node.graphemes) && node.rows == []
    ensures node.graphemes == []
  {
  }

  /** Every position belongs to exactly one row, and the search finds it. */
  lemma RowIndex(node: DocumentNode, unit: TextUnit, position: int)
    requires NodeWellFormed(node) && IsRowUnit(unit) && node.rows != [] && 0 <= position <= |node.graphemes|
    ensures var index := SegmentIndex(Segments(node, unit), position, |node.graphemes|);
            && 0 <= index < |node.rows| && BelongsTo(node, position, index)
            && forall i :: 0 <= i < |node.rows| && BelongsTo(node, position, i) ==> i == index
  {
    RowSegments(node, unit);
    SegmentsTile(node, unit);
    hide NodeWellFormed, Segments, TileSpans, FirstHolding;
    var segments := Segments(node, unit);
    if position < |node.graphemes| {
      SegmentIndexFinds(segments, |node.graphemes|, position);
      forall i | 0 <= i < |node.rows| && BelongsTo(node, position, i)
        ensures i == SegmentIndex(segments, position, |node.graphemes|)
      {
        assert Holds(segments[i], position);
      }
    }
  }

  /** Expanding to a format run, a word or a line takes the stretch of the row the start belongs to. */
  lemma ExpandToRow(document: Document, value: Range, unit: TextUnit, node: DocumentNode) returns (i: int)
    requires Readable(document) && Resolve(document, value) == Ok(node) && IsRowUnit(unit)
    ensures Expand(document, value, unit).Ok?
    ensures if node.rows == [] then Ends(Expand(document, value, unit).value) == (0, 0)
            else
              && 0 <= i < |node.rows| && BelongsTo(node, value.start, i)
              && Ends(Expand(document, value, unit).value) == (node.rows[i].start, StretchEnd(node, i))
  {
    ResolvedWellFormed(document, value);
    ResolvedInside(document, value);
    hide Readable, NodeWellFormed, Segments, Resolve, SegmentIndex;
    ExpandUnfolds(document, value, unit, node);
    RowSegments(node, unit);
    i := SegmentIndex(Segments(node, unit), value.start, |node.graphemes|);
    if node.rows != [] {
      RowIndex(node, unit, value.start);
    }
  }

  /** Expanding to a paragraph, a page or a document takes the whole text of the node. */
  lemma ExpandToAll(document: Document, value: Range, unit: TextUnit, node: DocumentNode)
    requires IndexInRange(document) && Resolve(document, value) == Ok(node) && IsWholeUnit(unit)
    ensures Expand(document, value, unit).Ok?
    ensures Ends(Expand(document, value, unit).value) == (0, |node.graphemes|)
  {
    hide Resolve;
  }

  /** The place nearest to `to` among those from 0 up to `n`. */
  function Within(to: int, n: int): int {
    if to < 0 then 0 else if to >= n then n - 1 else to
  }

  /** Moving by characters takes one grapheme as many further on as asked, or the first or last of the text, and reports
      how many it came. */
  lemma MoveByCharacters(document: Document, value: Range, count: int, node: DocumentNode)
    requires IndexInRange(document) && Resolve(document, value) == Ok(node) && count != 0
    ensures Move(document, value, UnitCharacter, count).Ok?
    ensures var (there, moved) := Move(document, value, UnitCharacter, count).value;
            if node.graphemes == [] then Ends(there) == (0, 0) && moved == 0
            else
              && there.start == Within(GraphemeAt(node, value.start) + count, |node.graphemes|)
              && there.end == there.start + 1
              && moved == there.start - GraphemeAt(node, value.start)
  {
    MoveUnfolds(document, value, UnitCharacter, count);
    ResolvedInside(document, value);
    CharacterSegments(node);
    if node.graphemes != [] {
      CharacterIndex(node, value.start);
    }
    hide Segments, Resolve, Move;
  }

  /** The range takes the stretch of the row. */
  predicate TakesRow(node: DocumentNode, value: Range, i: int) {
    0 <= i < |node.rows| && value.start == node.rows[i].start && value.end == StretchEnd(node, i)
  }

  /** Moving takes the segment as many further on as asked, or the first or last one. */
  lemma MoveToSegment(document: Document, value: Range, unit: TextUnit, count: int, node: DocumentNode)
    requires IndexInRange(document) && Resolve(document, value) == Ok(node) && unit != UnitUnknown && count != 0
    ensures Move(document, value, unit, count).Ok? && Segments(node, unit) != []
    ensures var (there, moved) := Move(document, value, unit, count).value;
            var segments := Segments(node, unit);
            var index := SegmentIndex(segments, value.start, |node.graphemes|);
            var target := Within(index + count, |segments|);
            index + moved == target && 0 <= target < |segments| && Ends(there) == (segments[target].start,
                                                                                  segments[target].end)
  {
    hide *;
    var segments := Segments(node, unit);
    var index := SegmentIndex(segments, value.start, |node.graphemes|);
    MoveUnfolds(document, value, unit, count);
    ClampIsWithin(index + count, |segments|);
    AtSegment(value, segments[Within(index + count, |segments|)]);
  }

  /** Moving by rows takes the stretch of the row as many further on as asked, or of the first or last row. */
  lemma MoveByRows(document: Document, value: Range, unit: TextUnit, count: int, node: DocumentNode) returns (i: int)
    requires Readable(document) && Resolve(document, value) == Ok(node) && IsRowUnit(unit) && count != 0
    ensures IndexInRange(document) && Move(document, value, unit, count).Ok?
    ensures var (there, moved) := Move(document, value, unit, count).value;
            if node.rows == [] then Ends(there) == (0, 0) && moved == 0
            else
              && 0 <= i < |node.rows| && BelongsTo(node, value.start, i)
              && i + moved == Within(i + count, |node.rows|) && TakesRow(node, there, i + moved)
  {
    hide *;
    ReadableIsIndexed(document);
    ResolvedWellFormed(document, value);
    ResolvedInside(document, value);
    RowUnitIsKnown(unit);
    MoveToSegment(document, value, unit, count, node);
    RowSegments(node, unit);
    var there := Move(document, value, unit, count).value.0;
    i := SegmentIndex(Segments(node, unit), value.start, |node.graphemes|);
    if node.rows != [] {
      RowIndex(node, unit, value.start);
      EndsAre(there);
      RowTaken(node, there, Within(i + count, |node.rows|));
    } else {
      WithinOne(i + count);
      IndexOfOne(Segments(node, unit), value.start, |node.graphemes|);
    }
  }

  lemma RowUnitIsKnown(unit: TextUnit)
    requires IsRowUnit(unit)
    ensures unit != UnitUnknown
  {
  }

  lemma EndsAre(value: Range)
    ensures Ends(value) == (value.start, value.end)
  {
  }

  lemma IndexOfOne(segments: seq<Span>, position: int, length: int)
    requires |segments| == 1
    ensures SegmentIndex(segments, position, length) == 0
  {
  }

  lemma AtSegment(value: Range, segment: Span)
    ensures At(value, segment).start == segment.start && At(value, segment).end == segment.end
    ensures Ends(At(value, segment)) == (segment.start, segment.end)
  {
  }

  lemma RowTaken(node: DocumentNode, value: Range, i: nat)
    requires i < |node.rows| && value.start == node.rows[i].start && value.end == StretchEnd(node, i)
    ensures TakesRow(node, value, i)
  {
  }

  lemma WithinOne(to: int)
    ensures Within(to, 1) == 0
  {
  }

  lemma ClampIsWithin(to: int, n: nat)
    requires n > 0
    ensures Clamp(to, 0, n - 1) == Within(to, n) && 0 <= Within(to, n) < n
  {
  }

  lemma ReadableIsIndexed(document: Document)
    requires Readable(document)
    ensures IndexInRange(document)
  {
  }

  /** Moving by paragraphs, pages or documents takes the whole text and has not moved. */
  lemma MoveByAll(document: Document, value: Range, unit: TextUnit, count: int, node: DocumentNode)
    requires IndexInRange(document) && Resolve(document, value) == Ok(node) && IsWholeUnit(unit) && count != 0
    ensures Move(document, value, unit, count).Ok?
    ensures var (there, moved) := Move(document, value, unit, count).value;
            Ends(there) == (0, |node.graphemes|) && moved == 0
  {
    hide Resolve;
  }

  /** The boundaries of a unit: before every grapheme, at the start of every row or at the start alone, and the end. */
  predicate IsBoundary(node: DocumentNode, unit: TextUnit, p: int) {
    || p == |node.graphemes|
    || (unit == UnitCharacter && 0 <= p < |node.graphemes|)
    || (IsRowUnit(unit) && exists i :: 0 <= i < |node.rows| && node.rows[i].start == p)
    || (IsWholeUnit(unit) && p == 0)
  }

  lemma UnitBoundary(node: DocumentNode, unit: TextUnit, p: int)
    requires NodeWellFormed(node) && unit != UnitUnknown
    ensures p in Boundaries(node, unit) <==> IsBoundary(node, unit, p)
  {
    BoundariesMeaning(node, unit);
    var segments := Segments(node, unit);
    if unit == UnitCharacter {
      CharacterSegments(node);
      hide NodeWellFormed, Boundaries, Increasing, Segments;
      assert 0 <= p < |node.graphemes| ==> segments[p].start == p;
    } else if IsRowUnit(unit) {
      RowSegments(node, unit);
      hide NodeWellFormed, Boundaries, Increasing, Segments;
      if i :| 0 <= i < |node.rows| && node.rows[i].start == p {
        assert segments[i].start == p;
      }
    } else {
      hide NodeWellFormed, Boundaries, Increasing;
      assert segments[0].start == 0;
    }
  }

  lemma UnitBoundaries(node: DocumentNode, unit: TextUnit)
    requires NodeWellFormed(node) && unit != UnitUnknown
    ensures forall p :: p in Boundaries(node, unit) <==> IsBoundary(node, unit, p)
  {
    hide *;
    forall p
      ensures p in Boundaries(node, unit) <==> IsBoundary(node, unit, p)
    {
      UnitBoundary(node, unit, p);
    }
  }

  /** The one endpoint comes to the position, and the other stays unless it would be passed. */
  predicate Dragged(value: Range, start: bool, position: int, moved: Range) {
    && moved == value.(start := moved.start, end := moved.end)
    && (if start then moved.start == position && moved.end == if position <= value.end then value.end else position
        else moved.end == position && moved.start == if value.start <= position then value.start else position)
  }

  /** All boundaries of the unit, in increasing order. */
  ghost predicate AreBoundaries(node: DocumentNode, unit: TextUnit, boundaries: seq<int>) {
    Increasing(boundaries) && forall p :: p in boundaries <==> IsBoundary(node, unit, p)
  }

  /** The position is the boundary as many further on as were moved, and fewer than asked were moved only to come to an
      end of the text. */
  ghost predicate Lands(boundaries: seq<int>, length: int, from: int, count: int, position: int, moved: int) {
    && 0 <= position <= length
    && (if moved == 0 then position == from else position in boundaries)
    && (count > 0 ==> 0 <= moved <= count && Crossed(boundaries, from, position) == moved
                      && (moved < count ==> position == length))
    && (count < 0 ==> count <= moved <= 0 && Crossed(boundaries, position - 1, from - 1) == -moved
                      && (count < moved ==> position == 0))
  }

  /** An endpoint that is moved comes to the boundary of the unit that is as many further on as it reports, and stops
      short only at an end of the text; the other endpoint stays unless it is passed. */
  lemma EndpointMoves(document: Document, value: Range, start: bool, unit: TextUnit, count: int, node: DocumentNode)
    returns (position: int, boundaries: seq<int>)
    requires Readable(document) && Resolve(document, value) == Ok(node) && unit != UnitUnknown && count != 0
    ensures AreBoundaries(node, unit, boundaries)
    ensures IndexInRange(document) && MoveEndpoint(document, value, start, unit, count).Ok?
    ensures var (there, moved) := MoveEndpoint(document, value, start, unit, count).value;
            && Dragged(value, start, position, there)
            && Lands(boundaries, |node.graphemes|, if start then value.start else value.end, count, position, moved)
  {
    hide *;
    ReadableIsIndexed(document);
    ResolvedWellFormed(document, value);
    ResolvedInside(document, value);
    var from := if start then value.start else value.end;
    EndpointIs(value, start);
    boundaries := Boundaries(node, unit);
    BoundariesAre(node, unit);
    BoundaryLands(boundaries, |node.graphemes|, from, count);
    position := MoveBoundary(boundaries, from, count).0;
    EndpointUnfolds(document, value, start, unit, count, node);
    DraggedByEndpoint(value, start, position);
  }

  lemma EndpointIs(value: Range, start: bool)
    ensures Endpoint(value, start) == if start then value.start else value.end
  {
  }

  lemma BoundariesAre(node: DocumentNode, unit: TextUnit)
    requires NodeWellFormed(node) && unit != UnitUnknown
    ensures AreBoundaries(node, unit, Boundaries(node, unit)) && Covering(Boundaries(node, unit), |node.graphemes|)
    ensures Boundaries(node, unit) != [] && Boundaries(node, unit)[|Boundaries(node, unit)| - 1] == |node.graphemes|
  {
    hide NodeWellFormed, Boundaries, Increasing, IsBoundary;
    UnitBoundaries(node, unit);
    BoundariesMeaning(node, unit);
    BoundariesCover(Boundaries(node, unit), |node.graphemes|);
  }

  lemma BoundaryLands(boundaries: seq<int>, length: int, from: int, count: int)
    requires boundaries != [] && boundaries[|boundaries| - 1] == length
    requires Covering(boundaries, length) && 0 <= from <= length && count != 0
    ensures var (position, moved) := MoveBoundary(boundaries, from, count);
            Lands(boundaries, length, from, count, position, moved)
  {
    hide Covering, MoveBoundary, Crossed;
    MoveBoundaryLands(boundaries, length, from, count);
  }

  lemma BoundariesCover(boundaries: seq<int>, length: int)
    requires boundaries != [] && Increasing(boundaries) && boundaries[0] == 0 && boundaries[|boundaries| - 1] == length
    ensures Covering(boundaries, length)
  {
  }

  lemma DraggedByEndpoint(value: Range, start: bool, position: int)
    ensures Dragged(value, start, position, WithEndpoint(value, start, position))
  {
  }

  lemma EndpointUnfolds(document: Document, value: Range, start: bool, unit: TextUnit, count: int, node: DocumentNode)
    requires IndexInRange(document) && Resolve(document, value) == Ok(node) && unit != UnitUnknown && count != 0
    requires var boundaries := Boundaries(node, unit);
             boundaries != [] && Endpoint(value, start) <= boundaries[|boundaries| - 1]
    ensures var (position, moved) := MoveBoundary(Boundaries(node, unit), Endpoint(value, start), count);
            MoveEndpoint(document, value, start, unit, count) == Ok((WithEndpoint(value, start, position), moved))
  {
    hide Resolve, Boundaries, MoveBoundary, WithEndpoint, Endpoint;
  }

  /** An endpoint that is moved to a target comes to the target's start or end. */
  lemma EndpointMovesTo(document: Document, value: Range, start: bool, target: Range, targetStart: bool)
    requires IndexInRange(document)
    ensures MoveEndpointTo(document, value, start, target, targetStart).Ok?
       <==> Resolve(document, value).Ok? && Resolve(document, target).Ok? && value.node == target.node
    ensures MoveEndpointTo(document, value, start, target, targetStart).Ok? ==>
              Dragged(value, start, if targetStart then target.start else target.end,
                      MoveEndpointTo(document, value, start, target, targetStart).value)
  {
    hide Resolve;
  }

  /** A range is resolved exactly on the documents that make the same range of its node and its ends, and the node is
      the one the index leads to. */
  lemma ResolvesWhereMade(document: Document, value: Range)
    requires IndexInRange(document) && document.providerID != 0
    ensures Resolve(document, value).Ok? <==> NewRange(document, value.node, value.start, value.end) == Ok(value)
    ensures NewRange(document, value.node, value.start, value.end).Ok? ==>
              value.node in document.index
              && 0 <= value.start <= value.end <= |document.nodes[document.index[value.node]].graphemes|
    ensures Resolve(document, value).Ok? ==>
              Resolve(document, value).value == document.nodes[document.index[value.node]]
  {
  }

  /** What is found is the text looked for, letter by letter unless case is to be ignored. */
  lemma FoundIsText(graphemes: seq<Text>, wanted: seq<Text>, at: int, fold: (Text, Text) -> bool, ignoreCase: bool)
    ensures !ignoreCase ==>
              (MatchesAt(graphemes, wanted, at, fold, ignoreCase)
               <==> 0 <= at && at + |wanted| <= |graphemes| && graphemes[at..at + |wanted|] == wanted)
    ensures ignoreCase ==>
              (MatchesAt(graphemes, wanted, at, fold, ignoreCase)
               <==> 0 <= at && at + |wanted| <= |graphemes|
                    && forall i :: 0 <= i < |wanted| ==> fold(graphemes[at..at + |wanted|][i], wanted[i]))
  {
    if !ignoreCase && 0 <= at && at + |wanted| <= |graphemes| {
      var slice := graphemes[at..at + |wanted|];
      assert slice == wanted <==> forall i :: 0 <= i < |wanted| ==> slice[i] == wanted[i];
      assert forall i :: 0 <= i < |wanted| ==> slice[i] == graphemes[at + i];
    }
  }

  /** The range is of another document, or of none. */
  predicate IsStale(document: Document, value: Range) {
    || value.providerID == 0 || value.providerID != document.providerID || value.generation != document.generation
    || value.instance != document.instance
  }

  /** The range is in no text of the document. */
  predicate IsAstray(document: Document, value: Range)
    requires IndexInRange(document)
  {
    || value.node !in document.index || value.start < 0 || value.end < value.start
    || value.end > |document.nodes[document.index[value.node]].graphemes|
  }

  /** What makes a range unusable for its document, and with which error. */
  predicate IsRefused(document: Document, value: Range, error: Error)
    requires IndexInRange(document)
  {
    (IsStale(document, value) && error == StaleRange)
    || (!IsStale(document, value) && IsAstray(document, value) && error == InvalidRange)
  }

  lemma ResolveRefuses(document: Document, value: Range, error: Error)
    requires IndexInRange(document)
    ensures Resolve(document, value) == Err(error) <==> IsRefused(document, value, error)
    ensures Resolve(document, value).Ok? <==> !IsStale(document, value) && !IsAstray(document, value)
  {
  }

  /** Operations are refused for their range and else for an unknown unit or a target on another node, and moving by
      nothing changes nothing. */
  lemma OperationsRefuse(document: Document, value: Range, start: bool, unit: TextUnit, count: int, target: Range,
                         targetStart: bool, error: Error)
    requires IndexInRange(document)
    ensures var usable := !IsStale(document, value) && !IsAstray(document, value);
            var refused := IsRefused(document, value, error)
                           || (usable && unit == UnitUnknown && error == InvalidRange);
            && (Expand(document, value, unit) == Err(error) <==> refused)
            && (Move(document, value, unit, count) == Err(error) <==> refused)
            && (MoveEndpoint(document, value, start, unit, count) == Err(error) <==> refused)
            && (MoveEndpointTo(document, value, start, target, targetStart) == Err(error) <==>
                  || IsRefused(document, value, error)
                  || (usable && IsRefused(document, target, error))
                  || (usable && !IsStale(document, target) && !IsAstray(document, target)
                      && value.node != target.node && error == InvalidRange))
            && (usable && unit != UnitUnknown && count == 0 ==>
                  Move(document, value, unit, count) == MoveEndpoint(document, value, start, unit, count)
                  == Ok((value, 0)))
  {
    ResolveRefuses(document, value, error);
    ResolveRefuses(document, target, error);
    hide Resolve, IsStale, IsAstray, Segments, Boundaries, MoveBoundary, SegmentIndex;
  }
}
