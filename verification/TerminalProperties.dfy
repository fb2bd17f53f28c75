/** What the projection hands to the document: rows whose clusters are the graphemes of their text over the cells
    they came from, and offsets that the document recomputes to the same values. */
module TerminalProperties {
  import opened Types
  import opened Utf8
  import opened Graphemes
  import opened TerminalSpec
  import opened TerminalChunks
  import opened TerminalProjection

  /** The clusters of a row are exactly the graphemes of its text. */
  ghost predicate ClustersAreGraphemes(seg: Segmenter, row: TerminalRow) {
    && |seg(row.text)| == |row.clusters|
    && forall i :: 0 <= i < |row.clusters| ==> row.clusters[i].text == seg(row.text)[i]
  }

  ghost predicate ClustersInRow(row: TerminalRow, cols: int) {
    && (forall i :: 0 <= i < |row.clusters| ==> 0 <= row.clusters[i].startCell < row.clusters[i].endCell <= cols)
    && (forall i, j :: 0 <= i < j < |row.clusters| ==>
          && row.clusters[i].startCell <= row.clusters[j].startCell
          && row.clusters[i].endCell <= row.clusters[j].endCell)
  }

  /** What the document builder asks of a row. */
  ghost predicate RowAcceptable(seg: Segmenter, row: TerminalRow) {
    && ValidUtf8(row.text) && !HasLineBreak(row.text)
    && ClustersAreGraphemes(seg, row)
    && forall i :: 0 <= i < |row.clusters| ==> row.clusters[i].bounds.Valid()
  }

  lemma {:induction false} VisibleUnionIsValid(input: TerminalInput, row: int, startCell: int, endCell: int,
                                               inverse: seq<int>)
    requires 0 <= startCell
    ensures VisibleUnion(input, row, startCell, endCell, inverse).Some? ==>
              VisibleUnion(input, row, startCell, endCell, inverse).value.Valid()
    decreases endCell - startCell
  {
    if startCell < endCell <= |inverse| {
      hide CellRect;
      VisibleUnionIsValid(input, row, startCell, endCell - 1, inverse);
    }
  }

  lemma BoundsAreValid(input: TerminalInput, row: int, startCell: int, endCell: int, inverse: seq<int>)
    requires 0 <= startCell
    ensures ClusterBounds(input, row, startCell, endCell, inverse).Valid()
  {
    VisibleUnionIsValid(input, row, startCell, Min(endCell, |inverse|), inverse);
  }

  /** The prefix of a text made of its first pieces. */
  lemma PrefixIsClean(seg: Segmenter, text: Text, k: nat)
    requires ValidUtf8(text) && !HasLineBreak(text) && k <= |seg(text)|
    ensures ValidUtf8(Concat(seg(text)[..k])) && !HasLineBreak(Concat(seg(text)[..k]))
    ensures seg(Concat(seg(text)[..k])) == seg(text)[..k]
    decreases k
  {
    SegmentLaws(seg, text);
    PrefixText(seg, text, k);
    assert forall b :: b in Concat(seg(text)[..k]) ==> b in text;
    hide ValidUtf8;
    if k > 0 {
      PrefixIsClean(seg, text, k - 1);
      assert seg(text)[..k] == seg(text)[..k - 1] + [seg(text)[k - 1]];
      ConcatOne(seg(text)[..k - 1], seg(text)[k - 1]);
      ValidConcat(Concat(seg(text)[..k - 1]), seg(text)[k - 1]);
    } else {
      EmptyIsValid();
    }
  }

  /** Offsets of successive pieces. */
  lemma {:induction false} PieceOffsetsGrow(seg: Segmenter, text: Text, i: nat, j: nat)
    requires i <= j <= |seg(text)|
    ensures |Concat(seg(text)[..i])| <= |Concat(seg(text)[..j])|
    decreases j
  {
    if i < j {
      PieceOffsetsGrow(seg, text, i, j - 1);
      PieceOffset(seg, text, j - 1);
    }
  }

  /** The columns of cluster `i`: the smallest interval covering every chunk its bytes overlap. */
  ghost predicate CoversItsChunks(chunks: seq<TerminalChunk>, low: int, high: int, startCell: int, endCell: int) {
    && (forall c :: 0 <= c < |chunks| && Overlaps(chunks[c], low, high) ==>
          startCell <= chunks[c].startCell && chunks[c].endCell <= endCell)
    && (exists c :: 0 <= c < |chunks| && Overlaps(chunks[c], low, high) && chunks[c].startCell == startCell)
    && (exists c :: 0 <= c < |chunks| && Overlaps(chunks[c], low, high) && chunks[c].endCell == endCell)
  }

  lemma ClusterCoversItsChunks(seg: Segmenter, input: TerminalInput, rowIndex: nat, collected: Collected,
                               inverse: seq<int>, i: nat)
    requires ChunksTile(collected.chunks, |collected.text|, input.cols) && i < |seg(collected.text)|
    ensures var pieces := seg(collected.text);
            var cluster := ClusterAt(input, rowIndex, collected.chunks, inverse, pieces, i);
            && 0 <= cluster.startCell < cluster.endCell <= input.cols
            && cluster.bounds.Valid()
            && CoversItsChunks(collected.chunks, |Concat(pieces[..i])|, |Concat(pieces[..i + 1])|,
                               cluster.startCell, cluster.endCell)
  {
    PieceOffset(seg, collected.text, i);
    var pieces := seg(collected.text);
    var low, high := |Concat(pieces[..i])|, |Concat(pieces[..i + 1])|;
    var first, last := StretchIsHull(collected.chunks, |collected.text|, input.cols, low, high);
    BoundsAreValid(input, rowIndex, MinStart(collected.chunks, low, high, input.cols),
                   MaxEnd(collected.chunks, low, high), inverse);
  }

  lemma ClustersIncrease(seg: Segmenter, input: TerminalInput, rowIndex: nat, collected: Collected,
                         inverse: seq<int>, i: nat, j: nat)
    requires ChunksTile(collected.chunks, |collected.text|, input.cols) && i < j < |seg(collected.text)|
    ensures var pieces := seg(collected.text);
            var a, b := ClusterAt(input, rowIndex, collected.chunks, inverse, pieces, i),
                        ClusterAt(input, rowIndex, collected.chunks, inverse, pieces, j);
            a.startCell <= b.startCell && a.endCell <= b.endCell
  {
    var pieces := seg(collected.text);
    PieceOffset(seg, collected.text, i);
    PieceOffset(seg, collected.text, j);
    PieceOffsetsGrow(seg, collected.text, i, j);
    PieceOffsetsGrow(seg, collected.text, i + 1, j + 1);
    StretchesIncrease(collected.chunks, |collected.text|, input.cols,
                      |Concat(pieces[..i])|, |Concat(pieces[..i + 1])|, |Concat(pieces[..j])|,
                          |Concat(pieces[..j + 1])|);
  }

  /** Each cluster lies over the smallest interval of cells that covers every cell its bytes come from. */
  ghost predicate ClustersCoverChunks(seg: Segmenter, row: TerminalRow, collected: Collected) {
    && |row.clusters| <= |seg(collected.text)|
    && forall i :: 0 <= i < |row.clusters| ==>
         CoversItsChunks(collected.chunks, |Concat(seg(collected.text)[..i])|, |Concat(seg(collected.text)[..i + 1])|,
                         row.clusters[i].startCell, row.clusters[i].endCell)
  }

  lemma RowOfCovers(seg: Segmenter, input: TerminalInput, rowIndex: nat, collected: Collected, inverse: seq<int>,
                    graphemeBudget: nat)
    requires input.Valid() && rowIndex < input.rows
    requires ChunksTile(collected.chunks, |collected.text|, input.cols)
    ensures var row := RowOf(seg, input, rowIndex, collected, inverse, graphemeBudget).row;
            && ClustersInRow(row, input.cols)
            && ClustersCoverChunks(seg, row, collected)
            && forall i :: 0 <= i < |row.clusters| ==>
                 row.clusters[i].bounds.Valid() && row.clusters[i].text == seg(collected.text)[i]
  {
    hide ClusterAt, ChunksTile, TerminalInput.Valid, CoversItsChunks;
    var row := RowOf(seg, input, rowIndex, collected, inverse, graphemeBudget).row;
    forall i | 0 <= i < |row.clusters|
      ensures 0 <= row.clusters[i].startCell < row.clusters[i].endCell <= input.cols && row.clusters[i].bounds.Valid()
      ensures CoversItsChunks(collected.chunks, |Concat(seg(collected.text)[..i])|,
                              |Concat(seg(collected.text)[..i + 1])|,
                              row.clusters[i].startCell, row.clusters[i].endCell)
      ensures row.clusters[i].text == seg(collected.text)[i]
    {
      ClusterCoversItsChunks(seg, input, rowIndex, collected, inverse, i);
      ClusterText(input, rowIndex, collected.chunks, inverse, seg(collected.text), i);
    }
    forall i, j | 0 <= i < j < |row.clusters|
      ensures row.clusters[i].startCell <= row.clusters[j].startCell
          && row.clusters[i].endCell <= row.clusters[j].endCell
    {
      ClustersIncrease(seg, input, rowIndex, collected, inverse, i, j);
    }
  }

  lemma RowOfAcceptable(seg: Segmenter, input: TerminalInput, rowIndex: nat, collected: Collected, inverse: seq<int>,
                        graphemeBudget: nat)
    requires input.Valid() && rowIndex < input.rows
    requires ChunksTile(collected.chunks, |collected.text|, input.cols)
    requires ValidUtf8(collected.text) && !HasLineBreak(collected.text)
    ensures var row := RowOf(seg, input, rowIndex, collected, inverse, graphemeBudget).row;
            RowAcceptable(seg, row) && row.text <= collected.text
  {
    var row := RowOf(seg, input, rowIndex, collected, inverse, graphemeBudget).row;
    hide ClusterAt, ChunksTile, TerminalInput.Valid, ClustersInRow, ClustersCoverChunks, ValidUtf8;
    RowOfCovers(seg, input, rowIndex, collected, inverse, graphemeBudget);
    PrefixIsClean(seg, collected.text, |row.clusters|);
    PrefixText(seg, collected.text, |row.clusters|);
  }

  /** The intervals of a projected row are not empty, lie in the row, never go back and are the hulls of the cells
      they come from; and the row can be handed to the document as it is. */
  lemma ProjectedRowIsSound(seg: Segmenter, input: TerminalInput, rowIndex: nat, byteBudget: int, graphemeBudget: nat)
    requires input.Valid() && rowIndex < input.rows
    requires ProjectRow(seg, input, rowIndex, byteBudget, graphemeBudget).Ok?
    ensures var row := ProjectRow(seg, input, rowIndex, byteBudget, graphemeBudget).value.row;
            var collected := Collect(input.Row(rowIndex), ContentEnd(input.Row(rowIndex)), byteBudget);
            && RowAcceptable(seg, row) && ClustersInRow(row, input.cols)
            && row.text <= collected.text && ClustersCoverChunks(seg, row, collected)
  {
    var cells := input.Row(rowIndex);
    var collected := Collect(cells, ContentEnd(cells), byteBudget);
    var inverse := LogicalToVisual(input.Order(rowIndex), input.cols).value;
    assert ValidCells(cells);
    hide RowOf, ChunksTile, Collect, TerminalInput.Valid, ValidCells, ValidUtf8, RowAcceptable, ClustersInRow;
    CollectTiles(cells, ContentEnd(cells), byteBudget);
    RowOfCovers(seg, input, rowIndex, collected, inverse, graphemeBudget);
    RowOfAcceptable(seg, input, rowIndex, collected, inverse, graphemeBudget);
  }

  lemma ClusterText(input: TerminalInput, row: int, chunks: seq<TerminalChunk>, inverse: seq<int>, pieces: seq<Text>,
                    i: nat)
    requires i < |pieces|
    ensures ClusterAt(input, row, chunks, inverse, pieces, i).text == pieces[i]
  {
  }

  ghost predicate RowsSound(seg: Segmenter, rows: seq<TerminalRow>, cols: int) {
    forall i :: 0 <= i < |rows| ==> RowAcceptable(seg, rows[i]) && ClustersInRow(rows[i], cols)
  }

  lemma {:induction false} ProjectedRowsAreSound(seg: Segmenter, input: TerminalInput, n: nat, byteBudget: int,
                                                 graphemeBudget: nat)
    requires input.Valid() && n <= input.rows
    ensures var r := ProjectRows(seg, input, n, byteBudget, graphemeBudget);
            r.Bad? || (RowsSound(seg, r.rows, input.cols) && |r.rows| <= n)
  {
    hide TerminalInput.Valid, ProjectRow, RowAcceptable, ClustersInRow;
    if n > 0 {
      ProjectedRowsAreSound(seg, input, n - 1, byteBudget, graphemeBudget);
      var before := ProjectRows(seg, input, n - 1, byteBudget, graphemeBudget);
      if before.Going? {
        var next := ProjectRow(seg, input, n - 1, before.bytes, before.graphemes);
        if next.Ok? {
          ProjectedRowIsSound(seg, input, n - 1, before.bytes, before.graphemes);
        }
      }
    }
  }

  predicate Inside(a: Rect, b: Rect) {
    && b.x <= a.x && a.x + a.width <= b.x + b.width
    && b.y <= a.y && a.y + a.height <= b.y + b.height
  }

  /** The visible part of the cell a logical column is shown in. */
  function VisibleCell(input: TerminalInput, row: int, logical: int, inverse: seq<int>): Option<Rect>
    requires 0 <= logical < |inverse|
  {
    Intersect(CellRect(input, row, inverse[logical]), input.clip)
  }

  /** The bounds of a cluster hold the visible part of each of its cells and stay in the clip, and every rectangle
      that holds those parts holds the bounds; without a visible cell they are empty, at the corner of the clip. */
  lemma {:induction false} VisibleUnionIsHull(input: TerminalInput, row: int, startCell: int, endCell: int,
                                              inverse: seq<int>,
                                              box: Rect)
    requires 0 <= startCell && endCell <= |inverse|
    ensures match VisibleUnion(input, row, startCell, endCell, inverse)
            case None => forall l :: startCell <= l < endCell ==> VisibleCell(input, row, l, inverse).None?
            case Some(u) =>
              && (exists l :: startCell <= l < endCell && VisibleCell(input, row, l, inverse).Some?)
              && (forall l :: startCell <= l < endCell && VisibleCell(input, row, l, inverse).Some? ==>
                    Inside(VisibleCell(input, row, l, inverse).value, u))
              && Inside(u, input.clip)
              && ((forall l :: startCell <= l < endCell && VisibleCell(input, row, l, inverse).Some? ==>
                     Inside(VisibleCell(input, row, l, inverse).value, box)) ==> Inside(u, box))
    decreases endCell - startCell
  {
    hide CellRect;
    if startCell < endCell {
      VisibleUnionIsHull(input, row, startCell, endCell - 1, inverse, box);
      var cell := VisibleCell(input, row, endCell - 1, inverse);
      if cell.Some? {
        IntersectInside(CellRect(input, row, inverse[endCell - 1]), input.clip);
        hide Intersect, Union, Inside, VisibleCell;
        var before := VisibleUnion(input, row, startCell, endCell - 1, inverse);
        if before.Some? {
          UnionInside(before.value, cell.value, input.clip);
          UnionInside(before.value, cell.value, box);
          forall l | startCell <= l < endCell - 1 && VisibleCell(input, row, l, inverse).Some?
            ensures Inside(VisibleCell(input, row, l, inverse).value, Union(before.value, cell.value))
          {
            InsideTrans(VisibleCell(input, row, l, inverse).value, before.value, Union(before.value, cell.value));
          }
          VisibleGrows(input, row, startCell, endCell, inverse, before.value, cell.value);
        } else {
          InsideSelf(cell.value);
          VisibleBegins(input, row, startCell, endCell, inverse, cell.value);
        }
      }
    }
  }

  lemma VisibleGrows(input: TerminalInput, row: int, startCell: int, endCell: int, inverse: seq<int>, a: Rect, b: Rect)
    requires 0 <= startCell < endCell <= |inverse|
    requires VisibleUnion(input, row, startCell, endCell - 1, inverse) == Some(a)
    requires VisibleCell(input, row, endCell - 1, inverse) == Some(b)
    ensures VisibleUnion(input, row, startCell, endCell, inverse) == Some(Union(a, b))
  {
  }

  lemma VisibleBegins(input: TerminalInput, row: int, startCell: int, endCell: int, inverse: seq<int>, b: Rect)
    requires 0 <= startCell < endCell <= |inverse|
    requires VisibleUnion(input, row, startCell, endCell - 1, inverse) == None
    requires VisibleCell(input, row, endCell - 1, inverse) == Some(b)
    ensures VisibleUnion(input, row, startCell, endCell, inverse) == Some(b)
  {
  }

  lemma IntersectInside(rect: Rect, clip: Rect)
    ensures Intersect(rect, clip).Some? ==>
        Inside(Intersect(rect, clip).value, clip) && Inside(Intersect(rect, clip).value, rect)
  {
  }

  lemma UnionInside(a: Rect, b: Rect, box: Rect)
    ensures Inside(a, Union(a, b)) && Inside(b, Union(a, b))
    ensures Inside(a, box) && Inside(b, box) ==> Inside(Union(a, b), box)
  {
  }

  lemma InsideTrans(a: Rect, b: Rect, c: Rect)
    requires Inside(a, b) && Inside(b, c)
    ensures Inside(a, c)
  {
  }

  lemma InsideSelf(a: Rect)
    ensures Inside(a, a)
  {
  }
}
