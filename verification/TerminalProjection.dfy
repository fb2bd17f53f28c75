/** The loops of the terminal projection. */
module TerminalProjection {
  import opened Types
  import opened Utf8
  import opened Graphemes
  import DocumentSpec
  import Documents
  import opened TerminalSpec
  import opened TerminalChunks

  /** The check that every wide cell is followed by its continuations, and every continuation has its wide cell. */
  method ValidateCells(cells: seq<TerminalCell>) returns (ok: bool)
    ensures ok <==> ValidCells(cells)
  {
    var coveredUntil := 0;
    ghost var lead := 0;
    for column := 0 to |cells|
      invariant forall c :: 0 <= c < column ==> CellFits(cells, c) && CellPlaced(cells, c)
      invariant column > 0 ==>
          lead < column && !cells[lead].wideContinuation && coveredUntil == lead + cells[lead].Width()
      invariant column == 0 ==> coveredUntil == 0
      invariant column <= Max(column, coveredUntil) <= |cells|
      invariant CoverKnown(cells, column, coveredUntil)
      invariant forall c :: column <= c < coveredUntil ==> cells[c].wideContinuation
    {
      var cell := cells[column];
      if !ValidUtf8(cell.text) || HasLineBreak(cell.text) || cell.span < 0 || cell.span > |cells| - column
         || (cell.trimBarrier && (cell.text != [] || cell.span != 0 || cell.blank)) {
        assert !CellFits(cells, column);
        return false;
      }
      assert CoveredBefore(cells, column, column) <==> Covered(cells, column);
      if column < coveredUntil {
        if !cell.wideContinuation || cell.text != [] || cell.span != 0 {
          assert !CellPlaced(cells, column);
          return false;
        }
        CoverGrows(cells, column, coveredUntil);
        continue;
      }
      if cell.wideContinuation || (cell.blank && cell.text != [] && cell.text != SPACE) {
        assert !CellPlaced(cells, column);
        return false;
      }
      CoverGrows(cells, column, coveredUntil);
      coveredUntil := column + cell.Width();
      lead := column;
      for continuation := column + 1 to coveredUntil
        invariant forall k :: column < k < continuation ==> cells[k].wideContinuation
      {
        if !cells[continuation].wideContinuation {
          assert !CellPlaced(cells, column);
          return false;
        }
      }
    }
    return true;
  }

  /** An earlier wide cell among the first `n` columns takes the column. */
  ghost predicate CoveredBefore(cells: seq<TerminalCell>, n: nat, column: nat)
    requires n <= column < |cells|
  {
    exists lead :: 0 <= lead < n && !cells[lead].wideContinuation && column < lead + cells[lead].Width()
  }

  /** The columns from `n` on that the first `n` take are those below `until`. */
  ghost predicate CoverKnown(cells: seq<TerminalCell>, n: nat, until: int)
    requires n <= |cells|
  {
    forall c :: n <= c < |cells| ==> (CoveredBefore(cells, n, c) <==> c < until)
  }

  lemma CoverGrows(cells: seq<TerminalCell>, n: nat, until: int)
    requires n < |cells| && CoverKnown(cells, n, until)
    requires cells[n].wideContinuation || until <= n
    ensures CoverKnown(cells, n + 1, if cells[n].wideContinuation then until else n + cells[n].Width())
  {
    var m, after := n + 1, if cells[n].wideContinuation then until else n + cells[n].Width();
    forall c | m <= c < |cells|
      ensures CoveredBefore(cells, m, c) <==> c < after
    {
      assert CoveredBefore(cells, n, c) <==> c < until;
      if lead :| 0 <= lead < n && !cells[lead].wideContinuation && c < lead + cells[lead].Width() {
        assert CoveredBefore(cells, m, c);
      }
    }
  }

  /** The loop that writes the cells' text and records the stretch of each. Its own checks repeat what validated
      cells satisfy. */
  method CollectChunks(cells: seq<TerminalCell>, end: nat, byteBudget: int) returns (collected: Collected)
    requires ValidCells(cells) && end <= |cells|
    ensures collected == Collect(cells, end, byteBudget)
  {
    var text: Text, chunks: seq<TerminalChunk>, truncated := [], [], false;
    for column := 0 to end
      invariant !truncated
      invariant Collected(text, chunks, false) == Collect(cells, column, byteBudget)
    {
      var cell := cells[column];
      assert CellFits(cells, column);
      if !ValidUtf8(cell.text) || HasLineBreak(cell.text) || cell.span < 0 || cell.span > |cells| - column {
        assert false;
      }
      if cell.wideContinuation || cell.text == [] {
        continue;
      }
      var span := cell.span;
      if span == 0 {
        span := 1;
      }
      if |cell.text| > byteBudget - |text| {
        truncated := true;
        TruncationStays(cells, column + 1, end, byteBudget);
        break;
      }
      var start := |text|;
      text := text + cell.text;
      chunks := chunks + [TerminalChunk(start, |text|, column, column + span)];
    }
    collected := Collected(text, chunks, truncated);
  }

  lemma {:induction false} TruncationStays(cells: seq<TerminalCell>, n: nat, m: nat, byteBudget: int)
    requires n <= m <= |cells| && Collect(cells, n, byteBudget).truncated
    ensures Collect(cells, m, byteBudget) == Collect(cells, n, byteBudget)
  {
    if n < m {
      TruncationStays(cells, n, m - 1, byteBudget);
    }
  }

  lemma {:induction false} NoOverlapBelow(chunks: seq<TerminalChunk>, low: int, high: int, cols: int, n: nat)
    requires n <= |chunks| && forall i :: 0 <= i < n ==> !Overlaps(chunks[i], low, high)
    ensures MinStart(chunks[..n], low, high, cols) == cols && MaxEnd(chunks[..n], low, high) == 0
  {
    if n > 0 {
      NoOverlapBelow(chunks, low, high, cols, n - 1);
      assert chunks[..n][..n - 1] == chunks[..n - 1];
    }
  }

  lemma {:induction false} NoOverlapAbove(chunks: seq<TerminalChunk>, low: int, high: int, cols: int, n: nat, m: nat)
    requires n <= m <= |chunks| && forall i :: n <= i < m ==> !Overlaps(chunks[i], low, high)
    ensures MinStart(chunks[..m], low, high, cols) == MinStart(chunks[..n], low, high, cols)
    ensures MaxEnd(chunks[..m], low, high) == MaxEnd(chunks[..n], low, high)
  {
    if n < m {
      NoOverlapAbove(chunks, low, high, cols, n, m - 1);
      assert chunks[..m][..m - 1] == chunks[..m - 1];
    }
  }

  /** The two pointers of one cluster: skip the chunks that end before it, then take those that begin in it. */
  method ClusterCells(chunks: seq<TerminalChunk>, cols: int, skipped: nat, clusterStart: nat, clusterEnd: nat,
                      ghost length: nat)
    returns (chunkIndex: nat, startCell: int, endCell: int)
    requires ChunksTile(chunks, length, cols) && clusterStart < clusterEnd <= length
    requires skipped <= |chunks| && forall i :: 0 <= i < skipped ==> chunks[i].endByte <= clusterStart
    ensures skipped <= chunkIndex <= |chunks| && forall i :: 0 <= i < chunkIndex ==> chunks[i].endByte <= clusterStart
    ensures startCell == MinStart(chunks, clusterStart, clusterEnd, cols)
    ensures endCell == MaxEnd(chunks, clusterStart, clusterEnd)
  {
    chunkIndex := skipped;
    while chunkIndex < |chunks| && chunks[chunkIndex].endByte <= clusterStart
      invariant skipped <= chunkIndex <= |chunks|
      invariant forall i :: 0 <= i < chunkIndex ==> chunks[i].endByte <= clusterStart
    {
      chunkIndex := chunkIndex + 1;
    }
    startCell, endCell := OverlapCells(chunks, cols, chunkIndex, clusterStart, clusterEnd, length);
  }

  /** The second pointer: takes the columns of the chunks from `chunkIndex` on that begin in the cluster. */
  method OverlapCells(chunks: seq<TerminalChunk>, cols: int, chunkIndex: nat, clusterStart: nat, clusterEnd: nat,
                      ghost length: nat)
    returns (startCell: int, endCell: int)
    requires ChunksTile(chunks, length, cols) && chunkIndex <= |chunks|
    requires forall i :: 0 <= i < chunkIndex ==> chunks[i].endByte <= clusterStart
    requires chunkIndex < |chunks| ==> chunks[chunkIndex].endByte > clusterStart
    ensures startCell == MinStart(chunks, clusterStart, clusterEnd, cols)
    ensures endCell == MaxEnd(chunks, clusterStart, clusterEnd)
  {
    startCell, endCell := cols, 0;
    var index := chunkIndex;
    NoOverlapBelow(chunks, clusterStart, clusterEnd, cols, chunkIndex);
    ChunksIncrease(chunks, length, cols);
    hide ChunksTile, MinStart, MaxEnd;
    while index < |chunks| && chunks[index].startByte < clusterEnd
      invariant chunkIndex <= index <= |chunks|
      invariant startCell == MinStart(chunks[..index], clusterStart, clusterEnd, cols)
      invariant endCell == MaxEnd(chunks[..index], clusterStart, clusterEnd)
    {
      OverlapStep(chunks, clusterStart, clusterEnd, cols, index);
      startCell := Min(startCell, chunks[index].startCell);
      endCell := Max(endCell, chunks[index].endCell);
      index := index + 1;
    }
    NoOverlapAbove(chunks, clusterStart, clusterEnd, cols, index, |chunks|);
    assert chunks[..|chunks|] == chunks;
  }

  lemma OverlapStep(chunks: seq<TerminalChunk>, low: int, high: int, cols: int, n: nat)
    requires n < |chunks| && Overlaps(chunks[n], low, high)
    ensures MinStart(chunks[..n + 1], low, high, cols)
       == Min(MinStart(chunks[..n], low, high, cols), chunks[n].startCell)
    ensures MaxEnd(chunks[..n + 1], low, high) == Max(MaxEnd(chunks[..n], low, high), chunks[n].endCell)
  {
    assert chunks[..n + 1][..n] == chunks[..n];
  }

  lemma ChunksIncrease(chunks: seq<TerminalChunk>, length: nat, cols: int)
    requires ChunksTile(chunks, length, cols)
    ensures forall i, j :: 0 <= i < j < |chunks| ==>
              chunks[i].endByte < chunks[j].endByte && chunks[i].startByte < chunks[j].startByte
  {
    forall i, j | 0 <= i < j < |chunks|
      ensures chunks[i].endByte < chunks[j].endByte && chunks[i].startByte < chunks[j].startByte
    {
      ChunksOrdered(chunks, length, cols, i, j);
      assert ChunkFits(chunks[i], cols) && ChunkFits(chunks[j], cols);
    }
  }

  /** One more column keeps the order in range and distinct exactly when it is in range and new. */
  lemma OrderStep(order: seq<int>, n: nat, cols: int)
    requires n < |order| && InRangeOnce(order, n, cols)
    ensures InRangeOnce(order, n + 1, cols) <==> 0 <= order[n] < cols && order[n] !in order[..n]
  {
    if i :| 0 <= i < n && order[i] == order[n] {
      assert order[..n][i] == order[n];
    }
  }

  lemma PositionStep(order: seq<int>, n: nat, value: int)
    requires n < |order| && order[n] !in order[..n]
    ensures value in order[..n + 1] <==> value in order[..n] || value == order[n]
    ensures PositionOf(order[..n + 1], value) == if value == order[n] then n else PositionOf(order[..n], value)
  {
    assert order[..n + 1] == order[..n] + [order[n]];
    assert order[..n + 1][..n] == order[..n];
    if value !in order[..n] {
      NotThere(order[..n], value);
    }
  }

  lemma {:induction false} NotThere(order: seq<int>, value: int)
    requires value !in order
    ensures PositionOf(order, value) == 0
  {
  }

  lemma StaysOutOfRange(order: seq<int>, n: nat, m: nat, cols: int)
    requires n <= m <= |order| && !InRangeOnce(order, n, cols)
    ensures !InRangeOnce(order, m, cols)
  {
  }

  /** The inverse of a row's column order, built by following the order once. */
  method InverseOrder(order: Option<seq<int>>, cols: nat) returns (result: Option<seq<int>>)
    ensures result == LogicalToVisual(order, cols)
  {
    var inverse := new int[cols](_ => 0);
    if order.None? {
      for column := 0 to cols
        invariant forall c :: 0 <= c < column ==> inverse[c] == c
      {
        inverse[column] := column;
      }
      assert inverse[..] == seq(cols, i => i);
      return Some(inverse[..]);
    }
    var o := order.value;
    if |o| != cols {
      return None;
    }
    result := InverseOf(o, inverse);
  }

  /** The loop that follows the order; `inverse` starts out all 0. */
  method InverseOf(o: seq<int>, inverse: array<int>) returns (result: Option<seq<int>>)
    requires inverse.Length == |o| && forall l :: 0 <= l < |o| ==> inverse[l] == 0
    modifies inverse
    ensures result == LogicalToVisual(Some(o), |o|)
  {
    var cols := |o|;
    var seen := new bool[cols](_ => false);
    hide PositionOf, InRangeOnce;
    NoneFound(o, cols);
    for visual := 0 to |o|
      invariant InRangeOnce(o, visual, cols)
      invariant forall l :: 0 <= l < cols ==> (seen[l] <==> l in o[..visual])
      invariant forall l :: 0 <= l < cols ==> inverse[l] == PositionOf(o[..visual], l)
    {
      var logical := o[visual];
      OrderStep(o, visual, cols);
      if logical < 0 || logical >= cols || seen[logical] {
        StaysOutOfRange(o, visual + 1, |o|, cols);
        return None;
      }
      forall l {
        PositionStep(o, visual, l);
      }
      seen[logical] := true;
      inverse[logical] := visual;
    }
    assert o[..|o|] == o;
    assert inverse[..] == seq(cols, logical => PositionOf(o, logical));
    return Some(inverse[..]);
  }

  lemma NoneFound(order: seq<int>, cols: int)
    ensures InRangeOnce(order, 0, cols) && order[..0] == [] && forall l :: PositionOf([], l) == 0
  {
  }

  /** The bounds of one cluster: the union of its visible cells. */
  method TerminalClusterBounds(input: TerminalInput, row: int, startCell: int, endCell: int, inverse: seq<int>)
    returns (bounds: Rect)
    requires 0 <= startCell
    ensures bounds == ClusterBounds(input, row, startCell, endCell, inverse)
  {
    var union, have := Rect(0.0, 0.0, 0.0, 0.0), false;
    var logical := startCell;
    while logical < endCell && logical < |inverse|
      invariant startCell <= logical
      invariant logical <= Max(startCell, Min(endCell, |inverse|))
      invariant VisibleUnion(input, row, startCell, logical, inverse) == if have then Some(union) else None
    {
      var visible := Intersect(CellRect(input, row, inverse[logical]), input.clip);
      logical := logical + 1;
      if visible.None? {
        continue;
      }
      if !have {
        union, have := visible.value, true;
      } else {
        union := Union(union, visible.value);
      }
    }
    if !have {
      return Rect(input.clip.x, input.clip.y, 0.0, 0.0);
    }
    return union;
  }

  lemma PieceOffset(seg: Segmenter, text: Text, i: nat)
    requires i < |seg(text)|
    ensures |Concat(seg(text)[..i])| + |seg(text)[i]| == |Concat(seg(text)[..i + 1])| <= |text|
    ensures seg(text)[i] != []
    ensures Concat(seg(text)[..i]) + seg(text)[i] == Concat(seg(text)[..i + 1])
  {
    SegmentLaws(seg, text);
    var pieces := seg(text);
    assert pieces[..i + 1] == pieces[..i] + [pieces[i]];
    ConcatOne(pieces[..i], pieces[i]);
    PrefixText(seg, text, i + 1);
  }

  lemma PrefixText(seg: Segmenter, text: Text, k: nat)
    requires k <= |seg(text)|
    ensures |Concat(seg(text)[..k])| <= |text| && text[..|Concat(seg(text)[..k])|] == Concat(seg(text)[..k])
    ensures k == |seg(text)| ==> Concat(seg(text)[..k]) == text
  {
    SegmentLaws(seg, text);
    var pieces := seg(text);
    assert pieces == pieces[..k] + pieces[k..];
    ConcatAppend(pieces[..k], pieces[k..]);
    assert pieces[..|pieces|] == pieces;
  }

  /** The loop over the clusters of a row. The check for an empty stretch of columns can never fire. */
  method BuildClusters(seg: Segmenter, input: TerminalInput, rowIndex: nat, collected: Collected, inverse: seq<int>,
                       graphemeBudget: nat)
    returns (projected: ProjectedRow)
    requires input.Valid() && rowIndex < input.rows
    requires ChunksTile(collected.chunks, |collected.text|, input.cols)
    ensures projected == RowOf(seg, input, rowIndex, collected, inverse, graphemeBudget)
  {
    assert Concat([]) == [] && seg(collected.text)[..0] == [];
    hide RowOf, MinStart, MaxEnd, ClusterBounds, ClusterAt, Concat, ChunksTile;
    var rowText, truncated := collected.text, collected.truncated;
    var pieces := seg(rowText);
    var text, clusters: seq<TerminalCluster> := rowText, [];
    var byteOffset, chunkIndex := 0, 0;
    for k := 0 to |pieces|
      invariant |clusters| == k <= graphemeBudget
      invariant byteOffset == |Concat(pieces[..k])|
      invariant text == rowText && truncated == collected.truncated
      invariant chunkIndex <= |collected.chunks|
      invariant forall i :: 0 <= i < chunkIndex ==> collected.chunks[i].endByte <= byteOffset
      invariant forall i :: 0 <= i < k ==>
          clusters[i] == ClusterAt(input, rowIndex, collected.chunks, inverse, pieces, i)
    {
      var clusterText := pieces[k];
      PieceOffset(seg, rowText, k);
      if |clusters| == graphemeBudget {
        PrefixText(seg, rowText, k);
        text := rowText[..byteOffset];
        truncated := true;
        break;
      }
      var clusterStart, clusterEnd := byteOffset, byteOffset + |clusterText|;
      byteOffset := clusterEnd;
      var skipped, startCell, endCell :=
        ClusterCells(collected.chunks, input.cols, chunkIndex, clusterStart, clusterEnd, |rowText|);
      chunkIndex := skipped;
      var _, _ := StretchIsHull(collected.chunks, |rowText|, input.cols, clusterStart, clusterEnd);
      if startCell >= endCell {
        assert false;
      }
      var bounds := TerminalClusterBounds(input, rowIndex, startCell, endCell, inverse);
      ClusterMade(input, rowIndex, collected.chunks, inverse, pieces, k);
      clusters := clusters + [TerminalCluster(clusterText, startCell, endCell, bounds)];
    }
    PrefixText(seg, rowText, |clusters|);
    ClustersDone(seg, input, rowIndex, collected, inverse, graphemeBudget, text, clusters);
    projected := ProjectedRow(TerminalRow(text, clusters, 0, 0, input.wrapped[rowIndex]), truncated);
  }

  lemma ClusterMade(input: TerminalInput, row: int, chunks: seq<TerminalChunk>, inverse: seq<int>, pieces: seq<Text>,
                    i: nat)
    requires i < |pieces|
    ensures var low, high := |Concat(pieces[..i])|, |Concat(pieces[..i + 1])|;
            var startCell, endCell := MinStart(chunks, low, high, input.cols), MaxEnd(chunks, low, high);
            0 <= startCell ==>
              ClusterAt(input, row, chunks, inverse, pieces, i)
              == TerminalCluster(pieces[i], startCell, endCell, ClusterBounds(input, row, startCell, endCell, inverse))
  {
  }

  lemma ClustersDone(seg: Segmenter, input: TerminalInput, rowIndex: nat, collected: Collected, inverse: seq<int>,
                     graphemeBudget: nat, text: Text, clusters: seq<TerminalCluster>)
    requires input.Valid() && rowIndex < input.rows
    requires var pieces := seg(collected.text);
             && |clusters| == Min(|pieces|, graphemeBudget)
             && (forall i :: 0 <= i < |clusters| ==>
                   clusters[i] == ClusterAt(input, rowIndex, collected.chunks, inverse, pieces, i))
             && text == Concat(pieces[..|clusters|])
    ensures RowOf(seg, input, rowIndex, collected, inverse, graphemeBudget)
         == ProjectedRow(TerminalRow(text, clusters, 0, 0, input.wrapped[rowIndex]),
                         collected.truncated || |clusters| < |seg(collected.text)|)
  {
    hide ClusterAt;
    assert clusters == RowOf(seg, input, rowIndex, collected, inverse, graphemeBudget).row.clusters;
  }

  method ProjectTerminalRow(seg: Segmenter, input: TerminalInput, rowIndex: nat, byteBudget: int, graphemeBudget: nat)
    returns (result: Result<ProjectedRow>)
    requires input.Valid() && rowIndex < input.rows
    ensures result == ProjectRow(seg, input, rowIndex, byteBudget, graphemeBudget)
  {
    hide Collect, ContentEnd, RowOf, LogicalToVisual, ValidCells;
    var cells := input.Row(rowIndex);
    var valid := ValidateCells(cells);
    if !valid {
      return Err(InvalidProjection);
    }
    var last := |cells| - 1;
    assert cells[..|cells|] == cells;
    while last >= 0 && cells[last].Blank()
      invariant -1 <= last < |cells|
      invariant ContentEnd(cells) == ContentEnd(cells[..last + 1])
    {
      TrimStep(cells, last);
      last := last - 1;
    }
    TrimEnd(cells, last);
    var inverse := InverseOrder(input.Order(rowIndex), input.cols);
    if inverse.None? {
      return Err(InvalidProjection);
    }
    var collected := CollectChunks(cells, last + 1, byteBudget);
    CollectTiles(cells, last + 1, byteBudget);
    var projected := BuildClusters(seg, input, rowIndex, collected, inverse.value, graphemeBudget);
    return Ok(projected);
  }

  lemma TrimStep(cells: seq<TerminalCell>, last: nat)
    requires last < |cells| && cells[last].Blank()
    ensures ContentEnd(cells[..last + 1]) == ContentEnd(cells[..last])
  {
    assert cells[..last + 1][..last] == cells[..last];
  }

  lemma TrimEnd(cells: seq<TerminalCell>, last: int)
    requires -1 <= last < |cells| && (last >= 0 ==> !cells[last].Blank())
    requires ContentEnd(cells) == ContentEnd(cells[..last + 1])
    ensures ContentEnd(cells) == last + 1
  {
  }

  /** Writes the offsets of the rows in place. */
  method AssignRowOffsets(rows: array<TerminalRow>)
    modifies rows
    ensures rows[..] == WithOffsets(old(rows[..]))
  {
    ghost var was, placed := rows[..], WithOffsets(rows[..]);
    var offset := 0;
    assert rows.Length > 0 ==> OffsetOf(was, 0) == 0;
    hide OffsetOf, WithOffsets;
    for index := 0 to rows.Length
      invariant index < rows.Length ==> offset == OffsetOf(was, index)
      invariant forall i :: index <= i < rows.Length ==> rows[i] == was[i]
      invariant forall i :: 0 <= i < index ==> rows[i] == placed[i]
    {
      OffsetStep(was, index);
      var row := rows[index];
      row := row.(start := offset);
      offset := offset + |row.clusters|;
      row := row.(end := offset);
      rows[index] := row;
      if index + 1 < rows.Length && !row.softWrapped {
        offset := offset + 1;
      }
    }
    assert rows[..] == placed;
  }

  lemma OffsetStep(rows: seq<TerminalRow>, i: nat)
    requires i < |rows|
    ensures WithOffsets(rows)[i] == rows[i].(start := OffsetOf(rows, i), end := OffsetOf(rows, i) + |rows[i].clusters|)
    ensures OffsetOf(rows, i + 1) == OffsetOf(rows, i) + |rows[i].clusters| + if rows[i].softWrapped then 0 else 1
  {
  }

  /** The loop over the clusters of a row that finds the boundary of a column. */
  method TerminalCellBoundary(row: TerminalRow, column: int, after: bool) returns (boundary: int)
    ensures boundary == CellBoundary(row, column, after)
  {
    var at := if column < 0 then 0 else column;
    for index := 0 to |row.clusters|
      invariant BoundaryFrom(row, at, after, index) == CellBoundary(row, column, after)
    {
      var cluster := row.clusters[index];
      if at < cluster.startCell {
        return row.start + index;
      }
      if at >= cluster.startCell && at < cluster.endCell {
        if after {
          return row.start + index + 1;
        }
        return row.start + index;
      }
    }
    return row.end;
  }

  lemma {:induction false} RowsEndedStay(seg: Segmenter, input: TerminalInput, n: nat, m: nat, byteBudget: int,
                                         graphemeBudget: nat)
    requires input.Valid() && n <= m <= input.rows
    requires !ProjectRows(seg, input, n, byteBudget, graphemeBudget).Going?
    ensures ProjectRows(seg, input, m, byteBudget, graphemeBudget)
       == ProjectRows(seg, input, n, byteBudget, graphemeBudget)
  {
    hide ProjectRow, TerminalInput.Valid;
    if n < m {
      RowsEndedStay(seg, input, n, m - 1, byteBudget, graphemeBudget);
    }
  }

  lemma NextRow(seg: Segmenter, input: TerminalInput, n: nat, byteBudget: int, graphemeBudget: nat,
                rows: seq<TerminalRow>, bytes: int, graphemes: nat)
    requires input.Valid() && n < input.rows
    requires ProjectRows(seg, input, n, byteBudget, graphemeBudget) == Going(rows, bytes, graphemes)
    ensures ProjectRows(seg, input, n + 1, byteBudget, graphemeBudget)
         == match ProjectRow(seg, input, n, bytes, graphemes)
            case Err(e) => Bad(e)
            case Ok(projected) =>
              if projected.truncated then Cut(rows + [projected.row])
              else Going(rows + [projected.row], bytes - |projected.row.text|, graphemes - |projected.row.clusters|)
  {
  }

  /** The loop over the rows, under what is left of the budgets. */
  method ProjectTerminalRows(seg: Segmenter, input: TerminalInput, limit: nat, byteBudget: int, graphemeBudget: nat)
    returns (result: Result<seq<TerminalRow>>, cut: bool)
    requires input.Valid() && limit <= input.rows
    ensures match ProjectRows(seg, input, limit, byteBudget, graphemeBudget)
            case Bad(e) => result == Err(e)
            case Going(rows, _, _) => result == Ok(rows) && !cut
            case Cut(rows) => result == Ok(rows) && cut
  {
    assert ProjectRows(seg, input, 0, byteBudget, graphemeBudget) == Going([], byteBudget, graphemeBudget);
    hide *;
    var rows: seq<TerminalRow> := [];
    var remainingBytes, remainingGraphemes := byteBudget, graphemeBudget;
    cut := false;
    for rowIndex := 0 to limit
      invariant !cut && remainingGraphemes >= 0
      invariant ProjectRows(seg, input, rowIndex, byteBudget, graphemeBudget)
         == Going(rows, remainingBytes, remainingGraphemes)
    {
      NextRow(seg, input, rowIndex, byteBudget, graphemeBudget, rows, remainingBytes, remainingGraphemes);
      var projected := ProjectTerminalRow(seg, input, rowIndex, remainingBytes, remainingGraphemes);
      if projected.Err? {
        RowsEndedStay(seg, input, rowIndex + 1, limit, byteBudget, graphemeBudget);
        return Err(projected.error), false;
      }
      var row := projected.value.row;
      rows := rows + [row];
      remainingBytes := remainingBytes - |row.text|;
      remainingGraphemes := remainingGraphemes - |row.clusters|;
      if projected.value.truncated {
        cut := true;
        RowsEndedStay(seg, input, rowIndex + 1, limit, byteBudget, graphemeBudget);
        break;
      }
    }
    result := Ok(rows);
  }

  method ProjectTerminalNode(seg: Segmenter, input: TerminalInput, rowBudget: int, byteBudget: int, graphemeBudget: int)
    returns (result: Result<ProjectedNode>)
    ensures result == ProjectNode(seg, input, rowBudget, byteBudget, graphemeBudget)
  {
    if !input.Valid() {
      return Err(InvalidProjection);
    }
    if rowBudget < 0 || byteBudget < 0 || graphemeBudget < 0 {
      return Err(InvalidProjection);
    }
    hide ProjectRows, CellBoundary, TerminalInput.Valid, WithOffsets;
    var rowLimit := Min(input.rows, rowBudget);
    var truncated := input.truncated || input.rows > rowLimit;
    var projected, cut := ProjectTerminalRows(seg, input, rowLimit, byteBudget, graphemeBudget);
    if projected.Err? {
      return Err(projected.error);
    }
    truncated := truncated || cut;
    var store := new TerminalRow[|projected.value|](i requires 0 <= i < |projected.value| => projected.value[i]);
    assert store[..] == projected.value;
    AssignRowOffsets(store);
    var rows := store[..];

    var pane := DraftPane(input, rows);
    return Ok(ProjectedNode(pane, truncated));
  }

  /** The draft of the pane with the rows' offsets assigned: its rows, caret and selection. */
  method DraftPane(input: TerminalInput, rows: seq<TerminalRow>) returns (pane: NodeDraft)
    ensures pane == PaneOf(input, rows)
  {
    hide CellBoundary, DraftOfRow;
    var rowDrafts: seq<RowDraft> := [];
    for index := 0 to |rows|
      invariant |rowDrafts| == index
      invariant forall i :: 0 <= i < index ==> rowDrafts[i] == DraftOfRow(rows[i])
    {
      rowDrafts := rowDrafts + [DraftOfRow(rows[index])];
    }
    assert rowDrafts == DraftsOfRows(rows);

    var caret: Option<int>, selection: Option<Span> := None, None;
    if input.cursorVisible && input.displayOffset == 0 && input.cursor.row >= 0 && input.cursor.row < |rows| {
      var boundary := TerminalCellBoundary(rows[input.cursor.row], input.cursor.col, false);
      caret := Some(boundary);
    }
    if input.selection.Some? && |rows| != 0 {
      var normal := NormalizeSelection(input.selection.value);
      var start := ClampPoint(normal.start, input.cols, |rows|);
      var end := ClampPoint(normal.end, input.cols, |rows|);
      var low := TerminalCellBoundary(rows[start.row], start.col, false);
      var high := TerminalCellBoundary(rows[end.row], end.col, true);
      selection := Some(Span(low, high));
    }
    pane := NodeDraft(input.paneID, input.rootID, RoleTerminal, input.paneName, rowDrafts, caret, selection);
  }

  /** Projects one terminal pane and builds its document. */
  method ProjectTerminal(seg: Segmenter, input: TerminalInput, counter: Documents.InstanceCounter)
    returns (result: Result<DocumentSpec.Document>)
    modifies counter
    ensures result == TerminalResult(seg, input, old(counter.last))
    ensures counter.last == match ProjectPane(seg, input)
                            case Err(_) => old(counter.last)
                            case Ok(pane) => DocumentSpec.NextInstance(
                              DocumentSpec.Compile(seg, TerminalDraft(input, pane)), old(counter.last))
  {
    hide DocumentSpec.NewDocument, DocumentSpec.Compile, TerminalDraft, ProjectNode;
    var pane := ProjectTerminalNode(seg, input, MAX_ROWS, MAX_UTF8_BYTES - |input.rootName| - |input.paneName|,
                                    MAX_GRAPHEMES);
    if pane.Err? {
      return Err(pane.error);
    }
    result := Documents.NewDocument(seg, TerminalDraft(input, pane.value), counter);
  }
}
