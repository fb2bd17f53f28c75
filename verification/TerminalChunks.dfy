/** The chunks of a projected row: consecutive stretches of its text over increasing columns, and the columns of a
    grapheme cluster as the hull of the chunks it overlaps. */
module TerminalChunks {
  import opened Types
  import opened Utf8
  import opened TerminalSpec

  /** The chunks cut a text of `length` bytes into consecutive stretches, each over its own columns. */
  ghost predicate ChunksTile(chunks: seq<TerminalChunk>, length: nat, cols: int) {
    && (if chunks == [] then length == 0 else chunks[0].startByte == 0 && chunks[|chunks| - 1].endByte == length)
    && (forall i :: 0 <= i < |chunks| ==> ChunkFits(chunks[i], cols))
    && (forall i :: 0 <= i < |chunks| - 1 ==> ChunkFollows(chunks[i], chunks[i + 1]))
  }

  predicate ChunkFits(chunk: TerminalChunk, cols: int) {
    chunk.startByte < chunk.endByte && 0 <= chunk.startCell < chunk.endCell <= cols
  }

  predicate ChunkFollows(chunk: TerminalChunk, next: TerminalChunk) {
    chunk.endByte == next.startByte && chunk.endCell <= next.startCell
  }

  /** Each chunk comes from a leading cell among the first `n` columns. */
  ghost predicate ChunksLead(chunks: seq<TerminalChunk>, cells: seq<TerminalCell>, n: nat)
    requires n <= |cells|
  {
    forall i :: 0 <= i < |chunks| ==> 0 <= chunks[i].startCell < n && ChunkLeads(chunks[i], cells)
  }

  predicate ChunkLeads(chunk: TerminalChunk, cells: seq<TerminalCell>)
    requires 0 <= chunk.startCell < |cells|
  {
    !cells[chunk.startCell].wideContinuation && chunk.endCell == chunk.startCell + cells[chunk.startCell].Width()
  }

  lemma CollectAppends(cells: seq<TerminalCell>, n: nat, chunks: seq<TerminalChunk>, length: nat, text: Text)
    requires n < |cells| && ValidCells(cells) && !cells[n].wideContinuation && text != []
    requires ChunksTile(chunks, length, |cells|) && ChunksLead(chunks, cells, n)
    ensures var more := chunks + [TerminalChunk(length, length + |text|, n, n + cells[n].Width())];
            ChunksTile(more, length + |text|, |cells|) && ChunksLead(more, cells, n + 1)
  {
    assert CellFits(cells, n);
    var more := chunks + [TerminalChunk(length, length + |text|, n, n + cells[n].Width())];
    if chunks != [] {
      var last := chunks[|chunks| - 1];
      assert CellPlaced(cells, last.startCell);
      assert last.endCell <= n;
    }
    forall i | 0 <= i < |more| - 1
      ensures ChunkFollows(more[i], more[i + 1])
    {
      if i < |chunks| - 1 {
        assert ChunkFollows(chunks[i], chunks[i + 1]);
      }
    }
  }

  /** The collected text is well-formed, without line breaks and within the byte budget, and its chunks tile it. */
  lemma {:induction false} CollectTiles(cells: seq<TerminalCell>, n: nat, byteBudget: int)
    requires ValidCells(cells) && n <= |cells|
    ensures var c := Collect(cells, n, byteBudget);
            && ChunksTile(c.chunks, |c.text|, |cells|) && ChunksLead(c.chunks, cells, n)
            && ValidUtf8(c.text) && !HasLineBreak(c.text)
            && |c.text| <= Max(byteBudget, 0)
  {
    hide ValidCells, ValidUtf8, ChunksTile, ChunksLead;
    if n > 0 {
      CollectTiles(cells, n - 1, byteBudget);
      var before, cell := Collect(cells, n - 1, byteBudget), cells[n - 1];
      if !(before.truncated || cell.wideContinuation || cell.text == [] || |cell.text| > byteBudget - |before.text|) {
        CollectAppends(cells, n - 1, before.chunks, |before.text|, cell.text);
        CellTextValid(cells, n - 1);
        ValidConcat(before.text, cell.text);
      }
      LeadLater(before.chunks, cells, n - 1);
    } else {
      NothingTiles(cells);
      EmptyIsValid();
    }
  }

  lemma NothingTiles(cells: seq<TerminalCell>)
    ensures ChunksTile([], 0, |cells|) && ChunksLead([], cells, 0)
  {
  }

  lemma LeadLater(chunks: seq<TerminalChunk>, cells: seq<TerminalCell>, n: nat)
    requires n < |cells| && ChunksLead(chunks, cells, n)
    ensures ChunksLead(chunks, cells, n + 1)
  {
  }

  lemma EmptyIsValid()
    ensures ValidUtf8([])
  {
  }

  lemma CellTextValid(cells: seq<TerminalCell>, column: nat)
    requires ValidCells(cells) && column < |cells|
    ensures ValidUtf8(cells[column].text) && !HasLineBreak(cells[column].text)
  {
    assert CellFits(cells, column);
  }

  lemma {:induction false} ChunksOrdered(chunks: seq<TerminalChunk>, length: nat, cols: int, i: nat, j: nat)
    requires ChunksTile(chunks, length, cols) && i < j < |chunks|
    ensures chunks[i].endByte <= chunks[j].startByte && chunks[i].endCell <= chunks[j].startCell
    decreases j
  {
    assert ChunkFollows(chunks[j - 1], chunks[j]);
    assert ChunkFits(chunks[j - 1], cols);
    if i < j - 1 {
      ChunksOrdered(chunks, length, cols, i, j - 1);
    }
  }

  /** The chunk that holds a byte. */
  lemma ChunkHolding(chunks: seq<TerminalChunk>, length: nat, cols: int, b: nat) returns (i: nat)
    requires ChunksTile(chunks, length, cols) && b < length
    ensures i < |chunks| && chunks[i].startByte <= b < chunks[i].endByte
  {
    i := 0;
    while b >= chunks[i].endByte
      invariant i < |chunks| && chunks[i].startByte <= b
      decreases |chunks| - i
    {
      assert i < |chunks| - 1 ==> ChunkFollows(chunks[i], chunks[i + 1]);
      i := i + 1;
    }
  }

  /** The chunks that overlap a stretch are those from the one that holds its first byte to the one that holds its
      last. */
  lemma OverlapIsInterval(chunks: seq<TerminalChunk>, length: nat, cols: int, low: nat, high: nat, first: nat,
                          last: nat, i: nat)
    requires ChunksTile(chunks, length, cols) && low < high <= length
    requires first < |chunks| && chunks[first].startByte <= low < chunks[first].endByte
    requires last < |chunks| && chunks[last].startByte <= high - 1 < chunks[last].endByte
    requires i < |chunks|
    ensures first <= last
    ensures Overlaps(chunks[i], low, high) <==> first <= i <= last
  {
    if last < first { ChunksOrdered(chunks, length, cols, last, first); }
    if i < first { ChunksOrdered(chunks, length, cols, i, first); }
    if first < i { ChunksOrdered(chunks, length, cols, first, i); }
    if i < last { ChunksOrdered(chunks, length, cols, i, last); }
    if last < i { ChunksOrdered(chunks, length, cols, last, i); }
  }

  lemma {:induction false} HullOfPrefix(chunks: seq<TerminalChunk>, length: nat, cols: int, low: nat, high: nat,
                                        first: nat, last: nat, n: nat)
    requires ChunksTile(chunks, length, cols) && low < high <= length
    requires first < |chunks| && chunks[first].startByte <= low < chunks[first].endByte
    requires last < |chunks| && chunks[last].startByte <= high - 1 < chunks[last].endByte
    requires n <= |chunks|
    ensures MinStart(chunks[..n], low, high, cols) == if n <= first then cols else chunks[first].startCell
    ensures MaxEnd(chunks[..n], low, high) == if n <= first then 0 else chunks[Min(n - 1, last)].endCell
  {
    hide ChunksTile;
    if n > 0 {
      HullOfPrefix(chunks, length, cols, low, high, first, last, n - 1);
      var c := chunks[..n];
      assert c[..|c| - 1] == chunks[..n - 1] && c[|c| - 1] == chunks[n - 1];
      OverlapIsInterval(chunks, length, cols, low, high, first, last, n - 1);
      FitsAt(chunks, length, cols, n - 1);
      if first < n - 1 {
        ChunksOrdered(chunks, length, cols, first, n - 1);
        FitsAt(chunks, length, cols, first);
        if n - 2 < n - 1 { ChunksOrdered(chunks, length, cols, n - 2, n - 1); }
      }
    }
  }

  lemma FitsAt(chunks: seq<TerminalChunk>, length: nat, cols: int, i: nat)
    requires ChunksTile(chunks, length, cols) && i < |chunks|
    ensures ChunkFits(chunks[i], cols)
  {
  }

  /** The columns of a stretch are the smallest interval that covers every chunk overlapping it; it is never
      empty and lies in the row. */
  lemma StretchIsHull(chunks: seq<TerminalChunk>, length: nat, cols: int, low: nat, high: nat)
    returns (first: nat, last: nat)
    requires ChunksTile(chunks, length, cols) && low < high <= length
    ensures first <= last < |chunks|
    ensures chunks[first].startByte <= low < chunks[first].endByte
        && chunks[last].startByte <= high - 1 < chunks[last].endByte
    ensures MinStart(chunks, low, high, cols) == chunks[first].startCell
    ensures MaxEnd(chunks, low, high) == chunks[last].endCell
    ensures Overlaps(chunks[first], low, high) && Overlaps(chunks[last], low, high)
    ensures 0 <= MinStart(chunks, low, high, cols) < MaxEnd(chunks, low, high) <= cols
    ensures forall i :: 0 <= i < |chunks| && Overlaps(chunks[i], low, high) ==>
              MinStart(chunks, low, high, cols) <= chunks[i].startCell && chunks[i].endCell <= MaxEnd(chunks, low, high)
  {
    first := ChunkHolding(chunks, length, cols, low);
    last := ChunkHolding(chunks, length, cols, high - 1);
    OverlapIsInterval(chunks, length, cols, low, high, first, last, first);
    OverlapIsInterval(chunks, length, cols, low, high, first, last, last);
    HullOfPrefix(chunks, length, cols, low, high, first, last, |chunks|);
    assert chunks[..|chunks|] == chunks;
    FitsAt(chunks, length, cols, first);
    FitsAt(chunks, length, cols, last);
    if first < last { ChunksOrdered(chunks, length, cols, first, last); }
    forall i | 0 <= i < |chunks| && Overlaps(chunks[i], low, high)
      ensures chunks[first].startCell <= chunks[i].startCell && chunks[i].endCell <= chunks[last].endCell
    {
      OverlapIsInterval(chunks, length, cols, low, high, first, last, i);
      FitsAt(chunks, length, cols, i);
      if first < i { ChunksOrdered(chunks, length, cols, first, i); }
      if i < last { ChunksOrdered(chunks, length, cols, i, last); }
    }
  }

  /** Later stretches start and end no earlier. */
  lemma StretchesIncrease(chunks: seq<TerminalChunk>, length: nat, cols: int, low: nat, high: nat, low': nat,
                          high': nat)
    requires ChunksTile(chunks, length, cols)
    requires low < high <= length && low' < high' <= length && low <= low' && high <= high'
    ensures MinStart(chunks, low, high, cols) <= MinStart(chunks, low', high', cols)
    ensures MaxEnd(chunks, low, high) <= MaxEnd(chunks, low', high')
  {
    var first, last := StretchIsHull(chunks, length, cols, low, high);
    var first', last' := StretchIsHull(chunks, length, cols, low', high');
    if first' < first {
      ChunksOrdered(chunks, length, cols, first', first);
    }
    if last' < last {
      ChunksOrdered(chunks, length, cols, last', last);
    }
    FitsAt(chunks, length, cols, first);
    FitsAt(chunks, length, cols, last');
    if first < first' { ChunksOrdered(chunks, length, cols, first, first'); }
    if last < last' { ChunksOrdered(chunks, length, cols, last, last'); }
  }
}
