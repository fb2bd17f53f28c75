/** Column orders and column boundaries: when an order is accepted, and when a selection becomes an ordered span. */
module CellProperties {
  import opened Types
  import opened TerminalSpec

  ghost function Values(s: seq<int>): set<int> {
    set x | x in s
  }

  ghost function Columns(cols: nat): set<int> {
    set x: int | 0 <= x < cols && IsColumn(x)
  }

  predicate IsColumn(x: int) {
    x >= 0
  }

  lemma {:induction false} ColumnCount(cols: nat)
    ensures |Columns(cols)| == cols
  {
    if cols > 0 {
      ColumnCount(cols - 1);
      assert IsColumn(cols - 1);
      assert Columns(cols) == Columns(cols - 1) + {cols - 1};
    } else {
      assert Columns(0) == {};
    }
  }

  /** A list has as many values as entries exactly when no value repeats. */
  lemma {:induction false} ValueCount(s: seq<int>)
    ensures |Values(s)| <= |s|
    ensures |Values(s)| == |s| <==> forall i, j :: 0 <= i < j < |s| ==> s[i] != s[j]
  {
    if s != [] {
      var t, x := s[..|s| - 1], s[|s| - 1];
      assert s == t + [x];
      ValueCount(t);
      assert Values(s) == Values(t) + {x};
      if x in t {
        assert Values(s) == Values(t);
        var i :| 0 <= i < |t| && t[i] == x;
        assert s[i] == s[|s| - 1];
      } else {
        assert |Values(s)| == |Values(t)| + 1;
        forall i | 0 <= i < |t|
          ensures s[i] != s[|s| - 1]
        {
          assert t[i] != x;
        }
        assert forall i, j :: 0 <= i < j < |t| ==> s[i] == t[i] && s[j] == t[j];
      }
    }
  }

  /** Every column of the row occurs in the order, and nothing else does. */
  ghost predicate Permutation(order: seq<int>, cols: nat) {
    && |order| == cols
    && (forall i :: 0 <= i < |order| ==> 0 <= order[i] < cols)
    && (forall column :: 0 <= column < cols ==> column in order)
  }

  lemma SubsetOfSameSize(a: set<int>, b: set<int>)
    requires a <= b && |a| == |b|
    ensures a == b
  {
    assert b == a + (b - a);
  }

  /** The loop checks only ranges and repeats, which by counting is to accept exactly the permutations. */
  lemma AcceptsPermutations(order: seq<int>, cols: nat)
    ensures LogicalToVisual(Some(order), cols).Some? <==> Permutation(order, cols)
  {
    if |order| == cols && forall i :: 0 <= i < |order| ==> 0 <= order[i] < cols {
      ColumnCount(cols);
      ValueCount(order);
      forall x | x in Values(order)
        ensures x in Columns(cols)
      {
        assert IsColumn(x);
      }
      assert Values(order) <= Columns(cols);
      if InRangeOnce(order, |order|, cols) {
        SubsetOfSameSize(Values(order), Columns(cols));
        forall column | 0 <= column < cols
          ensures column in order
        {
          assert IsColumn(column) && column in Columns(cols);
        }
      }
      if Permutation(order, cols) {
        forall x | x in Columns(cols)
          ensures x in Values(order)
        {
        }
        assert Values(order) == Columns(cols);
      }
    }
  }

  lemma {:induction false} PositionFinds(order: seq<int>, value: int)
    requires value in order
    ensures PositionOf(order, value) < |order| && order[PositionOf(order, value)] == value
  {
    var before := order[..|order| - 1];
    if value in before {
      PositionFinds(before, value);
    } else {
      assert order == before + [order[|order| - 1]];
    }
  }

  /** The accepted inverse is one on both sides. */
  lemma InverseIsTwoSided(order: seq<int>, cols: nat)
    requires LogicalToVisual(Some(order), cols).Some?
    ensures var inverse := LogicalToVisual(Some(order), cols).value;
            && |inverse| == cols
            && (forall logical :: 0 <= logical < cols ==>
                   0 <= inverse[logical] < cols && order[inverse[logical]] == logical)
            && (forall visual :: 0 <= visual < cols ==> 0 <= order[visual] < cols && inverse[order[visual]] == visual)
  {
    AcceptsPermutations(order, cols);
    var inverse := LogicalToVisual(Some(order), cols).value;
    forall logical | 0 <= logical < cols
      ensures 0 <= inverse[logical] < cols && order[inverse[logical]] == logical
    {
      PositionFinds(order, logical);
    }
    forall visual | 0 <= visual < cols
      ensures 0 <= order[visual] < cols && inverse[order[visual]] == visual
    {
      PositionFinds(order, order[visual]);
    }
  }

  /** The clusters of a row lie over columns that never go back, and its end follows its clusters. */
  ghost predicate InColumnOrder(row: TerminalRow) {
    && row.end == row.start + |row.clusters|
    && (forall i :: 0 <= i < |row.clusters| ==> 0 <= row.clusters[i].startCell < row.clusters[i].endCell)
    && (forall i, j :: 0 <= i < j < |row.clusters| ==>
          && row.clusters[i].startCell <= row.clusters[j].startCell
          && row.clusters[i].endCell <= row.clusters[j].endCell)
  }

  /** The first cluster from `from` that ends beyond the column. */
  function FirstBeyond(clusters: seq<TerminalCluster>, column: int, from: nat): (i: nat)
    requires from <= |clusters|
    ensures from <= i <= |clusters|
    ensures forall k :: from <= k < i ==> clusters[k].endCell <= column
    ensures i < |clusters| ==> column < clusters[i].endCell
    decreases |clusters| - from
  {
    if from == |clusters| || column < clusters[from].endCell then from else FirstBeyond(clusters, column, from + 1)
  }

  predicate HoldsColumn(row: TerminalRow, i: nat, column: int) {
    i < |row.clusters| && row.clusters[i].startCell <= column < row.clusters[i].endCell
  }

  lemma {:induction false} BoundaryMeaning(row: TerminalRow, column: int, after: bool, from: nat)
    requires InColumnOrder(row) && from <= |row.clusters|
    ensures var i := FirstBeyond(row.clusters, column, from);
            BoundaryFrom(row, column, after, from)
            == row.start + i + if after && HoldsColumn(row, i, column) then 1 else 0
    decreases |row.clusters| - from
  {
    if from < |row.clusters| && !(column < row.clusters[from].endCell) {
      BoundaryMeaning(row, column, after, from + 1);
    }
  }

  /** A column boundary lies in its row, never moves back as the column grows, and the boundary before a column is
      at most the one after it. */
  lemma BoundaryIsMonotone(row: TerminalRow, column: int, column': int, after: bool)
    requires InColumnOrder(row) && column <= column'
    ensures row.start <= CellBoundary(row, column, after) <= row.end
    ensures CellBoundary(row, column, after) <= CellBoundary(row, column', after)
    ensures CellBoundary(row, column, false) <= CellBoundary(row, column', true)
  {
    var c, c' := Max(column, 0), Max(column', 0);
    BoundaryMeaning(row, c, after, 0);
    BoundaryMeaning(row, c', after, 0);
    BoundaryMeaning(row, c, false, 0);
    BoundaryMeaning(row, c', true, 0);
    var i, i' := FirstBeyond(row.clusters, c, 0), FirstBeyond(row.clusters, c', 0);
    assert i <= i';
  }

  /** Some cluster ends at or before column `high` although it comes after the cluster that `low` is in or before. */
  ghost predicate ClusterBetween(row: TerminalRow, low: int, high: int) {
    exists k :: 0 <= k < |row.clusters| && EndsBetween(row, low, high, k)
  }

  ghost predicate EndsBetween(row: TerminalRow, low: int, high: int, k: nat)
    requires k < |row.clusters|
  {
    && row.clusters[k].endCell <= high
    && (low < row.clusters[k].startCell || exists j :: 0 <= j < k && low < row.clusters[j].endCell)
  }

  lemma CrossingHasCluster(row: TerminalRow, low: int, high: int, first: nat, after: nat, beyond: nat)
    requires InColumnOrder(row) && 0 <= low && 0 <= high
    requires first == FirstBeyond(row.clusters, low, 0) && beyond == FirstBeyond(row.clusters, high, 0)
    requires after == first + (if HoldsColumn(row, first, low) then 1 else 0) && beyond > after
    ensures ClusterBetween(row, low, high)
  {
    hide FirstBeyond;
    assert row.clusters[after].endCell <= high;
    if after != first {
      assert low < row.clusters[first].endCell;
    }
    assert EndsBetween(row, low, high, after);
  }

  lemma ClusterMeansCrossing(row: TerminalRow, low: int, high: int, first: nat, after: nat, beyond: nat, k: nat)
    requires InColumnOrder(row) && 0 <= low && 0 <= high
    requires first == FirstBeyond(row.clusters, low, 0) && beyond == FirstBeyond(row.clusters, high, 0)
    requires after == first + (if HoldsColumn(row, first, low) then 1 else 0)
    requires k < |row.clusters| && EndsBetween(row, low, high, k)
    ensures beyond > after
  {
    hide FirstBeyond;
    assert k < beyond;
    if low < row.clusters[k].startCell {
      assert low < row.clusters[k].endCell;
      assert first <= k;
    } else {
      var j :| 0 <= j < k && low < row.clusters[j].endCell;
      assert first <= j;
    }
  }

  /** In one row, the boundary before `high` passes the boundary after `low` exactly when a whole cluster lies
      between them. */
  lemma BoundariesCross(row: TerminalRow, low: int, high: int)
    requires InColumnOrder(row) && 0 <= low && 0 <= high
    ensures CellBoundary(row, high, false) > CellBoundary(row, low, true) <==> ClusterBetween(row, low, high)
  {
    BoundaryMeaning(row, high, false, 0);
    BoundaryMeaning(row, low, true, 0);
    hide BoundaryFrom, FirstBeyond, InColumnOrder, HoldsColumn, EndsBetween;
    var first, beyond := FirstBeyond(row.clusters, low, 0), FirstBeyond(row.clusters, high, 0);
    var after := first + if HoldsColumn(row, first, low) then 1 else 0;
    if beyond > after {
      CrossingHasCluster(row, low, high, first, after, beyond);
    }
    if k :| 0 <= k < |row.clusters| && EndsBetween(row, low, high, k) {
      ClusterMeansCrossing(row, low, high, first, after, beyond, k);
    }
  }

  /** Rows with assigned offsets follow each other. */
  ghost predicate RowsFollow(rows: seq<TerminalRow>) {
    && (forall i :: 0 <= i < |rows| ==> InColumnOrder(rows[i]))
    && (forall i, j :: 0 <= i < j < |rows| ==> rows[i].end <= rows[j].start)
  }

  function ClampedStart(selection: TerminalSelection, cols: int, rows: int): CellPoint {
    ClampPoint(NormalizeSelection(selection).start, cols, rows)
  }

  function ClampedEnd(selection: TerminalSelection, cols: int, rows: int): CellPoint {
    ClampPoint(NormalizeSelection(selection).end, cols, rows)
  }

  /** The span of a selection is in order unless both endpoints clamp to one row and a whole cluster lies between
      the clamped end column and the clamped start column. */
  lemma SpanOrdered(selection: TerminalSelection, cols: int, rows: seq<TerminalRow>)
    requires RowsFollow(rows) && rows != [] && cols > 0
    ensures var span := SpanOf(selection, cols, rows);
            var start, end := ClampedStart(selection, cols, |rows|), ClampedEnd(selection, cols, |rows|);
            && 0 <= span.start && 0 <= span.end <= rows[|rows| - 1].end
            && (span.start <= span.end <==>
                  !(start.row == end.row && ClusterBetween(rows[start.row], end.col, start.col)))
  {
    var start, end := ClampedStart(selection, cols, |rows|), ClampedEnd(selection, cols, |rows|);
    assert start.row <= end.row;
    BoundaryIsMonotone(rows[start.row], start.col, start.col, false);
    BoundaryIsMonotone(rows[end.row], end.col, end.col, true);
    if start.row == end.row {
      BoundariesCross(rows[start.row], end.col, start.col);
    }
  }

  /** So a selection whose endpoint rows are projected rows always yields an ordered span, whatever its direction
      and columns. */
  lemma SelectionInsideIsOrdered(selection: TerminalSelection, cols: int, rows: seq<TerminalRow>)
    requires RowsFollow(rows) && rows != [] && cols > 0
    requires 0 <= selection.start.row < |rows| && 0 <= selection.end.row < |rows|
    ensures SpanOf(selection, cols, rows).start <= SpanOf(selection, cols, rows).end
  {
    SpanOrdered(selection, cols, rows);
    var start, end := ClampedStart(selection, cols, |rows|), ClampedEnd(selection, cols, |rows|);
    if start.row == end.row {
      BoundaryIsMonotone(rows[start.row], start.col, end.col, true);
    }
  }
}
