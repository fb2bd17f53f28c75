/** What every document keeps: the limits, the totals, the tiling of its rows, the index, and an exact account
    of what a truncated document lost. */
module DocumentProperties {
  import opened Types
  import opened Utf8
  import opened Graphemes
  import opened DocumentSpec

  /** The number of pieces taken is the largest the budgets have room for. */
  lemma {:induction false} FitsIsMaximal(pieces: seq<Text>, graphemes: nat, utf8Bytes: nat)
    requires graphemes <= MAX_GRAPHEMES && utf8Bytes <= MAX_UTF8_BYTES
    ensures var k := Fits(pieces, graphemes, utf8Bytes);
            && graphemes + k <= MAX_GRAPHEMES
            && utf8Bytes + |Concat(pieces[..k])| <= MAX_UTF8_BYTES
            && (k < |pieces| ==>
                  graphemes + k == MAX_GRAPHEMES || utf8Bytes + |Concat(pieces[..k + 1])| > MAX_UTF8_BYTES)
  {
    var k := Fits(pieces, graphemes, utf8Bytes);
    assert Concat(pieces[..0]) == [];
    hide Concat;
    if k == 0 {
      if pieces != [] {
        ConcatFirst(pieces, 1);
        assert pieces[1..][..0] == pieces[..0];
      }
    } else {
      FitsIsMaximal(pieces[1..], graphemes + 1, utf8Bytes + |pieces[0]|);
      ConcatFirst(pieces, k);
      if k < |pieces| {
        ConcatFirst(pieces, k + 1);
      }
    }
  }

  lemma ConcatFirst(pieces: seq<Text>, k: nat)
    requires 0 < k <= |pieces|
    ensures Concat(pieces[..k]) == pieces[0] + Concat(pieces[1..][..k - 1])
  {
    assert pieces[..k] == [pieces[0]] + pieces[1..][..k - 1];
    ConcatAppend([pieces[0]], pieces[1..][..k - 1]);
    assert [pieces[0]] == [] + [pieces[0]];
    ConcatOne([], pieces[0]);
  }

  /** The graphemes of the rows with one separator after every hard row but the last, under no budget. */
  ghost function Unbudgeted(seg: Segmenter, drafts: seq<RowDraft>): seq<Text> {
    if drafts == [] then []
    else
      var before, last := drafts[..|drafts| - 1], drafts[|drafts| - 1];
      Unbudgeted(seg, before) + Separator(before) + seg(last.text)
  }

  ghost function Separator(before: seq<RowDraft>): seq<Text> {
    if |before| > 0 && !before[|before| - 1].softWrapped then [NEWLINE] else []
  }

  /** The rows cut the graphemes into consecutive stretches, with exactly one separator after a hard row. */
  ghost predicate Tiles(rows: seq<DocumentRow>, graphemes: seq<Text>) {
    && (rows == [] ==> graphemes == [])
    && (rows != [] ==> rows[0].start == 0 && rows[|rows| - 1].end == |graphemes|)
    && (forall i :: 0 <= i < |rows| ==> RowMatches(rows[i], graphemes))
    && (forall i :: 0 <= i < |rows| - 1 ==> Follows(rows[i], rows[i + 1], graphemes))
  }

  ghost predicate RowMatches(row: DocumentRow, graphemes: seq<Text>) {
    && row.start <= row.end <= |graphemes|
    && row.text == Concat(graphemes[row.start..row.end])
    && (row.bounds == [] || |row.bounds| == row.end - row.start)
    && (forall j :: row.start <= j < row.end ==> !HasLineBreak(graphemes[j]))
  }

  ghost predicate Follows(row: DocumentRow, next: DocumentRow, graphemes: seq<Text>) {
    if row.softWrapped then next.start == row.end
    else next.start == row.end + 1 && row.end < |graphemes| && graphemes[row.end] == NEWLINE
  }

  /** The state of a node under construction, in a document that had the totals `start`. */
  ghost predicate Counted(p: Progress, start: Totals) {
    && p.totals.WithinLimits()
    && p.totals.rows == start.rows + |p.rows|
    && p.totals.graphemes == start.graphemes + |p.graphemes|
    && p.totals.utf8Bytes == start.utf8Bytes + |Concat(p.graphemes)|
    && Tiles(p.rows, p.graphemes)
  }

  /** The first rows of a progress are the first drafts, up to text and bounds of a last one that was cut. */
  ghost predicate Copies(p: Progress, drafts: seq<RowDraft>) {
    && |p.rows| <= |drafts|
    && (forall i :: 0 <= i < |p.rows| ==>
           p.rows[i].softWrapped == drafts[i].softWrapped && p.rows[i].text <= drafts[i].text)
    && (forall i :: 0 <= i < |p.rows| - 1 ==> RowComplete(p.rows[i], drafts[i]))
  }

  ghost predicate RowComplete(row: DocumentRow, draft: RowDraft) {
    row.text == draft.text && row.bounds == draft.bounds && row.softWrapped == draft.softWrapped
  }

  ghost predicate AllRowsComplete(p: Progress, seg: Segmenter, drafts: seq<RowDraft>) {
    && |p.rows| == |drafts|
    && p.graphemes == Unbudgeted(seg, drafts)
    && forall i :: 0 <= i < |p.rows| ==> RowComplete(p.rows[i], drafts[i])
  }

  lemma {:induction false} ConcatContains(pieces: seq<Text>, i: nat, b: byte)
    requires i < |pieces| && b in pieces[i]
    ensures b in Concat(pieces)
    decreases |pieces|
  {
    if i < |pieces| - 1 {
      ConcatContains(pieces[..|pieces| - 1], i, b);
    }
  }

  lemma PiecesHaveNoBreak(seg: Segmenter, s: Text)
    requires !HasLineBreak(s)
    ensures forall i :: 0 <= i < |seg(s)| ==> !HasLineBreak(seg(s)[i])
  {
    SegmentLaws(seg, s);
    forall i | 0 <= i < |seg(s)|
      ensures !HasLineBreak(seg(s)[i])
    {
      if 0x0D in seg(s)[i] {
        ConcatContains(seg(s), i, 0x0D);
      }
      if 0x0A in seg(s)[i] {
        ConcatContains(seg(s), i, 0x0A);
      }
    }
  }

  lemma RowMatchesLater(row: DocumentRow, graphemes: seq<Text>, more: seq<Text>)
    requires RowMatches(row, graphemes)
    ensures RowMatches(row, graphemes + more)
  {
    assert (graphemes + more)[row.start..row.end] == graphemes[row.start..row.end];
  }

  /** Rows that follow each other go on doing so, and the next row follows the last. */
  lemma FollowsGrows(rows: seq<DocumentRow>, row: DocumentRow, graphemes: seq<Text>, more: seq<Text>)
    requires forall i :: 0 <= i < |rows| ==> rows[i].end <= |graphemes|
    requires forall i :: 0 <= i < |rows| - 1 ==> Follows(rows[i], rows[i + 1], graphemes)
    requires rows != [] ==> Follows(rows[|rows| - 1], row, graphemes + more)
    ensures forall i :: 0 <= i < |rows| ==> Follows((rows + [row])[i], (rows + [row])[i + 1], graphemes + more)
  {
    forall i | 0 <= i < |rows|
      ensures Follows((rows + [row])[i], (rows + [row])[i + 1], graphemes + more)
    {
      if i < |rows| - 1 {
        assert Follows(rows[i], rows[i + 1], graphemes);
      }
    }
  }

  /** The row added matches the graphemes taken for it, and follows the row before it. */
  lemma NewRowFits(p: Progress, draft: RowDraft, taken: seq<Text>, added: seq<Text>)
    requires Tiles(p.rows, p.graphemes)
    requires forall i :: 0 <= i < |taken| ==> !HasLineBreak(taken[i])
    requires draft.bounds == [] || |taken| <= |draft.bounds|
    requires added == if p.NeedsSeparator() then [NEWLINE] + taken else taken
    ensures var r := p.Separated().WithRow(draft, taken);
            && r.graphemes == p.graphemes + added
            && RowMatches(r.rows[|p.rows|], r.graphemes) && r.rows[|p.rows|].end == |r.graphemes|
            && if p.rows == [] then r.rows[0].start == 0
               else Follows(p.rows[|p.rows| - 1], r.rows[|p.rows|], r.graphemes)
  {
    hide Concat, HasLineBreak;
    var r := p.Separated().WithRow(draft, taken);
    var last := r.rows[|p.rows|];
    assert r.graphemes[last.start..last.end] == taken;
    if p.rows != [] {
      assert p.rows[|p.rows| - 1].end == |p.graphemes|;
    }
  }

  /** Appending a row, after the separator it needs, keeps the tiling. */
  lemma WithRowTiles(p: Progress, draft: RowDraft, taken: seq<Text>)
    requires Tiles(p.rows, p.graphemes)
    requires forall i :: 0 <= i < |taken| ==> !HasLineBreak(taken[i])
    requires draft.bounds == [] || |taken| <= |draft.bounds|
    ensures Tiles(p.Separated().WithRow(draft, taken).rows, p.Separated().WithRow(draft, taken).graphemes)
  {
    var r := p.Separated().WithRow(draft, taken);
    var added := if p.NeedsSeparator() then [NEWLINE] + taken else taken;
    NewRowFits(p, draft, taken, added);
    TilesParts(p.rows, p.graphemes);
    hide Tiles, RowMatches, Follows, Concat, HasLineBreak;
    forall i | 0 <= i < |p.rows|
      ensures RowMatches(p.rows[i], r.graphemes)
    {
      RowMatchesLater(p.rows[i], p.graphemes, added);
    }
    FollowsGrows(p.rows, r.rows[|p.rows|], p.graphemes, added);
    assert r.rows == p.rows + [r.rows[|p.rows|]];
    TilesMade(p.rows, r.rows[|p.rows|], r.graphemes);
  }

  lemma TilesParts(rows: seq<DocumentRow>, graphemes: seq<Text>)
    requires Tiles(rows, graphemes)
    ensures forall i :: 0 <= i < |rows| ==> RowMatches(rows[i], graphemes) && rows[i].end <= |graphemes|
    ensures forall i :: 0 <= i < |rows| - 1 ==> Follows(rows[i], rows[i + 1], graphemes)
    ensures rows != [] ==> rows[0].start == 0
  {
  }

  lemma TilesMade(rows: seq<DocumentRow>, row: DocumentRow, graphemes: seq<Text>)
    requires forall i :: 0 <= i < |rows| ==> RowMatches(rows[i], graphemes)
    requires RowMatches(row, graphemes) && row.end == |graphemes|
    requires (if rows == [] then row else rows[0]).start == 0
    requires forall i :: 0 <= i < |rows| ==> Follows((rows + [row])[i], (rows + [row])[i + 1], graphemes)
    ensures Tiles(rows + [row], graphemes)
  {
    hide RowMatches, Follows;
  }

  lemma SeparatedCounts(p: Progress, start: Totals)
    requires Counted(p, start)
    requires !(p.NeedsSeparator() && p.Full())
    ensures var q := p.Separated();
            && q.totals.WithinLimits()
            && q.totals.graphemes == start.graphemes + |q.graphemes|
            && q.totals.utf8Bytes == start.utf8Bytes + |Concat(q.graphemes)|
  {
    ConcatOne(p.graphemes, NEWLINE);
  }

  lemma AddRowCounts(seg: Segmenter, p: Progress, draft: RowDraft, start: Totals)
    requires Counted(p, start)
    ensures AddRow(seg, p, draft).Failed? || Counted(AddRow(seg, p, draft).progress, start)
  {
    hide Fits;
    hide Tiles;
    hide Concat;
    hide ValidUtf8;
    var q := p.Separated();
    var pieces := seg(draft.text);
    if p.totals.rows < MAX_ROWS && ValidUtf8(draft.text) && !HasLineBreak(draft.text)
       && !(p.NeedsSeparator() && p.Full()) {
      SeparatedCounts(p, start);
      FitsIsMaximal(pieces, q.totals.graphemes, q.totals.utf8Bytes);
      var k := Fits(pieces, q.totals.graphemes, q.totals.utf8Bytes);
      if BoundsMatch(draft.bounds, k, k == |pieces|) {
        PiecesHaveNoBreak(seg, draft.text);
        WithRowTiles(p, draft, pieces[..k]);
        ConcatAppend(q.graphemes, pieces[..k]);
      }
    }
  }

  lemma UnbudgetedAppend(seg: Segmenter, drafts: seq<RowDraft>, draft: RowDraft)
    ensures Unbudgeted(seg, drafts + [draft]) == Unbudgeted(seg, drafts) + Separator(drafts) + seg(draft.text)
  {
    assert (drafts + [draft])[..|drafts|] == drafts;
  }

  lemma SeparatedCopies(seg: Segmenter, p: Progress, drafts: seq<RowDraft>)
    requires AllRowsComplete(p, seg, drafts)
    ensures p.Separated().graphemes == Unbudgeted(seg, drafts) + Separator(drafts)
  {
    if |drafts| > 0 {
      assert RowComplete(p.rows[|drafts| - 1], drafts[|drafts| - 1]);
    }
  }

  /** The first `k` clusters of a row are the row when they are all of them. */
  lemma TakenText(seg: Segmenter, s: Text, k: nat)
    requires k <= |seg(s)|
    ensures Concat(seg(s)[..k]) <= s
    ensures k == |seg(s)| ==> Concat(seg(s)[..k]) == s
  {
    SegmentLaws(seg, s);
    var pieces := seg(s);
    assert pieces == pieces[..k] + pieces[k..];
    ConcatAppend(pieces[..k], pieces[k..]);
    assert pieces[..|pieces|] == pieces;
  }

  lemma WithRowCopies(seg: Segmenter, p: Progress, drafts: seq<RowDraft>, draft: RowDraft, k: nat)
    requires AllRowsComplete(p, seg, drafts) && k <= |seg(draft.text)|
    requires BoundsMatch(draft.bounds, k, k == |seg(draft.text)|)
    ensures var q, all := p.Separated().WithRow(draft, seg(draft.text)[..k]), drafts + [draft];
            && Copies(q, all)
            && q.graphemes <= Unbudgeted(seg, all)
            && if k == |seg(draft.text)| then AllRowsComplete(q, seg, all) else |q.graphemes| < |Unbudgeted(seg, all)|
  {
    hide Concat;
    hide Unbudgeted;
    hide Fits;
    var pieces := seg(draft.text);
    UnbudgetedAppend(seg, drafts, draft);
    SeparatedCopies(seg, p, drafts);
    TakenText(seg, draft.text, k);
    assert pieces == pieces[..k] + pieces[k..];
    assert draft.bounds[..|draft.bounds|] == draft.bounds;
    var q, all := p.Separated().WithRow(draft, pieces[..k]), drafts + [draft];
    forall i | 0 <= i < |drafts|
      ensures RowComplete(q.rows[i], all[i])
    {
      assert q.rows[i] == p.rows[i] && all[i] == drafts[i];
    }
  }

  /** What a row step leaves when it had not lost anything before. */
  ghost predicate Copied(seg: Segmenter, step: Step, drafts: seq<RowDraft>) {
    match step
    case Failed(_) => true
    case More(p) => Copies(p, drafts) && AllRowsComplete(p, seg, drafts)
    case Stopped(p) =>
      && Copies(p, drafts)
      && p.graphemes <= Unbudgeted(seg, drafts)
      && (|p.rows| < |drafts| || |p.graphemes| < |Unbudgeted(seg, drafts)|)
  }

  /** A row that was taken whole is complete; otherwise what was taken is a proper part of it. */
  lemma AddRowCopies(seg: Segmenter, p: Progress, drafts: seq<RowDraft>, draft: RowDraft)
    requires Copied(seg, More(p), drafts)
    ensures Copied(seg, AddRow(seg, p, draft), drafts + [draft])
  {
    var q := p.Separated();
    var k := Fits(seg(draft.text), q.totals.graphemes, q.totals.utf8Bytes);
    if BoundsMatch(draft.bounds, k, k == |seg(draft.text)|) {
      WithRowCopies(seg, p, drafts, draft, k);
    }
    StoppedCopies(seg, p, drafts, draft);
  }

  lemma StoppedCopies(seg: Segmenter, p: Progress, drafts: seq<RowDraft>, draft: RowDraft)
    requires Copies(p, drafts) && p.graphemes <= Unbudgeted(seg, drafts)
    ensures Copied(seg, Stopped(p), drafts + [draft])
  {
    UnbudgetedAppend(seg, drafts, draft);
    CopiesAppend(p, drafts, draft);
    assert Unbudgeted(seg, drafts) <= Unbudgeted(seg, drafts + [draft]);
  }

  lemma CopiesAppend(p: Progress, drafts: seq<RowDraft>, draft: RowDraft)
    requires Copies(p, drafts)
    ensures Copies(p, drafts + [draft])
  {
    forall i | 0 <= i < |p.rows|
      ensures (drafts + [draft])[i] == drafts[i]
    {
    }
  }

  lemma MoreIsLost(seg: Segmenter, p: Progress, drafts: seq<RowDraft>, draft: RowDraft)
    requires Copied(seg, Stopped(p), drafts)
    ensures Copied(seg, Stopped(p), drafts + [draft])
  {
    UnbudgetedAppend(seg, drafts, draft);
  }

  /** After any number of rows the totals stand, and what was kept is a prefix of what the rows hold; nothing is
      missing unless the loop stopped early, and then something is. */
  lemma {:induction false} AddRowsKeeps(seg: Segmenter, start: Totals, drafts: seq<RowDraft>, n: nat)
    requires n <= |drafts| && start.WithinLimits()
    ensures AddRows(seg, start, drafts, n).Failed? || Counted(AddRows(seg, start, drafts, n).progress, start)
    ensures Copied(seg, AddRows(seg, start, drafts, n), drafts[..n])
  {
    if n > 0 {
      AddRowsKeeps(seg, start, drafts, n - 1);
      var before, draft := drafts[..n - 1], drafts[n - 1];
      assert drafts[..n] == before + [draft];
      match AddRows(seg, start, drafts, n - 1)
      case Failed(_) =>
      case More(p) =>
        AddRowCounts(seg, p, draft, start);
        AddRowCopies(seg, p, before, draft);
      case Stopped(p) =>
        MoreIsLost(seg, p, before, draft);
    }
  }

  /** The node holds everything its draft says. */
  ghost predicate NodeComplete(seg: Segmenter, draft: NodeDraft, node: DocumentNode) {
    && node.name == draft.name
    && node.graphemes == Unbudgeted(seg, draft.rows)
    && |node.rows| == |draft.rows|
    && (forall i :: 0 <= i < |node.rows| ==> RowComplete(node.rows[i], draft.rows[i]))
    && (draft.caret.Some? ==> node.caret == draft.caret.value)
    && (draft.selection.Some? ==> node.selection == draft.selection.value)
  }

  /** What holds of every node, complete or not: it never says anything its draft does not. */
  ghost predicate NodeSound(seg: Segmenter, draft: NodeDraft, node: DocumentNode) {
    && node.id == draft.id && node.parent == draft.parent && node.role == draft.role
    && node.name <= draft.name
    && node.text == Concat(node.graphemes)
    && node.graphemes <= Unbudgeted(seg, draft.rows)
    && node.text <= Concat(Unbudgeted(seg, draft.rows))
    && Tiles(node.rows, node.graphemes)
    && |node.rows| <= |draft.rows|
    && (forall i :: 0 <= i < |node.rows| - 1 ==> RowComplete(node.rows[i], draft.rows[i]))
    && node.hasCaret == draft.caret.Some?
    && 0 <= node.caret <= |node.graphemes|
    && node.caret == (if draft.caret.Some? then Min(draft.caret.value, |node.graphemes|) else 0)
    && node.hasSelect == draft.selection.Some?
    && node.selection.Valid(|node.graphemes|)
    && node.selection
       == (if draft.selection.Some? then Clipped(draft.selection.value, |node.graphemes|) else Span(0, 0))
  }

  /** A selection that ends by the limit. */
  function Clipped(selection: Span, limit: int): Span {
    Span(Min(selection.start, limit), Min(selection.end, limit))
  }

  lemma BuildNodeKeeps(seg: Segmenter, start: Totals, draft: NodeDraft)
    requires start.WithinLimits()
    requires BuildNode(seg, start, draft).Ok?
    ensures var built := BuildNode(seg, start, draft).value;
            && built.totals.WithinLimits()
            && built.totals.rows == start.rows + |built.node.rows|
            && built.totals.graphemes == start.graphemes + |built.node.graphemes|
            && built.totals.utf8Bytes == start.utf8Bytes + |built.node.text|
            && NodeSound(seg, draft, built.node)
            && built.node.name == draft.name
            && (built.stopped <==> !NodeComplete(seg, draft, built.node))
  {
    hide AddRows, Tiles, Concat, Unbudgeted, RowComplete;
    var n := |draft.rows|;
    AddRowsKeeps(seg, start, draft.rows, n);
    assert draft.rows[..n] == draft.rows;
    var p := AddRows(seg, start, draft.rows, n).progress;
    var full := Unbudgeted(seg, draft.rows);
    assert p.graphemes <= full;
    assert full == p.graphemes + full[|p.graphemes|..];
    ConcatAppend(p.graphemes, full[|p.graphemes|..]);
  }

  ghost function SumTotals(nodes: seq<DocumentNode>): Totals {
    if nodes == [] then Totals(0, 0, 0)
    else
      var t, last := SumTotals(nodes[..|nodes| - 1]), nodes[|nodes| - 1];
      Totals(t.rows + |last.rows|, t.graphemes + |last.graphemes|, t.utf8Bytes + |last.name| + |last.text|)
  }

  /** The index maps each node's identity to its position and nothing else. */
  ghost predicate Indexed(nodes: seq<DocumentNode>, index: map<NodeID, nat>) {
    && (forall i :: 0 <= i < |nodes| ==> nodes[i].id in index && index[nodes[i].id] == i)
    && (forall id :: id in index ==> id.Valid() && index[id] < |nodes| && nodes[index[id]].id == id)
  }

  /** The first node is the root; every other node comes after its parent. */
  ghost predicate ParentsFirst(nodes: seq<DocumentNode>) {
    && (nodes != [] ==> nodes[0].parent == NO_NODE)
    && forall i :: 1 <= i < |nodes| ==> exists j :: 0 <= j < i && nodes[j].id == nodes[i].parent
  }

  ghost predicate NodeWellFormed(node: DocumentNode) {
    && node.id.Valid()
    && node.text == Concat(node.graphemes)
    && Tiles(node.rows, node.graphemes)
    && 0 <= node.caret <= |node.graphemes|
    && node.selection.Valid(|node.graphemes|)
  }

  ghost predicate PartialInv(seg: Segmenter, d: Partial, drafts: seq<NodeDraft>, n: nat, truncated: bool)
    requires n <= |drafts|
  {
    && |d.nodes| == n
    && d.totals.WithinLimits() && d.totals == SumTotals(d.nodes)
    && Indexed(d.nodes, d.index) && ParentsFirst(d.nodes)
    && AllSound(seg, d.nodes, drafts)
    && (d.truncated <==> truncated || SomethingLost(seg, d.nodes, drafts))
  }

  ghost predicate AllSound(seg: Segmenter, nodes: seq<DocumentNode>, drafts: seq<NodeDraft>)
    requires |nodes| <= |drafts|
  {
    forall i :: 0 <= i < |nodes| ==> NodeWellFormed(nodes[i]) && NodeSound(seg, drafts[i], nodes[i])
  }

  ghost predicate SomethingLost(seg: Segmenter, nodes: seq<DocumentNode>, drafts: seq<NodeDraft>)
    requires |nodes| <= |drafts|
  {
    exists i :: 0 <= i < |nodes| && !NodeComplete(seg, drafts[i], nodes[i])
  }

  lemma NamedKeeps(draft: NodeDraft, totals: Totals)
    requires totals.WithinLimits() && ValidUtf8(draft.name)
    ensures var named := NamedDraft(draft, totals);
            && named.name <= draft.name && ValidUtf8(named.name)
            && totals.utf8Bytes + |named.name| <= MAX_UTF8_BYTES
            && (named.name == draft.name <==> |draft.name| <= MAX_UTF8_BYTES - totals.utf8Bytes)
            && named == draft.(name := named.name)
  {
    ShortenedIsLongest(draft.name, MAX_UTF8_BYTES - totals.utf8Bytes, []);
  }

  /** The node an accepted draft adds: sound, and complete exactly when neither name nor rows were cut. */
  lemma AddedNode(seg: Segmenter, d: Partial, draft: NodeDraft, position: nat, projection: uint64)
    requires d.totals.WithinLimits() && d.totals == SumTotals(d.nodes)
    requires AddNode(seg, d, draft, position, projection).Ok?
    ensures var e := AddNode(seg, d, draft, position, projection).value;
            && |e.nodes| == |d.nodes| + 1 && e.nodes[..|d.nodes|] == d.nodes
            && e.index == d.index[draft.id := |d.nodes|]
            && e.totals.WithinLimits() && e.totals == SumTotals(e.nodes)
            && NodeWellFormed(e.nodes[|d.nodes|]) && NodeSound(seg, draft, e.nodes[|d.nodes|])
            && (e.truncated <==> d.truncated || !NodeComplete(seg, draft, e.nodes[|d.nodes|]))
  {
    var named := NamedDraft(draft, d.totals);
    NamedKeeps(draft, d.totals);
    BuildNodeKeeps(seg, Charged(d.totals, named), named);
    var e := AddNode(seg, d, draft, position, projection).value;
    assert e.nodes[..|d.nodes|] == d.nodes;
  }

  lemma IndexGrows(nodes: seq<DocumentNode>, index: map<NodeID, nat>, node: DocumentNode)
    requires Indexed(nodes, index) && ParentsFirst(nodes)
    requires node.id.Valid() && node.id !in index
    requires if nodes == [] then node.parent == NO_NODE else node.parent in index
    ensures Indexed(nodes + [node], index[node.id := |nodes|]) && ParentsFirst(nodes + [node])
  {
    var all := nodes + [node];
    forall i | 1 <= i < |all|
      ensures exists j :: 0 <= j < i && all[j].id == all[i].parent
    {
      if i < |nodes| {
        var j :| 0 <= j < i && nodes[j].id == nodes[i].parent;
        assert all[j].id == all[i].parent;
      } else {
        assert all[index[node.parent]].id == all[i].parent;
      }
    }
  }

  lemma SoundGrows(seg: Segmenter, nodes: seq<DocumentNode>, node: DocumentNode, drafts: seq<NodeDraft>)
    requires |nodes| < |drafts| && AllSound(seg, nodes, drafts)
    requires NodeWellFormed(node) && NodeSound(seg, drafts[|nodes|], node)
    ensures AllSound(seg, nodes + [node], drafts)
  {
    forall i | 0 <= i < |nodes| + 1
      ensures NodeWellFormed((nodes + [node])[i]) && NodeSound(seg, drafts[i], (nodes + [node])[i])
    {
      if i < |nodes| {
        assert (nodes + [node])[i] == nodes[i];
      }
    }
  }

  lemma LossGrows(seg: Segmenter, nodes: seq<DocumentNode>, node: DocumentNode, drafts: seq<NodeDraft>)
    requires |nodes| < |drafts|
    ensures SomethingLost(seg, nodes + [node], drafts)
       <==> SomethingLost(seg, nodes, drafts) || !NodeComplete(seg, drafts[|nodes|], node)
  {
    var all := nodes + [node];
    assert all[|nodes|] == node;
    assert forall i :: 0 <= i < |nodes| ==> all[i] == nodes[i];
    if i :| 0 <= i < |nodes| && !NodeComplete(seg, drafts[i], nodes[i]) {
      assert !NodeComplete(seg, drafts[i], all[i]);
    }
  }

  lemma AcceptedIdentity(seg: Segmenter, d: Partial, draft: NodeDraft, position: nat, projection: uint64)
    requires AddNode(seg, d, draft, position, projection).Ok?
    ensures draft.id.Valid() && draft.id !in d.index
    ensures if position == 0 then draft.parent == NO_NODE else draft.parent in d.index
  {
  }

  lemma PartialGrows(seg: Segmenter, d: Partial, drafts: seq<NodeDraft>, n: nat, truncated: bool, projection: uint64)
    requires n < |drafts| && PartialInv(seg, d, drafts, n, truncated)
    requires AddNode(seg, d, drafts[n], n, projection).Ok?
    ensures PartialInv(seg, AddNode(seg, d, drafts[n], n, projection).value, drafts, n + 1, truncated)
  {
    var e := AddNode(seg, d, drafts[n], n, projection).value;
    AddedNode(seg, d, drafts[n], n, projection);
    AcceptedIdentity(seg, d, drafts[n], n, projection);
    var node := e.nodes[n];
    assert e.nodes == d.nodes + [node];
    IndexGrows(d.nodes, d.index, node);
    SoundGrows(seg, d.nodes, node, drafts);
    LossGrows(seg, d.nodes, node, drafts);
  }

  lemma {:induction false} AddNodesKeeps(seg: Segmenter, drafts: seq<NodeDraft>, n: nat, truncated: bool)
    requires n <= |drafts| && AddNodes(seg, drafts, n, truncated).Ok?
    ensures PartialInv(seg, AddNodes(seg, drafts, n, truncated).value, drafts, n, truncated)
  {
    NothingYet(seg, drafts, truncated);
    hide AddNode, PartialInv;
    if n > 0 {
      AddNodesKeeps(seg, drafts, n - 1, truncated);
      PartialGrows(seg, AddNodes(seg, drafts, n - 1, truncated).value, drafts, n - 1, truncated,
                   drafts[0].id.projection);
    }
  }

  lemma NothingYet(seg: Segmenter, drafts: seq<NodeDraft>, truncated: bool)
    ensures PartialInv(seg, Partial([], map[], Totals(0, 0, 0), truncated), drafts, 0, truncated)
  {
  }

  /** Everything the rest of the package relies on. */
  ghost predicate WellFormed(document: Document) {
    && document.providerID != 0
    && 1 <= |document.nodes| <= MAX_NODES
    && Totals(document.rows, document.graphemes, document.utf8Bytes) == SumTotals(document.nodes)
    && SumTotals(document.nodes).WithinLimits()
    && Indexed(document.nodes, document.index) && ParentsFirst(document.nodes)
    && (forall i :: 0 <= i < |document.nodes| ==> NodeWellFormed(document.nodes[i]))
    && (document.focus == NO_NODE || document.focus in document.index)
  }

  /** Every document is well formed, each of its nodes is sound for its draft, the focus is the draft's unless nodes
      were left out, and it is marked truncated exactly when the draft was or something of the draft is missing. */
  lemma CompileKeeps(seg: Segmenter, draft: DocumentDraft)
    requires Compile(seg, draft).Ok?
    ensures var document := Compile(seg, draft).value;
            && WellFormed(document)
            && document.providerID == draft.providerID && document.generation == draft.generation
            && (document.focus == draft.focus || (document.focus == NO_NODE && |draft.nodes| > MAX_NODES))
            && |document.nodes| == KeptNodes(draft)
            && AllSound(seg, document.nodes, draft.nodes)
            && (document.truncated <==>
                  || draft.truncated || |document.nodes| < |draft.nodes|
                  || SomethingLost(seg, document.nodes, draft.nodes))
  {
    AddNodesKeeps(seg, draft.nodes, KeptNodes(draft), draft.truncated || |draft.nodes| > MAX_NODES);
  }
}
