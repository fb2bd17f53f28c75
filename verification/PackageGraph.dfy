/** The package graph report: the import graph and the number of its cyclic components. */
module PackageGraph {
  import opened Reachability
  import opened Components
  import opened ComponentSearch
  import opened EdgeLines

  method HasEdgeTo(successors: seq<Node>, node: Node) returns (self: bool)
    ensures self <==> node in successors
  {
    self := false;
    for k := 0 to |successors|
      invariant self <==> node in successors[..k]
    {
      self := self || successors[k] == node;
    }
  }

  /** A visit keeps the nodes that were numbered and numbers its own. */
  lemma VisitedNumbers(adj: Adjacency, s: SearchState, t: SearchState, node: Node)
    requires t.Visited(adj, s, node)
    ensures s.indices.Keys + {node} <= t.indices.Keys && node in t.low
    ensures forall n :: n in s.low ==> n in t.low
  {
    hide SearchState.Covers, SearchState.Attained;
  }

  /** What one step of the successor loop reads of the invariant. */
  lemma SearchKnows(adj: Adjacency, nodes: set<Node>, earlier: SearchState, s: SearchState, grays: set<Node>,
                    node: Node, k: nat)
    requires Closed(adj, nodes) && node in nodes && k < |Successors(adj, node)|
    requires earlier.Inv(adj, nodes, grays) && s.Inv(adj, nodes, grays + {node}) && s.Scanned(adj, earlier, node, k)
    ensures earlier.StackSorted() && s.StackSorted() && node in s.indices && s.indices[node] < s.index
    ensures node in s.low && s.indices.Keys <= nodes && node in s.indices && s.low.Keys == s.indices.Keys
    ensures Successors(adj, node)[k] in nodes && Successors(adj, node)[k] in Successors(adj, node)
  {
    hide SearchState.Attained, SearchState.Covers, SearchState.BoundsSuccessors, SearchState.StackSorted,
         SearchState.GrayReachesUp, SearchState.StackReachesGray, SearchState.ClosedAndCounted;
  }

  /** One depth-first search over the package graph; its fields are what the nested visit function shares. */
  class CycleSearch {
    const adj: Adjacency
    ghost const nodes: set<Node>

    var index: nat
    var indices: map<Node, nat>
    var low: map<Node, nat>
    var onStack: map<Node, bool>
    var stack: seq<Node>
    var cycles: nat

    constructor (adj: Adjacency, ghost nodes: set<Node>)
      ensures this.adj == adj && this.nodes == nodes
      ensures State() == SearchState(0, map[], map[], map[], [], 0)
    {
      this.adj, this.nodes := adj, nodes;
      index, indices, low, onStack, stack, cycles := 0, map[], map[], map[], [], 0;
    }

    function State(): SearchState
      reads this
    {
      SearchState(index, indices, low, onStack, stack, cycles)
    }

    /** Visits a node not yet numbered, with the visits of `grays` open. */
    method Visit(node: Node, ghost grays: set<Node>)
      requires Closed(adj, nodes) && State().Inv(adj, nodes, grays)
      requires node in nodes && node !in indices
      requires forall g :: g in grays ==> Reach(adj, g, node)
      modifies this
      ensures State().Inv(adj, nodes, grays)
      ensures State().Visited(adj, old(State()), node)
      decreases nodes - indices.Keys, 0
    {
      ghost var earlier := State();
      indices, low := indices[node := index], low[node := index];
      index := index + 1;
      stack := stack + [node];
      onStack := onStack[node := true];
      assert State() == Pushed(earlier, node);
      VisitBegins(adj, nodes, earlier, grays, node);
      Scan(node, grays, earlier);
      ghost var scanned := State();
      if low[node] != indices[node] {
        VisitEndsLow(adj, nodes, earlier, scanned, grays, node);
        return;
      }
      PopComponent(node, earlier.stack);
      VisitEndsRoot(adj, nodes, earlier, scanned, State(), grays, node, scanned.stack[|earlier.stack|..]);
    }

    /** The loop of a visit over the successors of its node. */
    method Scan(node: Node, ghost grays: set<Node>, ghost earlier: SearchState)
      requires Closed(adj, nodes) && node in nodes && node !in grays && earlier.Inv(adj, nodes, grays)
      requires State().Inv(adj, nodes, grays + {node})
      requires State().Scanned(adj, earlier, node, 0)
      requires forall g :: g in grays ==> Reach(adj, g, node)
      modifies this
      ensures State().Inv(adj, nodes, grays + {node})
      ensures State().Scanned(adj, earlier, node, |Successors(adj, node)|)
      decreases nodes - indices.Keys, 3
    {
      hide SearchState.Inv, SearchState.Scanned, Closed, Reach;
      for k := 0 to |Successors(adj, node)|
        invariant old(indices).Keys <= indices.Keys
        invariant State().Inv(adj, nodes, grays + {node})
        invariant State().Scanned(adj, earlier, node, k)
      {
        Follow(node, k, grays, earlier);
      }
    }

    /** One step of that loop. */
    method Follow(node: Node, k: nat, ghost grays: set<Node>, ghost earlier: SearchState)
      requires Closed(adj, nodes) && node in nodes && node !in grays && earlier.Inv(adj, nodes, grays)
      requires k < |Successors(adj, node)|
      requires State().Inv(adj, nodes, grays + {node})
      requires State().Scanned(adj, earlier, node, k)
      requires forall g :: g in grays ==> Reach(adj, g, node)
      modifies this
      ensures State().Inv(adj, nodes, grays + {node})
      ensures State().Scanned(adj, earlier, node, k + 1)
      ensures old(indices).Keys <= indices.Keys
      decreases nodes - indices.Keys, 2
    {
      var next := Successors(adj, node)[k];
      if next !in indices {
        FollowNew(node, k, grays, earlier);
      } else {
        FollowSeen(node, k, grays, earlier);
      }
    }

    /** The step for a successor not yet numbered. */
    method FollowNew(node: Node, k: nat, ghost grays: set<Node>, ghost earlier: SearchState)
      requires Closed(adj, nodes) && node in nodes && node !in grays && earlier.Inv(adj, nodes, grays)
      requires k < |Successors(adj, node)|
      requires Successors(adj, node)[k] !in indices
      requires State().Inv(adj, nodes, grays + {node})
      requires State().Scanned(adj, earlier, node, k)
      requires forall g :: g in grays ==> Reach(adj, g, node)
      modifies this
      ensures State().Inv(adj, nodes, grays + {node})
      ensures State().Scanned(adj, earlier, node, k + 1)
      ensures old(indices).Keys <= indices.Keys
      decreases nodes - indices.Keys, 1
    {
      var next := Successors(adj, node)[k];
      ghost var before := State();
      SearchKnows(adj, nodes, earlier, before, grays, node, k);
      hide SearchState.Inv, SearchState.Scanned, SearchState.Visited, SearchState.StackSorted, Closed, Reach,
           Successors;
      GraysReach(adj, grays, node, next);
      Visit(next, grays + {node});
      ghost var after := State();
      VisitedNumbers(adj, before, after, next);
      TakeOver(node, next);
      StepVisited(adj, nodes, earlier, before, after, State(), grays + {node}, node, k);
    }

    /** The low link of a successor is taken over if it is lower. */
    method TakeOver(node: Node, next: Node)
      requires node in low && next in low
      modifies this`low
      ensures State() == old(State()).(low := old(low)[node := Min(old(low)[node], old(low)[next])])
    {
      low := low[node := Min(low[node], low[next])];
    }

    /** The step for a successor seen before, on the stack or in a closed component. */
    method FollowSeen(node: Node, k: nat, ghost grays: set<Node>, ghost earlier: SearchState)
      requires Closed(adj, nodes) && node in nodes && node !in grays && earlier.Inv(adj, nodes, grays)
      requires k < |Successors(adj, node)|
      requires Successors(adj, node)[k] in indices
      requires State().Inv(adj, nodes, grays + {node})
      requires State().Scanned(adj, earlier, node, k)
      requires forall g :: g in grays ==> Reach(adj, g, node)
      modifies this
      ensures State().Inv(adj, nodes, grays + {node})
      ensures State().Scanned(adj, earlier, node, k + 1)
      ensures old(indices).Keys <= indices.Keys
    {
      var next := Successors(adj, node)[k];
      ghost var before := State();
      SearchKnows(adj, nodes, earlier, before, grays, node, k);
      hide SearchState.Inv, SearchState.Scanned, Closed, Reach, Successors;
      if next in onStack && onStack[next] {
        low := low[node := Min(low[node], indices[next])];
      }
      StepSeen(adj, nodes, earlier, before, State(), grays + {node}, node, k);
    }

    /** The loop that pops a closed component off the stack and counts it if it holds a cycle. */
    method PopComponent(node: Node, ghost base: seq<Node>)
      requires base + [node] <= stack
      requires State().StackSorted()
      requires forall n :: State().OnStack(n) <==> n in stack
      modifies this
      ensures Popped(State(), old(State()), adj, base, old(stack)[|base|..])
    {
      ghost var entry := State();
      var size, self := 0, false;
      while true
        invariant PartlyPopped(State(), entry, |stack|) && |base| < |stack|
        invariant size == |entry.stack| - |stack|
        invariant !self
        decreases |stack|
      {
        var last := stack[|stack| - 1];
        ghost var before := State();
        stack := stack[..|stack| - 1];
        onStack := onStack[last := false];
        size := size + 1;
        PopTop(before, State(), entry);
        BaseFound(entry, base, node, |stack|);
        if last == node {
          self := HasEdgeTo(Successors(adj, last), last);
          break;
        }
      }
      ghost var emptied := State();
      if size > 1 || self {
        cycles := cycles + 1;
      }
      AllPopped(adj, emptied, entry, base, node, size, self);
    }
  }

  lemma NothingSearched(adj: Adjacency, nodes: set<Node>)
    ensures SearchState(0, map[], map[], map[], [], 0).Inv(adj, nodes, {})
  {
    var s := SearchState(0, map[], map[], map[], [], 0);
    assert s.Done() == {};
    assert CyclicComponents(adj, nodes, {}) == {};
  }

  /** With no visit open every component has been closed. */
  lemma StackEndsEmpty(adj: Adjacency, nodes: set<Node>, s: SearchState)
    requires s.Inv(adj, nodes, {})
    ensures s.stack == [] && s.Done() == s.indices.Keys
  {
    if s.stack != [] {
      var reached := s.ReachesGray(adj, {}, s.stack[0]);
      assert false;
    }
  }

  /** Counts the strongly connected components that hold a cycle, visiting the nodes in the order given. The
      source sorts the names first; the count is the same for every order. */
  method StronglyConnectedCycles(ghost nodes: set<Node>, adj: Adjacency, ordered: seq<Node>) returns (cycles: nat)
    requires Elements(ordered) == nodes
    requires Closed(adj, nodes)
    ensures cycles == |CyclicComponents(adj, nodes, nodes)|
    ensures cycles == 0 <==> Acyclic(adj, nodes)
  {
    var search := new CycleSearch(adj, nodes);
    NothingSearched(adj, nodes);
    hide SearchState.Inv, SearchState.Visited, Closed, Reach, Acyclic, CyclicComponents;
    for k := 0 to |ordered|
      invariant search.adj == adj && search.nodes == nodes
      invariant fresh(search)
      invariant search.State().Inv(adj, nodes, {})
      invariant forall j :: 0 <= j < k ==> ordered[j] in search.indices
    {
      var node := ordered[k];
      if node !in search.indices {
        ghost var before := search.State();
        assert node in Elements(ordered);
        search.Visit(node, {});
        VisitedNumbers(adj, before, search.State(), node);
      }
    }
    AllNumbered(adj, nodes, search.State(), ordered);
    cycles := search.cycles;
    NoCycleIffAcyclic(adj, nodes);
  }

  /** When every node is numbered and no visit is open, the counter is that of all cyclic components. */
  lemma AllNumbered(adj: Adjacency, nodes: set<Node>, s: SearchState, ordered: seq<Node>)
    requires s.Inv(adj, nodes, {}) && Elements(ordered) == nodes
    requires forall j :: 0 <= j < |ordered| ==> ordered[j] in s.indices
    ensures s.cycles == |CyclicComponents(adj, nodes, nodes)|
  {
    StackEndsEmpty(adj, nodes, s);
    InvParts(adj, nodes, s);
    hide SearchState.Inv, CyclicComponents;
    forall n | n in nodes
      ensures n in s.indices
    {
      assert n in ordered;
    }
    assert s.Done() == nodes;
  }

  lemma InvParts(adj: Adjacency, nodes: set<Node>, s: SearchState)
    requires s.Inv(adj, nodes, {})
    ensures s.indices.Keys <= nodes && s.cycles == |CyclicComponents(adj, nodes, s.Done())|
  {
    hide CyclicComponents, Closed, Reach;
  }

  /** A local import, from one package to another. */
  datatype Edge = Edge(from: Node, to: Node)

  datatype GraphResult = Graph(adj: Adjacency, lines: seq<string>) | MissingPackage(edge: Edge)

  /** What the report says: how many packages, the distinct edge lines in order, and how many cyclic components;
      `adj` is the graph it was made from. */
  datatype ReportResult = Report(adj: Adjacency, packages: nat, lines: seq<string>, cycles: nat) | Rejected(edge: Edge)

  function LineOf(edge: Edge): string {
    edge.from + " -> " + edge.to
  }

  /** The lines are those of the edges, the importing package before the imported one, each once and in order. */
  ghost predicate ReportsEdges(lines: seq<string>, parsedEdges: seq<Edge>) {
    && Sorted(lines) && Distinct(lines)
    && forall line :: line in lines <==> exists e :: e in parsedEdges && line == e.from + " -> " + e.to
  }

  ghost predicate HasEdges(adj: Adjacency, parsedEdges: seq<Edge>) {
    forall x, y :: y in Successors(adj, x) <==> Edge(x, y) in parsedEdges
  }

  predicate TargetsIn(members: set<Node>, parsedEdges: seq<Edge>, k: nat)
    requires k <= |parsedEdges|
  {
    forall j :: 0 <= j < k ==> parsedEdges[j].to in members
  }

  /** The first edge that does not end in a member. */
  ghost predicate FirstMissing(members: set<Node>, parsedEdges: seq<Edge>, edge: Edge) {
    exists i :: 0 <= i < |parsedEdges| && parsedEdges[i] == edge && edge.to !in members
                && TargetsIn(members, parsedEdges, i)
  }

  lemma NoTargets(members: set<Node>, parsedEdges: seq<Edge>)
    ensures TargetsIn(members, parsedEdges, 0)
  {
  }

  lemma TargetsGrow(members: set<Node>, parsedEdges: seq<Edge>, k: nat)
    requires k < |parsedEdges| && TargetsIn(members, parsedEdges, k) && parsedEdges[k].to in members
    ensures TargetsIn(members, parsedEdges, k + 1)
  {
  }

  lemma MissingFound(members: set<Node>, parsedEdges: seq<Edge>, k: nat)
    requires k < |parsedEdges| && TargetsIn(members, parsedEdges, k) && parsedEdges[k].to !in members
    ensures FirstMissing(members, parsedEdges, parsedEdges[k])
    ensures !forall e :: e in parsedEdges ==> e.to in members
  {
    hide TargetsIn;
    assert parsedEdges[k] in parsedEdges;
  }

  /** The adjacency lists of the imports, or the first import of a package that has no scored file. */
  method BuildGraph(members: set<Node>, parsedEdges: seq<Edge>) returns (result: GraphResult)
    requires forall e :: e in parsedEdges ==> e.from in members
    ensures result.Graph? <==> forall e :: e in parsedEdges ==> e.to in members
    ensures result.Graph? ==>
              && Closed(result.adj, members)
              && HasEdges(result.adj, parsedEdges)
              && |result.lines| == |parsedEdges|
              && forall i :: 0 <= i < |parsedEdges| ==>
                   result.lines[i] == LineOf(parsedEdges[i])
    ensures result.MissingPackage? ==> FirstMissing(members, parsedEdges, result.edge)
  {
    var adj: Adjacency := map[];
    var lines := [];
    assert HasEdges(adj, []) && parsedEdges[..0] == [];
    NoTargets(members, parsedEdges);
    hide HasEdges, Closed, LineOf, Successors, TargetsIn, FirstMissing;
    for k := 0 to |parsedEdges|
      invariant TargetsIn(members, parsedEdges, k)
      invariant HasEdges(adj, parsedEdges[..k])
      invariant |lines| == k
      invariant forall i :: 0 <= i < k ==> lines[i] == LineOf(parsedEdges[i])
    {
      var edge := parsedEdges[k];
      if edge.to !in members {
        MissingFound(members, parsedEdges, k);
        return MissingPackage(edge);
      }
      TargetsGrow(members, parsedEdges, k);
      EdgeAdded(adj, parsedEdges, k);
      adj := adj[edge.from := Successors(adj, edge.from) + [edge.to]];
      lines := lines + [LineOf(edge)];
    }
    assert parsedEdges[..|parsedEdges|] == parsedEdges;
    EdgesClosed(adj, members, parsedEdges);
    result := Graph(adj, lines);
  }

  lemma EdgeAdded(adj: Adjacency, parsedEdges: seq<Edge>, k: nat)
    requires k < |parsedEdges| && HasEdges(adj, parsedEdges[..k])
    ensures var edge := parsedEdges[k];
            HasEdges(adj[edge.from := Successors(adj, edge.from) + [edge.to]], parsedEdges[..k + 1])
  {
    var edge := parsedEdges[k];
    var after := adj[edge.from := Successors(adj, edge.from) + [edge.to]];
    assert parsedEdges[..k + 1] == parsedEdges[..k] + [edge];
    forall x, y
      ensures y in Successors(after, x) <==> y in Successors(adj, x) || Edge(x, y) == edge
    {
    }
  }

  lemma EdgesClosed(adj: Adjacency, members: set<Node>, parsedEdges: seq<Edge>)
    requires HasEdges(adj, parsedEdges) && TargetsIn(members, parsedEdges, |parsedEdges|)
    ensures Closed(adj, members) && forall e :: e in parsedEdges ==> e.to in members
  {
    forall x, y | x in members && y in Successors(adj, x)
      ensures y in members
    {
      var j :| 0 <= j < |parsedEdges| && parsedEdges[j] == Edge(x, y);
    }
  }

  lemma ReportedLines(lines: seq<string>, parsedEdges: seq<Edge>)
    requires |lines| == |parsedEdges| && forall i :: 0 <= i < |lines| ==> lines[i] == LineOf(parsedEdges[i])
    ensures ReportsEdges(Compacted(SortLines(lines)), parsedEdges)
  {
    CompactedLines(lines);
    hide SortLines, Compacted, Sorted, Distinct;
    var reported := Compacted(SortLines(lines));
    forall line | line in reported
      ensures exists e :: e in parsedEdges && line == e.from + " -> " + e.to
    {
      assert line in Elements(reported) && line in Elements(lines);
      var i :| 0 <= i < |lines| && lines[i] == line;
      assert parsedEdges[i] in parsedEdges;
    }
    forall e | e in parsedEdges
      ensures LineOf(e) in reported
    {
      var i :| 0 <= i < |parsedEdges| && parsedEdges[i] == e;
      assert lines[i] == LineOf(e);
      assert LineOf(e) in Elements(lines) && LineOf(e) in Elements(reported);
    }
  }

  /** The report: the packages, the edge lines and the number of cyclic components of the import graph, unless some
      local import names a package without a scored file. */
  method WritePackageGraph(members: set<Node>, parsedEdges: seq<Edge>, ordered: seq<Node>)
    returns (result: ReportResult)
    requires forall e :: e in parsedEdges ==> e.from in members
    requires Elements(ordered) == members
    ensures result.Report? <==> forall e :: e in parsedEdges ==> e.to in members
    ensures result.Report? ==>
              && HasEdges(result.adj, parsedEdges)
              && result.packages == |members|
              && ReportsEdges(result.lines, parsedEdges)
              && result.cycles == |CyclicComponents(result.adj, members, members)|
              && (result.cycles == 0 <==> Acyclic(result.adj, members))
    ensures result.Rejected? ==> FirstMissing(members, parsedEdges, result.edge)
  {
    hide ReportsEdges, FirstMissing, HasEdges, CyclicComponents, Acyclic, Closed, SortLines, Compacted;
    var graph := BuildGraph(members, parsedEdges);
    match graph
    case MissingPackage(edge) =>
      result := Rejected(edge);
    case Graph(adj, lines) =>
      var sorted := SortLines(lines);
      var store := new string[|sorted|](i requires 0 <= i < |sorted| => sorted[i]);
      assert store[..] == sorted;
      var n := Compact(store);
      ReportedLines(lines, parsedEdges);
      var cycles := StronglyConnectedCycles(members, adj, ordered);
      result := Report(adj, |members|, store[..n], cycles);
  }
}
