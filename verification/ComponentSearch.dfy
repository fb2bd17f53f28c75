/** The state of the depth-first search for components, its invariant, and what each step of a visit keeps. */
module ComponentSearch {
  import opened Reachability
  import opened Components

  function Min(a: nat, b: nat): nat {
    if a < b then a else b
  }

  /** The variables one search shares between the calls of its visit function. */
  datatype SearchState = SearchState(
    index: nat,
    indices: map<Node, nat>,
    low: map<Node, nat>,
    onStack: map<Node, bool>,
    stack: seq<Node>,
    cycles: nat)
  {
    predicate OnStack(n: Node) {
      n in onStack && onStack[n]
    }

    /** Nodes whose component has been closed. */
    ghost function Done(): set<Node> {
      set n | n in indices && n !in stack
    }

    /** The bookkeeping facts that mention no path. */
    ghost predicate Shape(nodes: set<Node>) {
      && indices.Keys <= nodes
      && low.Keys == indices.Keys
      && (forall n :: n in indices ==> indices[n] < index)
      && StackSorted()
      && (forall n :: OnStack(n) <==> n in stack)
    }

    ghost predicate StackSorted() {
      && (forall i :: 0 <= i < |stack| ==> stack[i] in indices)
      && (forall i, j :: 0 <= i < j < |stack| ==> indices[stack[i]] < indices[stack[j]])
    }

    /** The search invariant, where `grays` are the nodes whose visit has begun and not ended. */
    ghost predicate Inv(adj: Adjacency, nodes: set<Node>, grays: set<Node>) {
      && Shape(nodes)
      && grays <= Elements(stack)
      && BlackSeesNoWhite(adj, grays)
      && GrayReachesUp(adj, grays)
      && StackReachesGray(adj, grays)
      && ClosedAndCounted(adj, nodes)
    }

    ghost predicate ClosedAndCounted(adj: Adjacency, nodes: set<Node>) {
      && Closed(adj, Done())
      && cycles == |CyclicComponents(adj, nodes, Done())|
    }

    ghost predicate BlackSeesNoWhite(adj: Adjacency, grays: set<Node>) {
      forall b, n :: b in indices && b !in grays && n in Successors(adj, b) ==> n in indices
    }

    /** An open visit reaches everything stacked after it. */
    ghost predicate GrayReachesUp(adj: Adjacency, grays: set<Node>) {
      forall g, y :: g in grays && y in stack && g in indices && y in indices && indices[g] <= indices[y]
        ==> Reach(adj, g, y)
    }

    ghost predicate StackReachesGray(adj: Adjacency, grays: set<Node>) {
      forall y {:trigger ReachesGray(adj, grays, y)} :: y in stack ==> ReachesGray(adj, grays, y)
    }

    ghost predicate ReachesGray(adj: Adjacency, grays: set<Node>, y: Node) {
      exists g :: g in grays && y in indices && g in indices && indices[g] <= indices[y] && Reach(adj, y, g)
    }

    /** Nothing recorded in `earlier` has been changed, and its stack is still at the bottom of this one. */
    ghost predicate Extends(earlier: SearchState) {
      && earlier.index <= index
      && (forall n :: n in earlier.indices ==> n in indices && indices[n] == earlier.indices[n])
      && (forall n :: n in earlier.low ==> n in low && low[n] == earlier.low[n])
      && (forall n :: n in indices && n !in earlier.indices ==> indices[n] >= earlier.index)
      && earlier.stack <= stack
    }

    /** `bound` is at most the index of every node of `base` that an edge from a stack position at or above `from`
        enters. */
    ghost predicate Covers(adj: Adjacency, base: seq<Node>, from: nat, bound: nat) {
      forall i, v :: from <= i < |stack| && v in Successors(adj, stack[i]) && v in base && v in indices
        ==> bound <= indices[v]
    }

    /** `bound` is the index of a node of `base` that `x` reaches. */
    ghost predicate Attained(adj: Adjacency, base: seq<Node>, x: Node, bound: nat) {
      exists y :: y in base && y in indices && indices[y] == bound && Reach(adj, x, y)
    }

    /** What a finished visit of `node` leaves behind, `earlier` being the state it started in. */
    ghost predicate Visited(adj: Adjacency, earlier: SearchState, node: Node) {
      && Extends(earlier)
      && node in indices && node in low
      && indices[node] == earlier.index
      && low[node] <= indices[node]
      && Covers(adj, earlier.stack, |earlier.stack|, low[node])
      && (low[node] == indices[node] ==> stack == earlier.stack)
      && (low[node] < indices[node] ==> Attained(adj, earlier.stack, node, low[node]))
    }

    /** What holds while `node`, first met in the state `earlier`, has looked at its first `k` successors. */
    ghost predicate Scanned(adj: Adjacency, earlier: SearchState, node: Node, k: nat) {
      && node !in earlier.indices && node !in earlier.low
      && Extends(earlier)
      && earlier.stack + [node] <= stack
      && node in indices && node in low
      && indices[node] == earlier.index
      && low[node] <= indices[node]
      && Attained(adj, earlier.stack + [node], node, low[node])
      && Covers(adj, earlier.stack, |earlier.stack| + 1, low[node])
      && BoundsSuccessors(adj, earlier.stack, node, k, low[node])
    }

    /** The first `k` successors are numbered, and `bound` is at most the index of each that lies in `base`. */
    ghost predicate BoundsSuccessors(adj: Adjacency, base: seq<Node>, node: Node, k: nat, bound: nat) {
      && k <= |Successors(adj, node)|
      && forall j :: 0 <= j < k ==>
           var n := Successors(adj, node)[j]; n in indices && (n in base ==> bound <= indices[n])
    }
  }

  lemma StackSplit(s: SearchState, base: seq<Node>, part: seq<Node>, x: Node)
    requires s.StackSorted() && s.stack == base + part
    ensures x in base ==> x !in part && x in s.indices
    ensures x in part ==> x !in base && x in s.indices && part[0] in s.indices && s.indices[part[0]] <= s.indices[x]
    ensures x in base && part != [] ==> part[0] in s.indices && s.indices[x] < s.indices[part[0]]
  {
    if x in base {
      var i :| 0 <= i < |base| && base[i] == x;
      assert s.stack[i] == x;
      forall j | 0 <= j < |part|
        ensures part[j] != x
      {
        assert s.stack[|base| + j] == part[j];
      }
      if part != [] {
        assert s.stack[|base|] == part[0];
      }
    }
    if x in part {
      var i :| 0 <= i < |part| && part[i] == x;
      assert s.stack[|base| + i] == x && s.stack[|base|] == part[0];
      forall j | 0 <= j < |base|
        ensures base[j] != x
      {
        assert s.stack[j] == base[j];
      }
    }
  }

  /** The state right after a visit has numbered `node` and pushed it. */
  ghost function Pushed(s: SearchState, node: Node): SearchState {
    SearchState(s.index + 1, s.indices[node := s.index], s.low[node := s.index], s.onStack[node := true],
                s.stack + [node], s.cycles)
  }

  lemma PushKeepsShape(nodes: set<Node>, s: SearchState, node: Node)
    requires s.Shape(nodes)
    requires node in nodes && node !in s.indices
    ensures Pushed(s, node).Shape(nodes)
    ensures Pushed(s, node).Extends(s)
    ensures Pushed(s, node).Done() == s.Done()
  {
  }

  lemma PushKeepsPaths(adj: Adjacency, nodes: set<Node>, s: SearchState, grays: set<Node>, node: Node)
    requires s.StackSorted() && s.GrayReachesUp(adj, grays) && s.StackReachesGray(adj, grays)
    requires forall n :: n in s.indices ==> s.indices[n] < s.index
    requires node in nodes && node !in s.indices
    requires forall g :: g in grays ==> Reach(adj, g, node)
    ensures Pushed(s, node).GrayReachesUp(adj, grays + {node})
    ensures Pushed(s, node).StackReachesGray(adj, grays + {node})
  {
    var t := Pushed(s, node);
    ReachSelf(adj, node);
    forall y | y in t.stack
      ensures t.ReachesGray(adj, grays + {node}, y)
    {
      if y != node {
        assert s.ReachesGray(adj, grays, y);
        var g :| g in grays && y in s.indices && g in s.indices && s.indices[g] <= s.indices[y] && Reach(adj, y, g);
        assert t.indices[g] <= t.indices[y];
      }
    }
  }

  lemma PushKeepsInv(adj: Adjacency, nodes: set<Node>, s: SearchState, grays: set<Node>, node: Node)
    requires s.Inv(adj, nodes, grays)
    requires node in nodes && node !in s.indices
    requires forall g :: g in grays ==> Reach(adj, g, node)
    ensures Pushed(s, node).Inv(adj, nodes, grays + {node})
    ensures Pushed(s, node).Extends(s)
  {
    PushKeepsShape(nodes, s, node);
    PushKeepsPaths(adj, nodes, s, grays, node);
  }

  /** Edges out of the top part of the stack that do not stay in it enter closed components. */
  lemma RootEdges(adj: Adjacency, s: SearchState, grays: set<Node>, node: Node, base: seq<Node>, part: seq<Node>)
    requires s.StackSorted() && s.BlackSeesNoWhite(adj, grays + {node})
    requires grays <= Elements(base)
    requires s.stack == base + part && part != [] && part[0] == node && node in s.indices
    requires forall n :: n in Successors(adj, node) ==> n in s.indices
    requires s.Covers(adj, base, |base|, s.indices[node])
    ensures forall u, v :: u in part && v in Successors(adj, u) && v !in part ==> v in s.Done()
  {
    forall u, v | u in part && v in Successors(adj, u) && v !in part
      ensures v in s.Done()
    {
      var i :| 0 <= i < |part| && part[i] == u;
      assert s.stack[|base| + i] == u;
      StackSplit(s, base, part, u);
      StackSplit(s, base, part, v);
      assert v in s.indices;
      assert v !in base;
    }
  }

  lemma RootReaches(adj: Adjacency, nodes: set<Node>, s: SearchState, grays: set<Node>, node: Node, base: seq<Node>,
                    part: seq<Node>)
    requires s.StackSorted() && s.indices.Keys <= nodes
    requires s.GrayReachesUp(adj, grays + {node}) && s.StackReachesGray(adj, grays + {node})
    requires forall g :: g in grays ==> Reach(adj, g, node)
    requires s.stack == base + part && part != [] && part[0] == node
    ensures Elements(part) <= Component(adj, nodes, node)
  {
    forall y | y in part
      ensures y in Component(adj, nodes, node)
    {
      StackSplit(s, base, part, y);
      assert y in s.stack;
      assert s.ReachesGray(adj, grays + {node}, y);
      var g :| g in grays + {node} && y in s.indices && g in s.indices && s.indices[g] <= s.indices[y]
          && Reach(adj, y, g);
      if g != node {
        ReachTrans(adj, y, g, node);
      }
    }
  }

  lemma RootHoldsComponent(adj: Adjacency, nodes: set<Node>, s: SearchState, node: Node, part: seq<Node>)
    requires Closed(adj, s.Done())
    requires part != [] && part[0] == node && node in s.stack
    requires forall u, v :: u in part && v in Successors(adj, u) && v !in part ==> v in s.Done()
    ensures Component(adj, nodes, node) <= Elements(part)
  {
    forall z | z in Component(adj, nodes, node)
      ensures z in Elements(part)
    {
      if z !in Elements(part) {
        var u, v := ReachLeaves(adj, Elements(part), node, z);
        ReachTrans(adj, v, z, node);
        ReachStaysClosed(adj, s.Done(), v, node);
        assert false;
      }
    }
  }

  /** The state after the part of the stack above `base` has been popped as one component. */
  ghost predicate Popped(t: SearchState, s: SearchState, adj: Adjacency, base: seq<Node>, part: seq<Node>) {
    && t.index == s.index && t.indices == s.indices && t.low == s.low
    && s.stack == base + part && t.stack == base
    && (forall n :: t.OnStack(n) <==> n in base)
    && t.cycles == s.cycles + if IsCyclic(adj, Elements(part)) then 1 else 0
  }

  lemma PopKeepsPaths(adj: Adjacency, s: SearchState, t: SearchState, grays: set<Node>, node: Node,
                      base: seq<Node>, part: seq<Node>)
    requires s.StackSorted()
    requires s.GrayReachesUp(adj, grays + {node}) && s.StackReachesGray(adj, grays + {node})
    requires s.BlackSeesNoWhite(adj, grays + {node})
    requires forall n :: n in Successors(adj, node) ==> n in s.indices
    requires part != [] && part[0] == node
    requires Popped(t, s, adj, base, part)
    ensures t.StackSorted() && t.GrayReachesUp(adj, grays) && t.StackReachesGray(adj, grays)
    ensures t.BlackSeesNoWhite(adj, grays)
  {
    assert forall i :: 0 <= i < |base| ==> s.stack[i] == base[i];
    forall y | y in t.stack
      ensures t.ReachesGray(adj, grays, y)
    {
      assert s.ReachesGray(adj, grays + {node}, y);
      var g :| g in grays + {node} && y in s.indices && g in s.indices && s.indices[g] <= s.indices[y]
          && Reach(adj, y, g);
      StackSplit(s, base, part, y);
      assert g != node;
    }
  }

  lemma PopDone(adj: Adjacency, s: SearchState, t: SearchState, base: seq<Node>, part: seq<Node>)
    requires s.StackSorted()
    requires Popped(t, s, adj, base, part)
    ensures t.Done() == s.Done() + Elements(part)
    ensures Elements(part) !! s.Done()
  {
    forall n
      ensures n in t.Done() <==> n in s.Done() || n in part
    {
      StackSplit(s, base, part, n);
    }
  }

  lemma PopKeepsCount(adj: Adjacency, nodes: set<Node>, s: SearchState, t: SearchState, node: Node,
                      base: seq<Node>, part: seq<Node>)
    requires node in nodes && s.indices.Keys <= nodes
    requires s.ClosedAndCounted(adj, nodes)
    requires Popped(t, s, adj, base, part)
    requires t.Done() == s.Done() + Elements(part) && Elements(part) !! s.Done()
    requires Component(adj, nodes, node) == Elements(part)
    requires forall u, v :: u in part && v in Successors(adj, u) && v !in part ==> v in s.Done()
    ensures t.ClosedAndCounted(adj, nodes)
  {
    CyclicComponentsGrow(adj, nodes, s.Done(), node);
  }

  lemma PopKeepsInv(adj: Adjacency, nodes: set<Node>, s: SearchState, t: SearchState, grays: set<Node>, node: Node,
                    base: seq<Node>, part: seq<Node>)
    requires s.Inv(adj, nodes, grays + {node})
    requires grays <= Elements(base) && forall g :: g in grays ==> Reach(adj, g, node)
    requires part != [] && part[0] == node && node in s.indices
    requires forall n :: n in Successors(adj, node) ==> n in s.indices
    requires s.Covers(adj, base, |base|, s.indices[node])
    requires Popped(t, s, adj, base, part)
    ensures t.Inv(adj, nodes, grays)
  {
    RootEdges(adj, s, grays, node, base, part);
    RootReaches(adj, nodes, s, grays, node, base, part);
    RootHoldsComponent(adj, nodes, s, node, part);
    PopKeepsPaths(adj, s, t, grays, node, base, part);
    PopDone(adj, s, t, base, part);
    PopKeepsCount(adj, nodes, s, t, node, base, part);
  }

  /** When the bound of `node` is lower than its index, `node` joins the black nodes and stays on the stack. */
  lemma BlackenKeepsPaths(adj: Adjacency, s: SearchState, grays: set<Node>, node: Node, base: SearchState, bound: nat)
    requires base.StackSorted() && base.StackReachesGray(adj, grays) && s.Extends(base)
    requires s.StackReachesGray(adj, grays + {node}) && s.GrayReachesUp(adj, grays + {node})
    requires s.BlackSeesNoWhite(adj, grays + {node})
    requires node in s.indices && bound < s.indices[node]
    requires forall n :: n in Successors(adj, node) ==> n in s.indices
    requires s.Attained(adj, base.stack, node, bound)
    ensures s.StackReachesGray(adj, grays) && s.GrayReachesUp(adj, grays)
    ensures s.BlackSeesNoWhite(adj, grays)
  {
    var y0 :| y0 in base.stack && y0 in s.indices && s.indices[y0] == bound && Reach(adj, node, y0);
    assert base.ReachesGray(adj, grays, y0);
    var g0 :| g0 in grays && y0 in base.indices && g0 in base.indices && base.indices[g0] <= base.indices[y0]
        && Reach(adj, y0, g0);
    ReachTrans(adj, node, y0, g0);
    forall y | y in s.stack
      ensures s.ReachesGray(adj, grays, y)
    {
      assert s.ReachesGray(adj, grays + {node}, y);
      var g :| g in grays + {node} && y in s.indices && g in s.indices && s.indices[g] <= s.indices[y]
          && Reach(adj, y, g);
      if g == node {
        ReachTrans(adj, y, node, g0);
      }
    }
  }

  lemma BlackenKeepsInv(adj: Adjacency, nodes: set<Node>, s: SearchState, grays: set<Node>, node: Node,
                        base: SearchState, bound: nat)
    requires base.Inv(adj, nodes, grays) && s.Extends(base)
    requires s.Inv(adj, nodes, grays + {node})
    requires node in s.indices && bound < s.indices[node]
    requires forall n :: n in Successors(adj, node) ==> n in s.indices
    requires s.Attained(adj, base.stack, node, bound)
    ensures s.Inv(adj, nodes, grays)
  {
    BlackenKeepsPaths(adj, s, grays, node, base, bound);
  }

  /** Lowering the bound of one node leaves the invariant alone. */
  lemma LowerKeepsInv(adj: Adjacency, nodes: set<Node>, s: SearchState, grays: set<Node>, node: Node, bound: nat)
    requires s.Inv(adj, nodes, grays) && node in s.low
    ensures s.(low := s.low[node := bound]).Inv(adj, nodes, grays)
  {
    var t := s.(low := s.low[node := bound]);
    assert t.Done() == s.Done();
    forall y | y in t.stack
      ensures t.ReachesGray(adj, grays, y)
    {
      assert s.ReachesGray(adj, grays, y);
    }
  }

  lemma ScanStart(adj: Adjacency, nodes: set<Node>, earlier: SearchState, node: Node)
    requires earlier.Shape(nodes) && node !in earlier.indices
    ensures Pushed(earlier, node).Scanned(adj, earlier, node, 0)
  {
    var s := Pushed(earlier, node);
    ReachSelf(adj, node);
    assert node in earlier.stack + [node] && s.indices[node] == s.low[node];
  }

  /** A node at or below `node` on the stack that `node` reaches attains its index as a bound. */
  lemma AttainedOnStack(adj: Adjacency, s: SearchState, base: seq<Node>, node: Node, y: Node)
    requires s.StackSorted() && base + [node] <= s.stack && node in s.indices
    requires y in s.stack && y in s.indices && s.indices[y] < s.indices[node] && Reach(adj, node, y)
    ensures s.Attained(adj, base + [node], node, s.indices[y])
  {
    var part := s.stack[|base|..];
    assert s.stack == base + part && part[0] == node;
    StackSplit(s, base, part, y);
    assert y in base + [node];
  }

  lemma AttainedLater(adj: Adjacency, s: SearchState, t: SearchState, base: seq<Node>, x: Node, bound: nat)
    requires s.Attained(adj, base, x, bound)
    requires forall n :: n in s.indices ==> n in t.indices && t.indices[n] == s.indices[n]
    ensures t.Attained(adj, base, x, bound)
  {
    var y :| y in base && y in s.indices && s.indices[y] == bound && Reach(adj, x, y);
    assert t.indices[y] == bound;
  }

  lemma SeenBounds(adj: Adjacency, s: SearchState, base: seq<Node>, node: Node, k: nat, b: nat, low: nat)
    requires k < |Successors(adj, node)| && low <= b
    requires s.BoundsSuccessors(adj, base, node, k, b)
    requires var n := Successors(adj, node)[k]; n in s.indices && (n in base ==> low <= s.indices[n])
    ensures s.BoundsSuccessors(adj, base, node, k + 1, low)
  {
  }

  /** The next successor was seen before: its index bounds `node` if it is still stacked. */
  lemma CoversLess(adj: Adjacency, s: SearchState, base: seq<Node>, bound: nat, less: nat)
    requires s.Covers(adj, base, |base| + 1, bound) && less <= bound
    ensures s.Covers(adj, base, |base| + 1, less)
  {
  }

  lemma ScanSeen(adj: Adjacency, nodes: set<Node>, earlier: SearchState, s: SearchState, node: Node, k: nat, low: nat)
    requires s.StackSorted() && s.Scanned(adj, earlier, node, k) && k < |Successors(adj, node)|
    requires Successors(adj, node)[k] in s.indices
    requires s.OnStack(Successors(adj, node)[k]) <==> Successors(adj, node)[k] in s.stack
    requires var n := Successors(adj, node)[k];
             low == if s.OnStack(n) && s.indices[n] < s.low[node] then s.indices[n] else s.low[node]
    ensures s.(low := s.low[node := low]).Scanned(adj, earlier, node, k + 1)
  {
    var n := Successors(adj, node)[k];
    assert n in earlier.stack ==> n in s.stack by {
      if n in earlier.stack {
        var j :| 0 <= j < |earlier.stack| && earlier.stack[j] == n;
        assert s.stack[j] == n;
      }
    }
    assert s.Attained(adj, earlier.stack + [node], node, low) by {
      if low < s.low[node] {
        ReachEdge(adj, node, n);
        AttainedOnStack(adj, s, earlier.stack, node, n);
      }
    }
    SeenBounds(adj, s, earlier.stack, node, k, s.low[node], low);
    CoversLess(adj, s, earlier.stack, s.low[node], low);
    LoweredScan(adj, earlier, s, node, k + 1, low);
  }

  lemma VisitedAttained(adj: Adjacency, s: SearchState, t: SearchState, base: seq<Node>, node: Node, n: Node, low: nat)
    requires s.StackSorted() && base + [node] <= s.stack && node in s.indices
    requires t.Visited(adj, s, n) && n in Successors(adj, node)
    requires low < s.indices[node] && low == t.low[n]
    requires s.indices[node] < s.index
    ensures t.Attained(adj, base + [node], node, low)
  {
    assert t.Attained(adj, s.stack, n, low);
    var y :| y in s.stack && y in t.indices && t.indices[y] == low && Reach(adj, n, y);
    var i :| 0 <= i < |s.stack| && s.stack[i] == y;
    ReachEdge(adj, node, n);
    ReachTrans(adj, node, n, y);
    AttainedOnStack(adj, s, base, node, y);
    AttainedLater(adj, s, t, base + [node], node, low);
  }

  lemma VisitedCovers(adj: Adjacency, s: SearchState, t: SearchState, base: seq<Node>, from: nat, n: Node, b: nat,
                      low: nat)
    requires base <= s.stack && s.StackSorted()
    requires t.Visited(adj, s, n)
    requires s.Covers(adj, base, from, b) && low <= b && low <= t.low[n]
    ensures t.Covers(adj, base, from, low)
  {
    forall i, v | from <= i < |t.stack| && v in Successors(adj, t.stack[i]) && v in base && v in t.indices
      ensures low <= t.indices[v]
    {
      var j :| 0 <= j < |base| && base[j] == v;
      assert s.stack[j] == v;
      if i < |s.stack| {
        assert s.stack[i] == t.stack[i];
      }
    }
  }

  lemma ExtendsTrans(r: SearchState, s: SearchState, t: SearchState)
    requires s.Extends(r) && t.Extends(s)
    ensures t.Extends(r)
  {
  }

  /** The successors scanned so far stay bounded while a further one is visited. */
  lemma VisitedBounds(adj: Adjacency, s: SearchState, t: SearchState, base: seq<Node>, node: Node, k: nat, b: nat,
                      low: nat)
    requires k < |Successors(adj, node)| && low <= b && t.Extends(s)
    requires Successors(adj, node)[k] in t.indices && Successors(adj, node)[k] !in base
    requires s.BoundsSuccessors(adj, base, node, k, b)
    ensures t.BoundsSuccessors(adj, base, node, k + 1, low)
  {
  }

  lemma VisitedAttains(adj: Adjacency, nodes: set<Node>, earlier: SearchState, s: SearchState, t: SearchState,
                       node: Node,
                       k: nat, low: nat)
    requires s.StackSorted() && node in s.indices && s.indices[node] < s.index && earlier.StackSorted()
    requires s.Scanned(adj, earlier, node, k) && k < |Successors(adj, node)|
    requires t.Visited(adj, s, Successors(adj, node)[k])
    requires Successors(adj, node)[k] !in s.indices
    requires var n := Successors(adj, node)[k];
             low == if t.low[n] < t.low[node] then t.low[n] else t.low[node]
    ensures t.Attained(adj, earlier.stack + [node], node, low)
  {
    var n := Successors(adj, node)[k];
    if low < s.low[node] {
      VisitedAttained(adj, s, t, earlier.stack, node, n, low);
    } else {
      AttainedLater(adj, s, t, earlier.stack + [node], node, low);
    }
  }

  lemma VisitedStays(adj: Adjacency, nodes: set<Node>, earlier: SearchState, s: SearchState, t: SearchState, node: Node,
                     k: nat, low: nat)
    requires s.StackSorted() && node in s.indices && s.indices[node] < s.index && earlier.StackSorted()
    requires s.Scanned(adj, earlier, node, k) && k < |Successors(adj, node)|
    requires t.Visited(adj, s, Successors(adj, node)[k])
    requires Successors(adj, node)[k] !in s.indices
    requires var n := Successors(adj, node)[k];
             low == if t.low[n] < t.low[node] then t.low[n] else t.low[node]
    ensures t.Covers(adj, earlier.stack, |earlier.stack| + 1, low)
    ensures t.BoundsSuccessors(adj, earlier.stack, node, k + 1, low)
  {
    var n := Successors(adj, node)[k];
    VisitedCovers(adj, s, t, earlier.stack, |earlier.stack| + 1, n, s.low[node], low);
    assert n !in earlier.stack;
    VisitedBounds(adj, s, t, earlier.stack, node, k, s.low[node], low);
  }

  lemma VisitedExtends(adj: Adjacency, nodes: set<Node>, earlier: SearchState, s: SearchState, t: SearchState,
                       node: Node,
                       k: nat, low: nat)
    requires s.StackSorted() && node in s.indices && s.indices[node] < s.index && earlier.StackSorted()
    requires s.Scanned(adj, earlier, node, k) && k < |Successors(adj, node)|
    requires t.Visited(adj, s, Successors(adj, node)[k])
    requires Successors(adj, node)[k] !in s.indices
    requires var n := Successors(adj, node)[k];
             low == if t.low[n] < t.low[node] then t.low[n] else t.low[node]
    ensures t.Extends(earlier) && earlier.stack + [node] <= t.stack
    ensures node in t.indices && node in t.low && t.indices[node] == earlier.index && low <= t.indices[node]
    ensures node !in earlier.indices && node !in earlier.low
  {
    ExtendsTrans(earlier, s, t);
  }

  /** The next successor was visited: its bound bounds `node`. */
  lemma ScanVisited(adj: Adjacency, nodes: set<Node>, earlier: SearchState, s: SearchState, t: SearchState, node: Node,
                    k: nat, low: nat)
    requires s.StackSorted() && node in s.indices && s.indices[node] < s.index && earlier.StackSorted()
    requires s.Scanned(adj, earlier, node, k) && k < |Successors(adj, node)|
    requires t.Visited(adj, s, Successors(adj, node)[k])
    requires Successors(adj, node)[k] !in s.indices
    requires var n := Successors(adj, node)[k];
             low == if t.low[n] < t.low[node] then t.low[n] else t.low[node]
    ensures t.(low := t.low[node := low]).Scanned(adj, earlier, node, k + 1)
  {
    var u := t.(low := t.low[node := low]);
    VisitedAttains(adj, nodes, earlier, s, t, node, k, low);
    VisitedStays(adj, nodes, earlier, s, t, node, k, low);
    VisitedExtends(adj, nodes, earlier, s, t, node, k, low);
    LoweredScan(adj, earlier, t, node, k + 1, low);
  }

  /** A lower bound for `node` changes nothing that its scan does not want. */
  lemma LoweredScan(adj: Adjacency, earlier: SearchState, s: SearchState, node: Node, k: nat, low: nat)
    requires s.Extends(earlier) && earlier.stack + [node] <= s.stack
    requires node in s.indices && node in s.low && s.indices[node] == earlier.index && low <= s.indices[node]
    requires node !in earlier.indices && node !in earlier.low
    requires s.Attained(adj, earlier.stack + [node], node, low)
    requires s.Covers(adj, earlier.stack, |earlier.stack| + 1, low)
    requires s.BoundsSuccessors(adj, earlier.stack, node, k, low)
    ensures s.(low := s.low[node := low]).Scanned(adj, earlier, node, k)
  {
    var t := s.(low := s.low[node := low]);
    AttainedLater(adj, s, t, earlier.stack + [node], node, low);
    LowDoesNotMatter(adj, s, t, earlier.stack, node, k, low);
    hide SearchState.Attained, SearchState.Covers, SearchState.BoundsSuccessors, Successors;
  }

  lemma LowDoesNotMatter(adj: Adjacency, s: SearchState, t: SearchState, base: seq<Node>, node: Node, k: nat,
                         bound: nat)
    requires t == s.(low := t.low)
    ensures s.Covers(adj, base, |base| + 1, bound) ==> t.Covers(adj, base, |base| + 1, bound)
    ensures s.BoundsSuccessors(adj, base, node, k, bound) ==> t.BoundsSuccessors(adj, base, node, k, bound)
  {
  }

  /** After the last successor the bound covers every edge from `node` and above into the stack below it. */
  lemma ScanEnd(adj: Adjacency, earlier: SearchState, s: SearchState, node: Node)
    requires s.Scanned(adj, earlier, node, |Successors(adj, node)|)
    ensures forall n :: n in Successors(adj, node) ==> n in s.indices
    ensures s.Covers(adj, earlier.stack, |earlier.stack|, s.low[node])
  {
    assert s.stack[|earlier.stack|] == node;
    forall n | n in Successors(adj, node)
      ensures n in s.indices && (n in earlier.stack ==> s.low[node] <= s.indices[n])
    {
      var j :| 0 <= j < |Successors(adj, node)| && Successors(adj, node)[j] == n;
    }
  }

  lemma AttainedBelow(adj: Adjacency, s: SearchState, base: seq<Node>, node: Node, bound: nat)
    requires node in s.indices && bound < s.indices[node]
    requires s.Attained(adj, base + [node], node, bound)
    ensures s.Attained(adj, base, node, bound)
  {
    var y :| y in base + [node] && y in s.indices && s.indices[y] == bound && Reach(adj, node, y);
    assert y in base;
  }

  /** The state after the stack of `s` has been popped down to its first `k` nodes. */
  ghost predicate PartlyPopped(t: SearchState, s: SearchState, k: nat) {
    && s.StackSorted()
    && t.index == s.index && t.indices == s.indices && t.low == s.low && t.cycles == s.cycles
    && k <= |s.stack| && t.stack == s.stack[..k]
    && (forall n :: t.OnStack(n) <==> n in s.stack[..k])
  }

  lemma PopTop(s: SearchState, t: SearchState, entry: SearchState)
    requires |s.stack| > 0 && PartlyPopped(s, entry, |s.stack|)
    requires t == s.(stack := s.stack[..|s.stack| - 1], onStack := s.onStack[s.stack[|s.stack| - 1] := false])
    ensures PartlyPopped(t, entry, |s.stack| - 1)
  {
    var k := |s.stack| - 1;
    assert s.stack == t.stack + [s.stack[k]];
    assert entry.stack[..k] == t.stack;
    forall n | n in t.stack
      ensures n != s.stack[k]
    {
      var i :| 0 <= i < k && t.stack[i] == n;
      assert entry.stack[i] == n && entry.stack[k] == s.stack[k];
    }
    forall n
      ensures t.OnStack(n) <==> n in entry.stack[..k]
    {
      assert s.OnStack(n) <==> n in entry.stack[..k + 1];
      assert entry.stack[..k + 1] == s.stack;
    }
  }

  /** The node on top of `base` is met exactly when the pops have reached it. */
  lemma BaseFound(s: SearchState, base: seq<Node>, node: Node, k: nat)
    requires s.StackSorted() && base + [node] <= s.stack && |base| <= k < |s.stack|
    ensures s.stack[k] == node <==> k == |base|
  {
    assert s.stack[|base|] == node;
  }

  lemma PartSize(s: SearchState, base: seq<Node>, part: seq<Node>)
    requires s.StackSorted() && s.stack == base + part
    ensures |Elements(part)| == |part|
  {
    forall i, j | 0 <= i < j < |part|
      ensures part[i] != part[j]
    {
      assert s.stack[|base| + i] == part[i] && s.stack[|base| + j] == part[j];
    }
    DistinctCount(part);
  }

  /** A visit begins. */
  lemma VisitBegins(adj: Adjacency, nodes: set<Node>, s: SearchState, grays: set<Node>, node: Node)
    requires s.Inv(adj, nodes, grays)
    requires node in nodes && node !in s.indices
    requires forall g :: g in grays ==> Reach(adj, g, node)
    ensures Pushed(s, node).Inv(adj, nodes, grays + {node})
    ensures Pushed(s, node).Scanned(adj, s, node, 0)
  {
    PushKeepsInv(adj, nodes, s, grays, node);
    ScanStart(adj, nodes, s, node);
  }

  /** A visit ends with `node` left on the stack. */
  lemma VisitEndsLow(adj: Adjacency, nodes: set<Node>, earlier: SearchState, s: SearchState, grays: set<Node>,
                     node: Node)
    requires earlier.Inv(adj, nodes, grays) && s.Inv(adj, nodes, grays + {node})
    requires s.Scanned(adj, earlier, node, |Successors(adj, node)|)
    requires s.low[node] != s.indices[node]
    ensures s.Inv(adj, nodes, grays) && s.Visited(adj, earlier, node)
  {
    ScanEnd(adj, earlier, s, node);
    AttainedBelow(adj, s, earlier.stack, node, s.low[node]);
    BlackenKeepsInv(adj, nodes, s, grays, node, earlier, s.low[node]);
  }

  /** A visit ends by closing the component of `node`. */
  lemma VisitEndsRoot(adj: Adjacency, nodes: set<Node>, earlier: SearchState, s: SearchState, t: SearchState,
                      grays: set<Node>, node: Node, part: seq<Node>)
    requires earlier.Inv(adj, nodes, grays) && s.Inv(adj, nodes, grays + {node})
    requires forall g :: g in grays ==> Reach(adj, g, node)
    requires s.Scanned(adj, earlier, node, |Successors(adj, node)|)
    requires s.low[node] == s.indices[node]
    requires Popped(t, s, adj, earlier.stack, part)
    ensures t.Inv(adj, nodes, grays) && t.Visited(adj, earlier, node)
  {
    ScanEnd(adj, earlier, s, node);
    assert part[0] == node by {
      assert s.stack[|earlier.stack|] == node;
    }
    PopKeepsInv(adj, nodes, s, t, grays, node, earlier.stack, part);
  }

  lemma StepKnows(adj: Adjacency, nodes: set<Node>, earlier: SearchState, s: SearchState, grays: set<Node>, node: Node,
                  k: nat)
    requires s.Inv(adj, nodes, grays) && s.Scanned(adj, earlier, node, k) && k < |Successors(adj, node)|
    ensures node in s.low && s.StackSorted() && forall n :: s.OnStack(n) <==> n in s.stack
  {
    hide SearchState.GrayReachesUp, SearchState.StackReachesGray, SearchState.ClosedAndCounted,
         SearchState.BlackSeesNoWhite, SearchState.Covers, SearchState.Attained, SearchState.BoundsSuccessors;
  }

  /** The loop step for a successor seen before. */
  lemma StepSeen(adj: Adjacency, nodes: set<Node>, earlier: SearchState, s: SearchState, t: SearchState,
                 grays: set<Node>, node: Node, k: nat)
    requires s.Inv(adj, nodes, grays) && s.Scanned(adj, earlier, node, k) && k < |Successors(adj, node)|
    requires Successors(adj, node)[k] in s.indices
    requires var n := Successors(adj, node)[k];
             t == if s.OnStack(n) then s.(low := s.low[node := Min(s.low[node], s.indices[n])]) else s
    ensures t.Inv(adj, nodes, grays) && t.Scanned(adj, earlier, node, k + 1)
  {
    StepKnows(adj, nodes, earlier, s, grays, node, k);
    hide SearchState.Inv, SearchState.Scanned, SearchState.StackSorted, Successors;
    ScanSeen(adj, nodes, earlier, s, node, k, t.low[node]);
    LowerKeepsInv(adj, nodes, s, grays, node, t.low[node]);
    assert t.low == s.low[node := t.low[node]];
  }

  /** The loop step for a successor just visited. */
  lemma StepVisited(adj: Adjacency, nodes: set<Node>, earlier: SearchState, s: SearchState, t: SearchState,
                    u: SearchState, grays: set<Node>, node: Node, k: nat)
    requires earlier.StackSorted() && s.StackSorted() && node in s.indices && s.indices[node] < s.index
    requires t.Inv(adj, nodes, grays)
    requires s.Scanned(adj, earlier, node, k) && k < |Successors(adj, node)|
    requires t.Visited(adj, s, Successors(adj, node)[k])
    requires Successors(adj, node)[k] !in s.indices
    requires u == t.(low := t.low[node := Min(t.low[node], t.low[Successors(adj, node)[k]])])
    ensures u.Inv(adj, nodes, grays) && u.Scanned(adj, earlier, node, k + 1)
  {
    ScanVisited(adj, nodes, earlier, s, t, node, k, u.low[node]);
    LowerKeepsInv(adj, nodes, t, grays, node, u.low[node]);
  }

  lemma GraysReach(adj: Adjacency, grays: set<Node>, node: Node, next: Node)
    requires next in Successors(adj, node)
    requires forall g :: g in grays ==> Reach(adj, g, node)
    ensures forall g :: g in grays + {node} ==> Reach(adj, g, next)
  {
    ReachEdge(adj, node, next);
    forall g | g in grays
      ensures Reach(adj, g, next)
    {
      ReachTrans(adj, g, node, next);
    }
  }

  lemma AllPopped(adj: Adjacency, t: SearchState, s: SearchState, base: seq<Node>, node: Node, size: nat, self: bool)
    requires base + [node] <= s.stack && PartlyPopped(t, s, |base|)
    requires size == |s.stack| - |base|
    requires self <==> node in Successors(adj, node)
    ensures Popped(t.(cycles := if size > 1 || self then t.cycles + 1 else t.cycles), s, adj, base, s.stack[|base|..])
  {
    var part := s.stack[|base|..];
    assert s.stack == base + part && part[0] == node;
    PartSize(s, base, part);
    assert node in Elements(part);
    if size == 1 {
      assert part == [node];
    }
  }
}
