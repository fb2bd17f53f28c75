/** Paths in a directed graph given by a map of successor lists; a node without an entry has no successors,
    as a lookup of an absent key yields an empty list. */
module Reachability {
  type Node = string
  type Adjacency = map<Node, seq<Node>>

  function Successors(adj: Adjacency, n: Node): seq<Node> {
    if n in adj then adj[n] else []
  }

  ghost predicate IsPath(adj: Adjacency, p: seq<Node>) {
    && |p| > 0
    && forall i :: 0 <= i < |p| - 1 ==> p[i + 1] in Successors(adj, p[i])
  }

  ghost predicate Reach(adj: Adjacency, x: Node, y: Node) {
    exists p :: IsPath(adj, p) && p[0] == x && p[|p| - 1] == y
  }

  /** Every edge that leaves a node of `nodes` ends in a node of `nodes`. */
  ghost predicate Closed(adj: Adjacency, nodes: set<Node>) {
    forall x, y :: x in nodes && y in Successors(adj, x) ==> y in nodes
  }

  lemma ReachSelf(adj: Adjacency, x: Node)
    ensures Reach(adj, x, x)
  {
    assert IsPath(adj, [x]);
  }

  lemma ReachEdge(adj: Adjacency, x: Node, y: Node)
    requires y in Successors(adj, x)
    ensures Reach(adj, x, y)
  {
    var p := [x, y];
    assert IsPath(adj, p) && p[0] == x && p[|p| - 1] == y;
  }

  lemma ReachTrans(adj: Adjacency, x: Node, y: Node, z: Node)
    requires Reach(adj, x, y) && Reach(adj, y, z)
    ensures Reach(adj, x, z)
  {
    var p :| IsPath(adj, p) && p[0] == x && p[|p| - 1] == y;
    var q :| IsPath(adj, q) && q[0] == y && q[|q| - 1] == z;
    var r := p + q[1..];
    assert IsPath(adj, r) && r[0] == x && r[|r| - 1] == z;
  }

  /** A path out of a set crosses its border along some edge. */
  lemma ReachLeaves(adj: Adjacency, inside: set<Node>, x: Node, y: Node) returns (u: Node, v: Node)
    requires Reach(adj, x, y) && x in inside && y !in inside
    ensures u in inside && v !in inside && v in Successors(adj, u)
    ensures Reach(adj, x, u) && Reach(adj, v, y)
  {
    var p :| IsPath(adj, p) && p[0] == x && p[|p| - 1] == y;
    var i := 0;
    while p[i + 1] in inside
      invariant 0 <= i < |p| - 1
      invariant p[i] in inside
      decreases |p| - i
    {
      i := i + 1;
    }
    u, v := p[i], p[i + 1];
    var prefix, suffix := p[..i + 1], p[i + 1..];
    assert IsPath(adj, prefix) && prefix[0] == x && prefix[|prefix| - 1] == u;
    assert IsPath(adj, suffix) && suffix[0] == v && suffix[|suffix| - 1] == y;
  }

  lemma ReachStaysClosed(adj: Adjacency, nodes: set<Node>, x: Node, y: Node)
    requires Closed(adj, nodes) && Reach(adj, x, y) && x in nodes
    ensures y in nodes
  {
    if y !in nodes {
      var u, v := ReachLeaves(adj, nodes, x, y);
      assert false;
    }
  }
}
