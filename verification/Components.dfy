/** Strongly connected components of a directed graph, and the ones that hold a cycle. */
module Components {
  import opened Reachability

  /** The strongly connected component of `x`. */
  ghost function Component(adj: Adjacency, nodes: set<Node>, x: Node): set<Node> {
    set y | y in nodes && Reach(adj, x, y) && Reach(adj, y, x)
  }

  /** A component holds a cycle when it has two nodes or its only node imports itself. */
  ghost predicate IsCyclic(adj: Adjacency, component: set<Node>) {
    |component| > 1 || exists x :: x in component && x in Successors(adj, x)
  }

  ghost function CyclicComponents(adj: Adjacency, nodes: set<Node>, among: set<Node>): set<set<Node>> {
    set x | x in among && IsCyclic(adj, Component(adj, nodes, x)) :: Component(adj, nodes, x)
  }

  ghost function Elements(s: seq<Node>): set<Node> {
    set x | x in s
  }

  lemma DistinctCount(s: seq<Node>)
    requires forall i, j :: 0 <= i < j < |s| ==> s[i] != s[j]
    ensures |Elements(s)| == |s|
  {
    if s == [] {
    } else {
      var last := |s| - 1;
      DistinctCount(s[..last]);
      assert Elements(s) == Elements(s[..last]) + {s[last]};
    }
  }

  lemma ComponentOfMember(adj: Adjacency, nodes: set<Node>, x: Node, y: Node)
    requires y in Component(adj, nodes, x)
    ensures Component(adj, nodes, y) == Component(adj, nodes, x)
  {
    forall z | z in Component(adj, nodes, x)
      ensures z in Component(adj, nodes, y)
    {
      ReachTrans(adj, y, x, z);
      ReachTrans(adj, z, x, y);
    }
    forall z | z in Component(adj, nodes, y)
      ensures z in Component(adj, nodes, x)
    {
      ReachTrans(adj, x, y, z);
      ReachTrans(adj, z, y, x);
    }
  }

  /** Closing one more whole component adds it, and only it, to the cyclic ones. */
  lemma CyclicComponentsGrow(adj: Adjacency, nodes: set<Node>, done: set<Node>, x: Node)
    requires done <= nodes && x in nodes
    requires forall y :: y in Component(adj, nodes, x) ==> y !in done
    ensures |CyclicComponents(adj, nodes, done + Component(adj, nodes, x))|
         == |CyclicComponents(adj, nodes, done)| + if IsCyclic(adj, Component(adj, nodes, x)) then 1 else 0
  {
    var c := Component(adj, nodes, x);
    var before, after := CyclicComponents(adj, nodes, done), CyclicComponents(adj, nodes, done + c);
    ReachSelf(adj, x);
    assert x in c;
    forall y | y in c
      ensures Component(adj, nodes, y) == c
    {
      ComponentOfMember(adj, nodes, x, y);
    }
    forall y | y in done
      ensures Component(adj, nodes, y) != c
    {
      ReachSelf(adj, y);
      assert y in Component(adj, nodes, y);
    }
    assert c !in before;
    hide Component, IsCyclic;
    CyclicImage(adj, nodes, done, c);
    if IsCyclic(adj, c) {
      assert Component(adj, nodes, x) in after;
      assert after == before + {c};
    } else {
      assert after == before;
    }
  }

  /** The cyclic components among `done` and the members of one component are those of `done` and that one. */
  lemma CyclicImage(adj: Adjacency, nodes: set<Node>, done: set<Node>, c: set<Node>)
    requires forall y :: y in c ==> Component(adj, nodes, y) == c
    ensures CyclicComponents(adj, nodes, done) <= CyclicComponents(adj, nodes, done + c)
    ensures CyclicComponents(adj, nodes, done + c) <= CyclicComponents(adj, nodes, done) + {c}
    ensures !IsCyclic(adj, c) ==> CyclicComponents(adj, nodes, done + c) <= CyclicComponents(adj, nodes, done)
  {
    hide Component, IsCyclic;
    forall d | d in CyclicComponents(adj, nodes, done + c)
      ensures d in CyclicComponents(adj, nodes, done) || (d == c && IsCyclic(adj, c))
    {
      var y :| y in done + c && IsCyclic(adj, Component(adj, nodes, y)) && d == Component(adj, nodes, y);
    }
  }

  /** No path of at least one edge comes back to where it started. */
  ghost predicate Acyclic(adj: Adjacency, nodes: set<Node>) {
    forall p :: IsPath(adj, p) && |p| > 1 && p[0] in nodes ==> p[0] != p[|p| - 1]
  }

  lemma TwoMembers(s: set<Node>, x: Node) returns (y: Node)
    requires x in s && |s| > 1
    ensures y in s && y != x
  {
    assert s == {x} + (s - {x});
    y :| y in s - {x};
  }

  /** A returning path lies in one component, which is then cyclic. */
  lemma ReturningPathIsCyclic(adj: Adjacency, nodes: set<Node>, p: seq<Node>)
    requires Closed(adj, nodes)
    requires IsPath(adj, p) && |p| > 1 && p[0] in nodes && p[0] == p[|p| - 1]
    ensures Component(adj, nodes, p[0]) in CyclicComponents(adj, nodes, nodes)
  {
    var x, y := p[0], p[1];
    var c := Component(adj, nodes, x);
    ReachSelf(adj, x);
    assert x in c;
    ReachEdge(adj, x, y);
    var rest := p[1..];
    assert IsPath(adj, rest) && rest[0] == y && rest[|rest| - 1] == x;
    assert y in c;
    if y != x {
      assert {x, y} <= c && |{x, y}| == 2;
      SubsetSize({x, y}, c);
    } else {
      assert x in Successors(adj, x);
    }
  }

  lemma SubsetSize(a: set<Node>, b: set<Node>)
    requires a <= b
    ensures |a| <= |b|
  {
    assert b == a + (b - a);
  }

  lemma CyclicHasReturningPath(adj: Adjacency, nodes: set<Node>, x: Node)
    requires x in nodes && IsCyclic(adj, Component(adj, nodes, x))
    ensures !Acyclic(adj, nodes)
  {
    var c := Component(adj, nodes, x);
    if y :| y in c && y in Successors(adj, y) {
      var p := [y, y];
      assert IsPath(adj, p) && |p| > 1 && p[0] in nodes && p[0] == p[|p| - 1];
    } else {
      ReachSelf(adj, x);
      var y := TwoMembers(c, x);
      var p :| IsPath(adj, p) && p[0] == x && p[|p| - 1] == y;
      var q :| IsPath(adj, q) && q[0] == y && q[|q| - 1] == x;
      var r := p + q[1..];
      assert IsPath(adj, r) && |r| > 1 && r[0] in nodes && r[0] == r[|r| - 1];
    }
  }

  /** The count is zero exactly for the graphs without a cycle. */
  lemma NoCycleIffAcyclic(adj: Adjacency, nodes: set<Node>)
    requires Closed(adj, nodes)
    ensures |CyclicComponents(adj, nodes, nodes)| == 0 <==> Acyclic(adj, nodes)
  {
    if Acyclic(adj, nodes) {
      forall x | x in nodes
        ensures !IsCyclic(adj, Component(adj, nodes, x))
      {
        if IsCyclic(adj, Component(adj, nodes, x)) {
          CyclicHasReturningPath(adj, nodes, x);
        }
      }
      assert CyclicComponents(adj, nodes, nodes) == {};
    } else {
      var p :| IsPath(adj, p) && |p| > 1 && p[0] in nodes && p[0] == p[|p| - 1];
      ReturningPathIsCyclic(adj, nodes, p);
    }
  }
}
