/** Undirected graphs as the gossip tools take them from networkx, and walks in them. */
module Graphs {

  /** A host. Hosts are only ever compared for equality. */
  type Node(==, !new)

  datatype Graph = Graph(nodes: set<Node>, adj: map<Node, set<Node>>) {
    /** Neighbour sets are symmetric; a node may be its own neighbour. */
    ghost predicate Valid() {
      && adj.Keys == nodes
      && (forall u, v | u in adj && v in adj[u] :: v in adj && u in adj[v])
    }

    predicate Adjacent(u: Node, v: Node) {
      u in adj && v in adj[u]
    }

    ghost predicate NoSelfLoops() {
      forall u | u in adj :: u !in adj[u]
    }
  }

  /** p is a walk all of whose nodes lie in S. */
  ghost predicate IsWalk(g: Graph, S: set<Node>, p: seq<Node>) {
    && |p| > 0
    && (forall i | 0 <= i < |p| :: p[i] in S)
    && (forall i | 0 <= i < |p| - 1 :: g.Adjacent(p[i], p[i + 1]))
  }

  ghost predicate Joins(g: Graph, S: set<Node>, p: seq<Node>, a: Node, b: Node) {
    IsWalk(g, S, p) && p[0] == a && p[|p| - 1] == b
  }

  /** Some walk inside S leads from a to b. */
  ghost predicate Joined(g: Graph, S: set<Node>, a: Node, b: Node) {
    exists p :: Joins(g, S, p, a, b)
  }

  ghost predicate ConnectedIn(g: Graph, S: set<Node>) {
    forall a, b | a in S && b in S :: Joined(g, S, a, b)
  }

  ghost predicate Dominates(g: Graph, S: set<Node>) {
    forall v | v in g.nodes && v !in S :: exists u :: u in S && g.Adjacent(v, u)
  }

  lemma WalkJoins(g: Graph, S: set<Node>, p: seq<Node>)
    requires IsWalk(g, S, p)
    ensures Joined(g, S, p[0], p[|p| - 1])
  {
    assert Joins(g, S, p, p[0], p[|p| - 1]);
  }

  lemma EdgeJoins(g: Graph, S: set<Node>, a: Node, b: Node)
    requires a in S && b in S && g.Adjacent(a, b)
    ensures Joined(g, S, a, b)
  {
    WalkJoins(g, S, [a, b]);
  }

  lemma JoinedReflexive(g: Graph, S: set<Node>, a: Node)
    requires a in S
    ensures Joined(g, S, a, a)
  {
    WalkJoins(g, S, [a]);
  }

  lemma JoinedTransitive(g: Graph, S: set<Node>, a: Node, b: Node, c: Node)
    requires Joined(g, S, a, b) && Joined(g, S, b, c)
    ensures Joined(g, S, a, c)
  {
    var p :| Joins(g, S, p, a, b);
    var q :| Joins(g, S, q, b, c);
    var r := p + q[1..];
    forall i | 0 <= i < |r| - 1
      ensures g.Adjacent(r[i], r[i + 1])
    {
      if i >= |p| - 1 {
        assert r[i] == q[i - (|p| - 1)] && r[i + 1] == q[i - (|p| - 1) + 1];
      }
    }
    WalkJoins(g, S, r);
  }

  lemma JoinedSymmetric(g: Graph, S: set<Node>, a: Node, b: Node)
    requires g.Valid() && Joined(g, S, a, b)
    ensures Joined(g, S, b, a)
  {
    var p :| Joins(g, S, p, a, b);
    var r := seq(|p|, i requires 0 <= i < |p| => p[|p| - 1 - i]);
    forall i | 0 <= i < |r| - 1
      ensures g.Adjacent(r[i], r[i + 1])
    {
      assert g.Adjacent(p[|p| - 2 - i], p[|p| - 2 - i + 1]);
    }
    WalkJoins(g, S, r);
  }

  lemma JoinedMonotone(g: Graph, S: set<Node>, T: set<Node>, a: Node, b: Node)
    requires S <= T && Joined(g, S, a, b)
    ensures Joined(g, T, a, b)
  {
    var p :| Joins(g, S, p, a, b);
    WalkJoins(g, T, p);
  }

  /** Dominating and connected: the whole graph is connected. */
  lemma ConnectedBackboneConnectsGraph(g: Graph, S: set<Node>)
    requires g.Valid() && S <= g.nodes && Dominates(g, S) && ConnectedIn(g, S)
    ensures ConnectedIn(g, g.nodes)
  {
    forall a, b | a in g.nodes && b in g.nodes
      ensures Joined(g, g.nodes, a, b)
    {
      var x := ReachBackbone(g, S, a);
      var y := ReachBackbone(g, S, b);
      JoinedMonotone(g, S, g.nodes, x, y);
      JoinedSymmetric(g, g.nodes, b, y);
      JoinedTransitive(g, g.nodes, a, x, y);
      JoinedTransitive(g, g.nodes, a, y, b);
    }
  }

  lemma ReachBackbone(g: Graph, S: set<Node>, a: Node) returns (x: Node)
    requires g.Valid() && S <= g.nodes && Dominates(g, S) && a in g.nodes
    ensures x in S && Joined(g, g.nodes, a, x)
  {
    if a in S {
      x := a;
      JoinedReflexive(g, g.nodes, a);
    } else {
      x :| x in S && g.Adjacent(a, x);
      EdgeJoins(g, g.nodes, a, x);
    }
  }

  // ----- Shortest paths: what networkx promises for all pairs -----

  /** paths[src][dst] of the two-level dictionary. */
  type PathTable = map<(Node, Node), seq<Node>>

  ghost predicate IsShortest(g: Graph, p: seq<Node>, a: Node, b: Node) {
    && Joins(g, g.nodes, p, a, b)
    && (forall q | Joins(g, g.nodes, q, a, b) :: |p| <= |q|)
  }

  /** One shortest path for every pair of nodes that are joined at all, and nothing else. */
  ghost predicate AllShortestPaths(g: Graph, paths: PathTable) {
    && (forall a, b | a in g.nodes && b in g.nodes && Joined(g, g.nodes, a, b) :: (a, b) in paths)
    && (forall k | k in paths :: IsShortest(g, paths[k], k.0, k.1))
  }

  lemma ShortestExists(g: Graph, p: seq<Node>, a: Node, b: Node) returns (q: seq<Node>)
    requires Joins(g, g.nodes, p, a, b)
    ensures IsShortest(g, q, a, b)
    decreases |p|
  {
    if r :| Joins(g, g.nodes, r, a, b) && |r| < |p| {
      q := ShortestExists(g, r, a, b);
    } else {
      q := p;
    }
  }

  ghost function Shortest(g: Graph, a: Node, b: Node): (p: seq<Node>)
    requires Joined(g, g.nodes, a, b)
    ensures IsShortest(g, p, a, b)
  {
    assert exists q :: IsShortest(g, q, a, b) by {
      var p :| Joins(g, g.nodes, p, a, b);
      var q := ShortestExists(g, p, a, b);
    }
    var q :| IsShortest(g, q, a, b);
    q
  }

  /** The contract is one that every graph can meet. */
  lemma ShortestPathsExist(g: Graph) returns (paths: PathTable)
    ensures AllShortestPaths(g, paths)
  {
    paths := map a, b | a in g.nodes && b in g.nodes && Joined(g, g.nodes, a, b) :: (a, b) := Shortest(g, a, b);
  }
}
