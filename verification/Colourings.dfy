/**
 The node attributes 'color' and 'id' that the dominating-set search keeps on its graph,
 and what blackening one node does to them.
 */
module Colourings {
  import opened Graphs

  datatype Color = White | Grey | Black

  datatype State = State(color: map<Node, Color>, id: map<Node, int>) {
    ghost predicate Over(g: Graph) {
      color.Keys == g.nodes && id.Keys == g.nodes
    }

    predicate Is(n: Node, c: Color) {
      n in color && color[n] == c
    }

    function Coloured(c: Color): set<Node> {
      set n | n in color && color[n] == c
    }

    function Whites(): set<Node> { Coloured(White) }
    function Greys(): set<Node> { Coloured(Grey) }
    function Blacks(): set<Node> { Coloured(Black) }

    function BlackIds(): set<int> {
      set n | n in color && color[n] == Black && n in id :: id[n]
    }

    function Pieces(): nat {
      |BlackIds()| + |Whites()|
    }
  }

  function Start(g: Graph, id: map<Node, int>): State {
    State(map n | n in g.nodes :: White, id)
  }

  /** Ids that blackening n merges: those of its black neighbours (n is already black when they are read). */
  function TouchedIds(g: Graph, s: State, n: Node): set<int>
    requires n in g.adj
  {
    set m | m in g.adj[n] && m in s.id && (m == n || s.Is(m, Black)) :: s.id[m]
  }

  function Blackened(g: Graph, s: State, n: Node): State
    requires n in g.adj && n in s.id
  {
    State(
      map m | m in s.color ::
        if m == n then Black else if m in g.adj[n] && s.color[m] == White then Grey else s.color[m],
      map m | m in s.id :: if s.id[m] in TouchedIds(g, s, n) then s.id[n] else s.id[m])
  }

  function BlackenedAll(g: Graph, s: State, p: seq<Node>): State
    requires forall n | n in p :: n in g.adj && n in s.id
    decreases |p|
  {
    if p == [] then s
    else BlackenedAll(g, Blackened(g, s, p[0]), p[1..])
  }

  /**
   What holds after every blackening. Labels: adjacent blacks share an id, blacks with one id are joined by
   an all-black walk, any other node has an id of its own. Colours: a white has no black neighbour, a grey has one.
   */
  ghost predicate Inv(g: Graph, s: State) {
    && g.Valid() && s.Over(g)
    && (forall u, v | s.Is(u, Black) && s.Is(v, Black) && g.Adjacent(u, v) :: s.id[u] == s.id[v])
    && (forall u, v | s.Is(u, Black) && s.Is(v, Black) && s.id[u] == s.id[v] :: Joined(g, s.Blacks(), u, v))
    && (forall u, v | u in s.color && !s.Is(u, Black) && v in s.color && v != u :: s.id[u] != s.id[v])
    && (forall u, v | s.Is(u, White) && g.Adjacent(u, v) :: !s.Is(v, Black))
    && (forall u | s.Is(u, Grey) :: HasBlackNeighbour(g, s, u))
  }

  ghost predicate HasBlackNeighbour(g: Graph, s: State, u: Node) {
    exists v :: g.Adjacent(u, v) && s.Is(v, Black)
  }

  lemma StartInv(g: Graph, id: map<Node, int>)
    requires g.Valid() && id.Keys == g.nodes
    requires forall u, v | u in id && v in id && u != v :: id[u] != id[v]
    ensures Inv(g, Start(g, id))
  {
  }

  // ----- Blackening keeps the invariant -----

  lemma BlackenedBlacks(g: Graph, s: State, n: Node)
    requires s.Over(g) && g.Valid() && n in g.nodes
    ensures Blackened(g, s, n).Blacks() == s.Blacks() + {n}
    ensures Blackened(g, s, n).Whites() == s.Whites() - {n} - g.adj[n]
  {
  }

  lemma BlackenedReachesCentre(g: Graph, s: State, n: Node, u: Node)
    requires Inv(g, s) && n in g.nodes
    requires Blackened(g, s, n).Is(u, Black) && Blackened(g, s, n).id[u] == s.id[n]
    ensures Joined(g, s.Blacks() + {n}, u, n)
  {
    var B := s.Blacks() + {n};
    if u == n {
      JoinedReflexive(g, B, n);
    } else if s.id[u] == s.id[n] {
      JoinedMonotone(g, s.Blacks(), B, u, n);
    } else {
      var m :| m in g.adj[n] && m in s.id && (m == n || s.Is(m, Black)) && s.id[m] == s.id[u];
      JoinedMonotone(g, s.Blacks(), B, u, m);
      EdgeJoins(g, B, m, n);
      JoinedTransitive(g, B, u, m, n);
    }
  }

  lemma BlackenedKeepsInv(g: Graph, s: State, n: Node)
    requires Inv(g, s) && n in g.nodes
    ensures Inv(g, Blackened(g, s, n))
  {
    BlackenedNeighboursAgree(g, s, n);
    BlackenedStayJoined(g, s, n);
    BlackenedOwnIds(g, s, n);
    BlackenedColours(g, s, n);
    hide Blackened, Joined, HasBlackNeighbour;
  }

  lemma BlackenedStayJoined(g: Graph, s: State, n: Node)
    requires Inv(g, s) && n in g.nodes
    ensures var t := Blackened(g, s, n);
      forall u, v | t.Is(u, Black) && t.Is(v, Black) && t.id[u] == t.id[v] :: Joined(g, t.Blacks(), u, v)
  {
    var t := Blackened(g, s, n);
    BlackenedBlacks(g, s, n);
    forall u, v | t.Is(u, Black) && t.Is(v, Black) && t.id[u] == t.id[v]
      ensures Joined(g, t.Blacks(), u, v)
    {
      if t.id[u] == s.id[n] {
        BlackenedReachesCentre(g, s, n, u);
        BlackenedReachesCentre(g, s, n, v);
        JoinedSymmetric(g, t.Blacks(), v, n);
        JoinedTransitive(g, t.Blacks(), u, n, v);
      } else {
        JoinedMonotone(g, s.Blacks(), t.Blacks(), u, v);
      }
    }
  }

  lemma BlackenedOwnIds(g: Graph, s: State, n: Node)
    requires Inv(g, s) && n in g.nodes
    ensures var t := Blackened(g, s, n);
      && t.Over(g)
      && forall u, v | u in t.color && !t.Is(u, Black) && v in t.color && v != u :: t.id[u] != t.id[v]
  {
    hide Joined, HasBlackNeighbour;
  }

  lemma BlackenedColours(g: Graph, s: State, n: Node)
    requires Inv(g, s) && n in g.nodes
    ensures var t := Blackened(g, s, n);
      && (forall u, v | t.Is(u, White) && g.Adjacent(u, v) :: !t.Is(v, Black))
      && (forall u | t.Is(u, Grey) :: HasBlackNeighbour(g, t, u))
  {
    hide Joined, TouchedIds;
    var t := Blackened(g, s, n);
    forall u | t.Is(u, Grey)
      ensures HasBlackNeighbour(g, t, u)
    {
      if s.Is(u, Grey) {
        var v :| g.Adjacent(u, v) && s.Is(v, Black);
        assert t.Is(v, Black);
      } else {
        assert g.Adjacent(u, n);
      }
    }
  }

  lemma BlackenedNeighboursAgree(g: Graph, s: State, n: Node)
    requires Inv(g, s) && n in g.nodes
    ensures var t := Blackened(g, s, n);
      forall u, v | t.Is(u, Black) && t.Is(v, Black) && g.Adjacent(u, v) :: t.id[u] == t.id[v]
  {
    hide Joined, HasBlackNeighbour;
  }

  // ----- Component labelling is exact -----

  ghost predicate LabelsExact(g: Graph, s: State) {
    && s.Over(g)
    && (forall u, v | s.Is(u, Black) && s.Is(v, Black) :: s.id[u] == s.id[v] <==> Joined(g, s.Blacks(), u, v))
    && (forall u, v | u in s.color && !s.Is(u, Black) && v in s.color && v != u :: s.id[u] != s.id[v])
  }

  lemma {:induction false} WalkKeepsId(g: Graph, s: State, p: seq<Node>)
    requires Inv(g, s) && IsWalk(g, s.Blacks(), p)
    ensures s.id[p[0]] == s.id[p[|p| - 1]]
  {
    if |p| > 1 {
      assert g.Adjacent(p[0], p[1]);
      assert IsWalk(g, s.Blacks(), p[1..]) by {
        forall i | 0 <= i < |p[1..]| - 1 ensures g.Adjacent(p[1..][i], p[1..][i + 1]) {
          assert g.Adjacent(p[i + 1], p[i + 2]);
        }
      }
      WalkKeepsId(g, s, p[1..]);
    }
  }

  lemma InvMeansLabelsExact(g: Graph, s: State)
    requires Inv(g, s)
    ensures LabelsExact(g, s)
  {
    forall u, v | s.Is(u, Black) && s.Is(v, Black) && Joined(g, s.Blacks(), u, v)
      ensures s.id[u] == s.id[v]
    {
      var p :| Joins(g, s.Blacks(), p, u, v);
      WalkKeepsId(g, s, p);
    }
  }

  /** Any run of blackenings from the all-white start keeps the labels exact. */
  lemma {:induction false} LabelsExactAfterAnyRun(g: Graph, s: State, p: seq<Node>)
    requires Inv(g, s) && (forall n | n in p :: n in g.nodes)
    ensures Inv(g, BlackenedAll(g, s, p)) && LabelsExact(g, BlackenedAll(g, s, p))
    decreases |p|
  {
    if p == [] {
      InvMeansLabelsExact(g, s);
    } else {
      BlackenedKeepsInv(g, s, p[0]);
      LabelsExactAfterAnyRun(g, Blackened(g, s, p[0]), p[1..]);
    }
  }

  // ----- Counting pieces -----

  lemma InvFacts(g: Graph, s: State)
    requires Inv(g, s)
    ensures g.Valid() && s.Over(g)
  {
  }

  lemma BlackenedIds(g: Graph, s: State, n: Node)
    requires Inv(g, s) && n in g.nodes
    ensures Blackened(g, s, n).BlackIds() == s.BlackIds() - TouchedIds(g, s, n) + {s.id[n]}
    ensures forall i | i in TouchedIds(g, s, n) && i != s.id[n] :: i in s.BlackIds()
  {
    hide Inv;
    InvFacts(g, s);
    var t := Blackened(g, s, n);
    forall i ensures i in t.BlackIds() <==> i in s.BlackIds() - TouchedIds(g, s, n) + {s.id[n]} {
      BlackenedId(g, s, n, i);
    }
  }

  lemma BlackenedId(g: Graph, s: State, n: Node, i: int)
    requires g.Valid() && s.Over(g) && n in g.nodes
    ensures i in Blackened(g, s, n).BlackIds() <==> i == s.id[n] || (i in s.BlackIds() && i !in TouchedIds(g, s, n))
  {
    var t, touched := Blackened(g, s, n), TouchedIds(g, s, n);
    assert t.id[n] == s.id[n] && t.Is(n, Black);
    if i in s.BlackIds() && i !in touched {
      var u :| u in s.color && s.color[u] == Black && u in s.id && s.id[u] == i;
      assert u in t.color && t.color[u] == Black;
      assert u in t.id && t.id[u] == i;
    }
    if i in t.BlackIds() {
      var u :| u in t.color && t.color[u] == Black && u in t.id && t.id[u] == i;
      assert u == n || s.color[u] == Black;
    }
  }

  function WhiteNeighbours(g: Graph, s: State, n: Node): set<Node>
    requires n in g.adj
  {
    set m | m in g.adj[n] && s.Is(m, White)
  }

  lemma SubsetCardinality<T>(A: set<T>, B: set<T>)
    requires A <= B
    ensures |A| <= |B|
    ensures A != B ==> |A| < |B|
  {
    assert B == A + (B - A);
  }

  lemma BlackenedWhiteCount(g: Graph, s: State, n: Node)
    requires g.Valid() && s.Over(g) && g.NoSelfLoops() && n in g.nodes && !s.Is(n, Black)
    ensures |s.Whites()| ==
      |Blackened(g, s, n).Whites()| + |WhiteNeighbours(g, s, n)| + (if s.Is(n, White) then 1 else 0)
  {
    var w := WhiteNeighbours(g, s, n);
    BlackenedBlacks(g, s, n);
    assert w == s.Whites() * g.adj[n];
    SetSplit(s.Whites(), g.adj[n], n);
  }

  lemma SetSplit<T>(A: set<T>, R: set<T>, x: T)
    requires x !in R
    ensures |A| == |A - {x} - R| + |A * R| + (if x in A then 1 else 0)
  {
    assert A - {x} == (A - {x} - R) + (A * R);
    if x in A {
      assert A == (A - {x}) + {x};
    } else {
      assert A - {x} == A;
    }
  }

  lemma SubsetDifference<T>(A: set<T>, B: set<T>)
    requires A <= B
    ensures |B - A| + |A| == |B|
  {
    assert B == A + (B - A);
  }

  lemma BlackenedIdCount(g: Graph, s: State, n: Node)
    requires Inv(g, s) && g.NoSelfLoops() && n in g.nodes && !s.Is(n, Black)
    ensures |Blackened(g, s, n).BlackIds()| <= |s.BlackIds()| + (if s.Is(n, White) then 1 else 0)
  {
    hide Inv, Blackened, TouchedIds, State.BlackIds;
    InvFacts(g, s);
    var touched, before := TouchedIds(g, s, n), s.BlackIds();
    BlackenedIds(g, s, n);
    SubsetCardinality(before - touched, before);
    AddOne(before - touched, s.id[n]);
    if s.Is(n, Grey) {
      var i := GreyTouchesBlack(g, s, n);
      assert i !in before - touched;
    }
  }

  lemma GreyTouchesBlack(g: Graph, s: State, n: Node) returns (i: int)
    requires Inv(g, s) && n in g.nodes && s.Is(n, Grey)
    ensures i in TouchedIds(g, s, n) && i in s.BlackIds()
  {
    var v :| g.Adjacent(n, v) && s.Is(v, Black);
    i := s.id[v];
  }

  lemma AddOne<T>(A: set<T>, x: T)
    ensures |A + {x}| <= |A| + 1
  {
    if x in A {
      assert A + {x} == A;
    }
  }

  /** Blackening a white or grey node lowers the pieces by its number of white neighbours, or more. */
  lemma BlackeningLowersPieces(g: Graph, s: State, n: Node)
    requires Inv(g, s) && g.NoSelfLoops() && n in g.nodes && !s.Is(n, Black)
    ensures Blackened(g, s, n).Pieces() + |WhiteNeighbours(g, s, n)| <= s.Pieces()
  {
    BlackenedWhiteCount(g, s, n);
    BlackenedIdCount(g, s, n);
  }

  /** On a connected graph of two or more nodes, the best choice has a white neighbour, and the whites shrink. */
  lemma BestStepLowersWhites(g: Graph, s: State, best: Node)
    requires Inv(g, s) && ConnectedIn(g, g.nodes) && |g.nodes| >= 2 && s.Whites() != {}
    requires best in g.nodes && !s.Is(best, Black)
    requires forall n | n in g.nodes && !s.Is(n, Black) ::
               |WhiteNeighbours(g, s, n)| <= |WhiteNeighbours(g, s, best)|
    ensures WhiteNeighbours(g, s, best) != {}
    ensures Blackened(g, s, best).Whites() < s.Whites()
  {
    var w := Pick(s.Whites());
    var x := SomeNeighbour(g, w);
    assert w in WhiteNeighbours(g, s, x);
    assert |WhiteNeighbours(g, s, best)| > 0;
    BlackenedBlacks(g, s, best);
    var y :| y in WhiteNeighbours(g, s, best);
    assert y in s.Whites() && y !in Blackened(g, s, best).Whites();
  }

  lemma Pick<T>(A: set<T>) returns (x: T)
    requires A != {}
    ensures x in A
  {
    x :| x in A;
  }

  lemma SomeNeighbour(g: Graph, w: Node) returns (x: Node)
    requires g.Valid() && ConnectedIn(g, g.nodes) && |g.nodes| >= 2 && w in g.nodes
    ensures x in g.nodes && g.Adjacent(w, x) && g.Adjacent(x, w)
  {
    var others := g.nodes - {w};
    SubsetDifference({w}, g.nodes);
    var v := Pick(others);
    assert Joined(g, g.nodes, w, v);
    var p :| Joins(g, g.nodes, p, w, v);
    x := p[1];
    assert g.Adjacent(p[0], p[1]);
  }
}
