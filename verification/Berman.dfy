/** The search for connected dominating sets: greedy blackening, then joining black components by short paths. */
module Berman {
  import opened Graphs
  import opened Colourings

  // ----- Two components of a dominating set are at most three hops apart -----

  /** v or a neighbour of v is a black node whose id is i (same) or is not i (!same). */
  ghost predicate Near(g: Graph, s: State, v: Node, i: int, same: bool) {
    exists x :: s.Is(x, Black) && x in s.id && (s.id[x] == i) == same && (x == v || g.Adjacent(v, x))
  }

  /** Where everybody is black or has a black neighbour, every node is near some component. */
  lemma NearSome(g: Graph, s: State, v: Node, i: int)
    requires Inv(g, s) && s.Whites() == {} && v in g.nodes
    ensures Near(g, s, v, i, true) || Near(g, s, v, i, false)
  {
    assert v !in s.Whites();
    assert s.Is(v, Black) || s.Is(v, Grey);
    var x := v;
    if !s.Is(v, Black) {
      x :| g.Adjacent(v, x) && s.Is(x, Black);
    }
    assert s.Is(x, Black) && (x == v || g.Adjacent(v, x));
    assert Near(g, s, v, i, s.id[x] == i);
  }

  lemma RestOfWalk(g: Graph, S: set<Node>, p: seq<Node>)
    requires IsWalk(g, S, p) && |p| > 1
    ensures IsWalk(g, S, p[1..])
  {
    forall j | 0 <= j < |p[1..]| - 1 ensures g.Adjacent(p[1..][j], p[1..][j + 1]) {
      assert g.Adjacent(p[j + 1], p[j + 2]);
    }
  }

  lemma {:induction false} CrossingPoint(g: Graph, s: State, p: seq<Node>, i: int) returns (k: nat)
    requires Inv(g, s) && s.Whites() == {} && IsWalk(g, g.nodes, p)
    requires Near(g, s, p[0], i, true) && Near(g, s, p[|p| - 1], i, false)
    ensures k < |p| && Near(g, s, p[k], i, true)
    ensures Near(g, s, p[k], i, false) || (k + 1 < |p| && Near(g, s, p[k + 1], i, false))
  {
    hide Near, Inv;
    if Near(g, s, p[0], i, false) || |p| == 1 || Near(g, s, p[1], i, false) {
      k := 0;
    } else {
      NearSome(g, s, p[1], i);
      RestOfWalk(g, g.nodes, p);
      var j := CrossingPoint(g, s, p[1..], i);
      k := j + 1;
    }
  }

  /** A walk of at most four nodes between two black nodes that carry different ids. */
  ghost predicate ShortLink(g: Graph, s: State, q: seq<Node>) {
    && IsWalk(g, g.nodes, q) && |q| <= 4
    && s.Is(q[0], Black) && s.Is(q[|q| - 1], Black)
    && q[0] in s.id && q[|q| - 1] in s.id && s.id[q[0]] != s.id[q[|q| - 1]]
  }

  lemma ComponentsWithinThreeHops(g: Graph, s: State, a: Node, b: Node) returns (q: seq<Node>)
    requires Inv(g, s) && s.Whites() == {}
    requires s.Is(a, Black) && s.Is(b, Black) && s.id[a] != s.id[b] && Joined(g, g.nodes, a, b)
    ensures ShortLink(g, s, q)
  {
    var p :| Joins(g, g.nodes, p, a, b);
    var i := s.id[a];
    var k := CrossingPoint(g, s, p, i);
    var u := p[k];
    var x, front := BlackBefore(g, s, u, i);
    if Near(g, s, u, i, false) {
      var y, q' := BlackAfter(g, s, front, i);
      q := q';
    } else {
      var v := p[k + 1];
      assert g.Adjacent(u, v);
      var y, q' := BlackAfter(g, s, front + [v], i);
      q := q';
    }
  }

  /** A walk of at most two nodes from a black node with id i to u. */
  lemma BlackBefore(g: Graph, s: State, u: Node, i: int) returns (x: Node, w: seq<Node>)
    requires g.Valid() && s.Over(g) && u in g.nodes && Near(g, s, u, i, true)
    ensures IsWalk(g, g.nodes, w) && |w| <= 2 && w[0] == x && w[|w| - 1] == u
    ensures s.Is(x, Black) && x in s.id && s.id[x] == i
  {
    x :| s.Is(x, Black) && x in s.id && s.id[x] == i && (x == u || g.Adjacent(u, x));
    w := if x == u then [u] else [x, u];
  }

  /** The walk goes on, by one node at most, to a black node with another id. */
  lemma BlackAfter(g: Graph, s: State, w: seq<Node>, i: int) returns (y: Node, q: seq<Node>)
    requires g.Valid() && s.Over(g) && IsWalk(g, g.nodes, w) && |w| <= 3
    requires s.Is(w[0], Black) && w[0] in s.id && s.id[w[0]] == i && Near(g, s, w[|w| - 1], i, false)
    ensures ShortLink(g, s, q)
  {
    var v := w[|w| - 1];
    y :| s.Is(y, Black) && y in s.id && s.id[y] != i && (y == v || g.Adjacent(v, y));
    q := if y == v then w else w + [y];
  }

  // ----- Blackening a path between two components merges them -----

  lemma BlackeningBlackIsIdle(g: Graph, s: State, n: Node)
    requires Inv(g, s) && s.Is(n, Black)
    ensures Blackened(g, s, n) == s
  {
    var t := Blackened(g, s, n);
    forall m | m in s.id ensures t.id[m] == s.id[m] {
      if s.id[m] in TouchedIds(g, s, n) {
        var v :| v in g.adj[n] && v in s.id && (v == n || s.Is(v, Black)) && s.id[v] == s.id[m];
        assert g.Adjacent(n, v);
      }
    }
    forall m | m in s.color ensures t.color[m] == s.color[m] {
      if m in g.adj[n] && s.Is(m, White) {
        assert g.Adjacent(m, n);
      }
    }
    assert t.id == s.id && t.color == s.color;
  }

  /** c bounds the black ids; once prev and dst carry the same id one of them is gone. */
  ghost predicate Merging(s: State, prev: Node, dst: Node, c: nat) {
    && s.Is(prev, Black) && s.Is(dst, Black) && prev in s.id && dst in s.id
    && |s.BlackIds()| <= c
    && (s.id[prev] == s.id[dst] ==> |s.BlackIds()| < c)
  }

  lemma MergingStep(g: Graph, s: State, prev: Node, x: Node, dst: Node, c: nat)
    requires Inv(g, s) && Merging(s, prev, dst, c) && g.Adjacent(prev, x)
    ensures Merging(Blackened(g, s, x), x, dst, c)
  {
    MergingEnds(g, s, prev, x, dst);
    hide Inv, Blackened, TouchedIds;
    BlackenedIds(g, s, x);
    MergeCount(s.BlackIds(), TouchedIds(g, s, x), s.id[prev], s.id[dst], s.id[x], c);
  }

  lemma MergingEnds(g: Graph, s: State, prev: Node, x: Node, dst: Node)
    requires Inv(g, s) && g.Adjacent(prev, x) && s.Is(prev, Black) && s.Is(dst, Black)
    ensures x in g.nodes && x in s.id && g.adj.Keys == g.nodes
    ensures s.id[prev] in TouchedIds(g, s, x) && s.id[prev] in s.BlackIds() && s.id[dst] in s.BlackIds()
    ensures var t := Blackened(g, s, x);
      && t.Is(x, Black) && t.Is(dst, Black) && x in t.id && dst in t.id && t.id[x] == s.id[x]
      && (t.id[x] == t.id[dst] ==> s.id[dst] in TouchedIds(g, s, x) || s.id[dst] == s.id[x])
  {
    assert prev in g.adj[x];
  }

  lemma MergeCount(A: set<int>, R: set<int>, p: int, d: int, x: int, c: nat)
    requires p in A && d in A && p in R && |A| <= c && (p == d ==> |A| < c)
    ensures |A - R + {x}| <= c
    ensures d in R ==> |A - R + {x}| < c
  {
    RemoveAndAdd(A, R, {p}, x);
    if d in R {
      RemoveAndAdd(A, R, {p, d}, x);
    }
  }

  lemma RemoveAndAdd<T>(A: set<T>, R: set<T>, gone: set<T>, x: T)
    requires gone <= A && gone <= R
    ensures |A - R + {x}| + |gone| <= |A| + 1
  {
    SubsetCardinality(A - R, A - gone);
    SubsetDifference(gone, A);
    AddOne(A - R, x);
  }

  lemma {:induction false} MergingAlong(g: Graph, s: State, prev: Node, rest: seq<Node>, dst: Node, c: nat)
    requires Inv(g, s) && Merging(s, prev, dst, c) && IsWalk(g, g.nodes, [prev] + rest + [dst])
    requires forall n | n in rest :: n in g.nodes
    ensures |BlackenedAll(g, s, rest).BlackIds()| < c
    decreases |rest|
  {
    var w := [prev] + rest + [dst];
    assert g.Adjacent(w[0], w[1]);
    if rest != [] {
      MergingStep(g, s, prev, rest[0], dst, c);
      BlackenedKeepsInv(g, s, rest[0]);
      var w' := [rest[0]] + rest[1..] + [dst];
      assert w' == w[1..];
      forall i | 0 <= i < |w'| - 1 ensures g.Adjacent(w'[i], w'[i + 1]) {
        assert g.Adjacent(w[i + 1], w[i + 2]);
      }
      MergingAlong(g, Blackened(g, s, rest[0]), rest[0], rest[1..], dst, c);
    }
  }

  /** Blackening all but the last node of a link between two components lowers the number of components. */
  lemma ConnectingLowersIds(g: Graph, s: State, p: seq<Node>)
    requires Inv(g, s) && IsWalk(g, g.nodes, p)
    requires s.Is(p[0], Black) && s.Is(p[|p| - 1], Black) && s.id[p[0]] != s.id[p[|p| - 1]]
    ensures |BlackenedAll(g, s, p[..|p| - 1]).BlackIds()| < |s.BlackIds()|
  {
    var m := p[..|p| - 1];
    BlackeningBlackIsIdle(g, s, p[0]);
    assert m[0] == p[0] && [p[0]] + m[1..] + [p[|p| - 1]] == p;
    MergingAlong(g, s, p[0], m[1..], p[|p| - 1], |s.BlackIds()|);
  }

  lemma {:induction false} BlackenedAllColours(g: Graph, s: State, p: seq<Node>)
    requires Inv(g, s) && (forall n | n in p :: n in g.nodes)
    ensures var t := BlackenedAll(g, s, p);
      && Inv(g, t)
      && t.Blacks() == s.Blacks() + (set n | n in p)
      && t.Whites() <= s.Whites()
    decreases |p|
  {
    hide Inv, Blackened;
    if p != [] {
      InvFacts(g, s);
      BlackenedKeepsInv(g, s, p[0]);
      BlackenedBlacks(g, s, p[0]);
      BlackenedAllColours(g, Blackened(g, s, p[0]), p[1..]);
    }
  }

  // ----- Reading the end states -----

  lemma OneIdMeansConnected(g: Graph, s: State)
    requires Inv(g, s) && |s.BlackIds()| <= 1
    ensures ConnectedIn(g, s.Blacks())
  {
    forall a, b | a in s.Blacks() && b in s.Blacks() ensures s.id[a] == s.id[b] {
      if s.id[a] != s.id[b] {
        SubsetCardinality({s.id[a], s.id[b]}, s.BlackIds());
      }
    }
  }

  lemma TwoIds(s: State) returns (a: Node, b: Node)
    requires |s.BlackIds()| > 1
    ensures s.Is(a, Black) && s.Is(b, Black) && a in s.id && b in s.id && s.id[a] != s.id[b]
  {
    var i := Pick(s.BlackIds());
    SubsetDifference({i}, s.BlackIds());
    var j := Pick(s.BlackIds() - {i});
    a :| s.Is(a, Black) && a in s.id && s.id[a] == i;
    b :| s.Is(b, Black) && b in s.id && s.id[b] == j;
  }

  lemma NoWhitesDominates(g: Graph, s: State)
    requires Inv(g, s) && s.Whites() == {}
    ensures Dominates(g, s.Blacks())
  {
    forall v | v in g.nodes && v !in s.Blacks()
      ensures exists u :: u in s.Blacks() && g.Adjacent(v, u)
    {
      assert v !in s.Whites();
      assert s.Is(v, Grey);
      var u :| g.Adjacent(v, u) && s.Is(u, Black);
      assert u in s.Blacks();
    }
  }

  /** A returned set is a backbone exactly when the graph is connected; otherwise it is all nodes. */
  ghost predicate BackboneIffConnected(g: Graph, S: set<Node>) {
    && S <= g.nodes && Dominates(g, S)
    && (ConnectedIn(g, S) <==> ConnectedIn(g, g.nodes))
    && (!ConnectedIn(g, g.nodes) ==> S == g.nodes)
  }

  lemma EndStateIsBackbone(g: Graph, s: State)
    requires Inv(g, s) && s.Whites() == {}
    requires |s.BlackIds()| <= 1 || s.Greys() == {}
    ensures BackboneIffConnected(g, s.Blacks())
  {
    NoWhitesDominates(g, s);
    if ConnectedIn(g, s.Blacks()) {
      ConnectedBackboneConnectsGraph(g, s.Blacks());
    }
    if |s.BlackIds()| <= 1 {
      OneIdMeansConnected(g, s);
    } else {
      forall v | v in g.nodes ensures v in s.Blacks() {
        assert v !in s.Whites() && v !in s.Greys();
      }
      assert s.Blacks() == g.nodes;
    }
  }

  // ----- Whole searches -----

  /** n is a choice of the greedy phase: a node that is not black yet, with as many white neighbours as any other. */
  ghost predicate GreedyStep(g: Graph, s: State, n: Node) {
    && s.Over(g) && g.adj.Keys == g.nodes && n in g.nodes && !s.Is(n, Black) && s.Whites() != {}
    && forall m | m in g.nodes && !s.Is(m, Black) :: |WhiteNeighbours(g, s, m)| <= |WhiteNeighbours(g, s, n)|
  }

  /** The greedy phase can go from s to t by blackening the steps in order. */
  ghost predicate GreedyRun(g: Graph, s: State, steps: seq<Node>, t: State)
    decreases |steps|
  {
    if steps == [] then t == s else
      var before, n := steps[..|steps| - 1], steps[|steps| - 1];
      exists u: State :: GreedyRun(g, s, before, u) && GreedyStep(g, u, n) && t == Blackened(g, u, n)
  }

  /** p is a choice of the connecting phase, and t what blackening all of it but its last node makes of s. */
  ghost predicate LinkStep(g: Graph, s: State, p: seq<Node>, t: State) {
    && s.Greys() != {} && s.Pieces() > 1 && ShortestLink(g, s, p)
    && (forall n | n in p[..|p| - 1] :: n in g.adj && n in s.id)
    && t == BlackenedAll(g, s, p[..|p| - 1])
  }

  ghost predicate LinkRun(g: Graph, s: State, links: seq<seq<Node>>, t: State)
    decreases |links|
  {
    if links == [] then t == s else
      var before, p := links[..|links| - 1], links[|links| - 1];
      exists u: State :: LinkRun(g, s, before, u) && LinkStep(g, u, p, t)
  }

  /** S is the black set at the end of a greedy phase from some numbering and a connecting phase after it. */
  ghost predicate Searched(g: Graph, S: set<Node>) {
    exists id: map<Node, int>, steps: seq<Node>, links: seq<seq<Node>>, u: State, t: State ::
      && Numbers(g, id)
      && GreedyRun(g, Start(g, id), steps, u) && u.Whites() == {}
      && LinkRun(g, u, links, t) && S == t.Blacks()
  }

  /** A search can get stuck: grey nodes and several pieces are left, but no short link joins two of them. */
  ghost predicate GivesUp(g: Graph) {
    exists id: map<Node, int>, steps: seq<Node>, links: seq<seq<Node>>, u: State, t: State ::
      && Numbers(g, id)
      && GreedyRun(g, Start(g, id), steps, u) && u.Whites() == {}
      && LinkRun(g, u, links, t) && IsStuck(g, t)
  }

  ghost predicate IsStuck(g: Graph, t: State) {
    Inv(g, t) && t.Whites() == {} && t.Greys() != {} && t.Pieces() > 1 && NoShortLink(g, t)
  }

  /** Only a disconnected graph can stop a search, and only one in which somebody has a neighbour. */
  lemma GivesUpOnlyIf(g: Graph)
    requires GivesUp(g)
    ensures !ConnectedIn(g, g.nodes) && !NoLinks(g)
  {
    hide GreedyRun, LinkRun, ConnectedIn, State.Pieces, NoShortLink;
    var id, steps, links, u, t: State :| Numbers(g, id) && GreedyRun(g, Start(g, id), steps, u) && u.Whites() == {}
      && LinkRun(g, u, links, t) && IsStuck(g, t);
    FailsOnlyIfDisconnected(g, t);
    GreyHasLink(g, t);
  }

  lemma GreyHasLink(g: Graph, s: State)
    requires Inv(g, s) && s.Greys() != {}
    ensures !NoLinks(g)
  {
    var n := Pick(s.Greys());
    assert s.Is(n, Grey);
    assert HasBlackNeighbour(g, s, n);
  }

  ghost predicate Numbers(g: Graph, id: map<Node, int>) {
    id.Keys == g.nodes && forall u, v | u in id && v in id && u != v :: id[u] != id[v]
  }

  lemma GreedyRunGrows(g: Graph, s: State, steps: seq<Node>, u: State, n: Node)
    requires GreedyRun(g, s, steps, u) && GreedyStep(g, u, n)
    ensures GreedyRun(g, s, steps + [n], Blackened(g, u, n))
  {
    hide GreedyStep, Blackened;
    assert u.Over(g) && n in g.adj by { StepInNodes(g, u, n); }
    assert (steps + [n])[..|steps|] == steps;
  }

  lemma StepInNodes(g: Graph, s: State, n: Node)
    requires GreedyStep(g, s, n)
    ensures s.Over(g) && n in g.adj && n in s.id
  {
  }

  lemma LinkRunGrows(g: Graph, s: State, links: seq<seq<Node>>, u: State, p: seq<Node>, t: State)
    requires LinkRun(g, s, links, u) && LinkStep(g, u, p, t)
    ensures LinkRun(g, s, links + [p], t)
  {
    assert (links + [p])[..|links|] == links;
  }

  /** On a connected graph of two or more nodes every greedy step lowers the pieces, so there are few of them. */
  lemma {:induction false} GreedyRunIsShort(g: Graph, s: State, steps: seq<Node>, t: State)
    requires Inv(g, s) && g.NoSelfLoops() && ConnectedIn(g, g.nodes) && |g.nodes| >= 2
    requires GreedyRun(g, s, steps, t)
    ensures Inv(g, t) && t.Pieces() + |steps| <= s.Pieces()
    decreases |steps|
  {
    hide Inv, Blackened, State.Pieces, WhiteNeighbours, ConnectedIn;
    if steps != [] {
      var n := steps[|steps| - 1];
      var u: State :| GreedyRun(g, s, steps[..|steps| - 1], u) && GreedyStep(g, u, n) && t == Blackened(g, u, n);
      GreedyRunIsShort(g, s, steps[..|steps| - 1], u);
      GreedyStepLowersPieces(g, u, n);
    }
  }

  lemma GreedyStepLowersPieces(g: Graph, s: State, n: Node)
    requires Inv(g, s) && g.NoSelfLoops() && ConnectedIn(g, g.nodes) && |g.nodes| >= 2 && GreedyStep(g, s, n)
    ensures Inv(g, Blackened(g, s, n)) && Blackened(g, s, n).Pieces() < s.Pieces()
  {
    hide Inv, Blackened, State.Pieces, WhiteNeighbours, ConnectedIn;
    BlackenedKeepsInv(g, s, n);
    BestStepLowersWhites(g, s, n);
    BlackeningLowersPieces(g, s, n);
    assert |WhiteNeighbours(g, s, n)| > 0;
  }

  /** Every link lowers the pieces. */
  lemma {:induction false} LinkRunIsShort(g: Graph, s: State, links: seq<seq<Node>>, t: State)
    requires Inv(g, s) && s.Whites() == {} && LinkRun(g, s, links, t)
    ensures Inv(g, t) && t.Whites() == {} && t.Pieces() + |links| <= s.Pieces()
    decreases |links|
  {
    hide Inv, BlackenedAll, State.Pieces;
    if links != [] {
      var p := links[|links| - 1];
      var u: State :| LinkRun(g, s, links[..|links| - 1], u) && LinkStep(g, u, p, t);
      LinkRunIsShort(g, s, links[..|links| - 1], u);
      ConnectingStep(g, u, p) by {
        assert forall n | n in p[..|p| - 1] :: n in g.nodes;
      }
    }
  }

  // ----- The algorithm -----

  /** paths(i) is the answer of nx.shortest_path to call i; each may be another one. */
  ghost predicate AnswersAll(g: Graph, paths: nat -> PathTable) {
    forall i: nat :: AllShortestPaths(g, paths(i))
  }

  /** random.shuffle: the result may be any rearrangement. */
  method Shuffle(s: seq<Node>) returns (t: seq<Node>)
    ensures multiset(t) == multiset(s)
    ensures forall n :: n in t <==> n in s
  {
    var rest := s;
    t := [];
    while rest != []
      invariant multiset(t) + multiset(rest) == multiset(s)
      decreases |rest|
    {
      var i :| 0 <= i < |rest|;
      assert rest == rest[..i] + [rest[i]] + rest[i + 1..];
      t, rest := t + [rest[i]], rest[..i] + rest[i + 1..];
    }
    forall n ensures n in t <==> n in s {
      assert n in t <==> n in multiset(t);
      assert n in s <==> n in multiset(s);
    }
  }

  method Listed(S: set<Node>) returns (s: seq<Node>)
    ensures forall n :: n in s <==> n in S
  {
    var rest := S;
    s := [];
    while rest != {}
      invariant rest <= S && (forall n :: n in s <==> n in S - rest)
    {
      var n :| n in rest;
      s, rest := s + [n], rest - {n};
    }
  }

  type Keep = (Node, Node, seq<Node>) -> bool

  function Filtered(paths: PathTable, keep: Keep): PathTable {
    map k | k in paths && keep(k.0, k.1, paths[k]) :: paths[k]
  }

  /** The deleting loops that randomly_connect runs once per filter. */
  method Retain(paths: PathTable, keep: Keep) returns (kept: PathTable)
    ensures kept == Filtered(paths, keep)
  {
    kept := paths;
    var todo := paths.Keys;
    while todo != {}
      invariant todo <= paths.Keys
      invariant kept == map k | k in paths && (k in todo || keep(k.0, k.1, paths[k])) :: paths[k]
    {
      var k :| k in todo;
      if !keep(k.0, k.1, paths[k]) {
        kept := kept - {k};
      }
      todo := todo - {k};
    }
  }

  method MinLength(paths: PathTable) returns (m: nat)
    ensures forall k | k in paths :: m <= |paths[k]|
    ensures m == 100000 || exists k :: k in paths && |paths[k]| == m
  {
    m := 100000;
    var todo := paths.Keys;
    while todo != {}
      invariant todo <= paths.Keys
      invariant forall k | k in paths && k !in todo :: m <= |paths[k]|
      invariant m == 100000 || exists k :: k in paths && |paths[k]| == m
    {
      var k :| k in todo;
      m := if |paths[k]| < m then |paths[k]| else m;
      todo := todo - {k};
    }
  }

  // ----- The filters of randomly_connect -----

  function BothBlack(color: map<Node, Color>): Keep {
    (a: Node, b: Node, q: seq<Node>) => a in color && color[a] == Black && b in color && color[b] == Black
  }

  function DifferentIds(id: map<Node, int>): Keep {
    (a: Node, b: Node, q: seq<Node>) =>
      |q| > 0 && a in id && q[|q| - 1] in id && id[a] != id[q[|q| - 1]] && a != q[|q| - 1]
  }

  function AtMost(m: int): Keep {
    (a: Node, b: Node, q: seq<Node>) => |q| <= m
  }

  function Candidates(s: State, paths: PathTable): PathTable {
    Filtered(Filtered(Filtered(paths, BothBlack(s.color)), DifferentIds(s.id)), AtMost(4))
  }

  lemma CandidateIsShortLink(g: Graph, s: State, paths: PathTable, k: (Node, Node))
    requires s.Over(g) && AllShortestPaths(g, paths) && k in Candidates(s, paths)
    ensures ShortLink(g, s, Candidates(s, paths)[k])
  {
    assert IsShortest(g, paths[k], k.0, k.1);
  }

  /** For any given short link the table holds one that is no longer. */
  lemma CandidatesOffer(g: Graph, s: State, paths: PathTable, q: seq<Node>) returns (k: (Node, Node))
    requires s.Over(g) && AllShortestPaths(g, paths) && ShortLink(g, s, q)
    ensures k in Candidates(s, paths) && |Candidates(s, paths)[k]| <= |q|
  {
    k := (q[0], q[|q| - 1]);
    WalkJoins(g, g.nodes, q);
    assert k in paths && IsShortest(g, paths[k], k.0, k.1);
    assert Joins(g, g.nodes, q, k.0, k.1);
  }

  ghost predicate ShortestLink(g: Graph, s: State, p: seq<Node>) {
    ShortLink(g, s, p) && forall q | ShortLink(g, s, q) :: |p| <= |q|
  }

  lemma ChoiceIsShortest(g: Graph, s: State, paths: PathTable, m: nat, k: (Node, Node))
    requires s.Over(g) && AllShortestPaths(g, paths)
    requires forall j | j in Candidates(s, paths) :: m <= |Candidates(s, paths)[j]|
    requires k in Candidates(s, paths) && |Candidates(s, paths)[k]| <= m
    ensures ShortestLink(g, s, Candidates(s, paths)[k])
  {
    CandidateIsShortLink(g, s, paths, k);
    forall q | ShortLink(g, s, q)
      ensures |Candidates(s, paths)[k]| <= |q|
    {
      var j := CandidatesOffer(g, s, paths, q);
    }
  }

  lemma NoCandidatesNoLink(g: Graph, s: State, paths: PathTable)
    requires s.Over(g) && AllShortestPaths(g, paths) && Candidates(s, paths) == map[]
    ensures !exists q :: ShortLink(g, s, q)
  {
    forall q | ShortLink(g, s, q) ensures false {
      var k := CandidatesOffer(g, s, paths, q);
    }
  }

  lemma ChoicesAreShortest(g: Graph, s: State, paths: PathTable, m: nat)
    requires s.Over(g) && AllShortestPaths(g, paths) && Candidates(s, paths) != map[]
    requires forall j | j in Candidates(s, paths) :: m <= |Candidates(s, paths)[j]|
    requires m == 100000 || exists j :: j in Candidates(s, paths) && |Candidates(s, paths)[j]| == m
    ensures Filtered(Candidates(s, paths), AtMost(m)) != map[]
    ensures forall k | k in Filtered(Candidates(s, paths), AtMost(m)) ::
              ShortestLink(g, s, Filtered(Candidates(s, paths), AtMost(m))[k])
  {
    var all := Candidates(s, paths);
    var a := Pick(all.Keys);
    assert |all[a]| <= 4 by {
      CandidateIsShortLink(g, s, paths, a);
    }
    var k :| k in all && |all[k]| == m;
    assert k in Filtered(all, AtMost(m));
    forall j | j in Filtered(all, AtMost(m)) ensures ShortestLink(g, s, all[j]) {
      ChoiceIsShortest(g, s, paths, m, j);
    }
  }

  lemma ConnectingStep(g: Graph, s: State, p: seq<Node>)
    requires Inv(g, s) && s.Whites() == {} && ShortLink(g, s, p)
    requires forall n | n in p[..|p| - 1] :: n in g.nodes
    ensures var t := BlackenedAll(g, s, p[..|p| - 1]);
      Inv(g, t) && t.Whites() == {} && t.Pieces() < s.Pieces()
  {
    BlackenedAllColours(g, s, p[..|p| - 1]);
    ConnectingLowersIds(g, s, p);
  }

  lemma FewerLeft(nodes: set<Node>, black: set<Node>, n: Node)
    requires n in nodes && n !in black
    ensures |nodes - (black + {n})| < |nodes - black|
  {
    assert nodes - black == (nodes - (black + {n})) + {n};
  }

  // ----- The first loop of color_black, after some neighbours -----

  function Marked(s: State, n: Node, done: set<Node>): map<Node, Color> {
    map m | m in s.color :: if m == n then Black else if m in done && s.color[m] == White then Grey else s.color[m]
  }

  function MarkedIds(s: State, n: Node, done: set<Node>): set<int> {
    set m | m in done && m in s.id && (m == n || s.Is(m, Black)) :: s.id[m]
  }

  lemma MarkedMore(s: State, n: Node, done: set<Node>, m: Node)
    requires m in s.color && m in s.id && m !in done
    ensures var c := Marked(s, n, done);
      && Marked(s, n, done + {m}) == (if c[m] == White then c[m := Grey] else c)
      && MarkedIds(s, n, done + {m}) == MarkedIds(s, n, done) + (if c[m] == Black then {s.id[m]} else {})
  {
  }

  lemma AllMarked(g: Graph, s: State, n: Node)
    requires n in g.adj && n in s.id
    ensures Marked(s, n, g.adj[n]) == Blackened(g, s, n).color
    ensures MarkedIds(s, n, g.adj[n]) == TouchedIds(g, s, n)
  {
  }

  /** A copy of the graph with its two node attributes. */
  class ColouredGraph {
    const g: Graph
    var color: map<Node, Color>
    var id: map<Node, int>

    ghost function View(): State
      reads this
    {
      State(color, id)
    }

    ghost predicate Valid()
      reads this
    {
      Inv(g, View())
    }

    /** All white, node number i of the iteration order gets id i. */
    constructor (g0: Graph)
      requires g0.Valid()
      ensures g == g0 && Valid() && Numbers(g, id) && View() == Start(g, id)
    {
      g := g0;
      new;
      var col: map<Node, Color>, ids: map<Node, int>, i: nat, rest := map[], map[], 0, g.nodes;
      while rest != {}
        invariant rest <= g.nodes
        invariant col == map n | n in g.nodes && n !in rest :: White
        invariant ids.Keys == g.nodes - rest
        invariant forall u | u in ids :: ids[u] < i
        invariant forall u, v | u in ids && v in ids && u != v :: ids[u] != ids[v]
      {
        var n :| n in rest;
        col, ids, i, rest := col[n := White], ids[n := i], i + 1, rest - {n};
      }
      color, id := col, ids;
      StartInv(g, ids);
      assert View() == Start(g, ids);
    }

    method ColorBlack(n: Node)
      requires Valid() && n in g.nodes
      modifies this
      ensures Valid() && View() == Blackened(g, old(View()), n)
    {
      ghost var s := View();
      var ids := MarkNeighbours(n);
      Relabel(n, ids);
      BlackenedKeepsInv(g, s, n);
    }

    /** First loop of color_black: n turns black, its white neighbours grey; the ids of its black neighbours. */
    method MarkNeighbours(n: Node) returns (ids: set<int>)
      requires g.Valid() && View().Over(g) && n in g.nodes
      modifies this`color
      ensures color == Blackened(g, old(View()), n).color
      ensures ids == TouchedIds(g, old(View()), n)
    {
      hide Blackened, TouchedIds;
      ghost var s := View();
      color := color[n := Black];
      ids := {};
      var neighbours := g.adj[n];
      ghost var done := {};
      while neighbours != {}
        invariant neighbours + done == g.adj[n] && neighbours !! done
        invariant color == Marked(s, n, done) && ids == MarkedIds(s, n, done)
      {
        var m :| m in neighbours;
        MarkedMore(s, n, done, m);
        if color[m] == White {
          color := color[m := Grey];
        } else if color[m] == Black {
          ids := ids + {id[m]};
        }
        neighbours, done := neighbours - {m}, done + {m};
      }
      AllMarked(g, s, n);
    }

    /** Second loop of color_black: every node carrying a collected id takes the id of n. */
    method Relabel(n: Node, ids: set<int>)
      requires n in id
      modifies this`id
      ensures id == map m | m in old(id) :: if old(id)[m] in ids then old(id)[n] else old(id)[m]
    {
      ghost var before := id;
      var update := set m | m in id && id[m] in ids;
      while update != {}
        invariant id.Keys == before.Keys && update <= before.Keys && id[n] == before[n]
        invariant forall m | m in update :: before[m] in ids
        invariant forall m | m in before ::
            id[m] == if before[m] in ids && m !in update then before[n] else before[m]
      {
        var m :| m in update;
        id := id[m := id[n]];
        update := update - {m};
      }
    }

    method Reduction(n: Node) returns (red: nat)
      requires Valid() && n in g.nodes
      ensures red == 1 + |WhiteNeighbours(g, View(), n)|
    {
      red := 1;
      var neighbours := g.adj[n];
      ghost var seen := {};
      while neighbours != {}
        invariant neighbours <= g.adj[n]
        invariant seen == set m | m in g.adj[n] && m !in neighbours && View().Is(m, White)
        invariant red == 1 + |seen|
      {
        var m :| m in neighbours;
        assert m in g.nodes;
        if color[m] == White {
          red, seen := red + 1, seen + {m};
        }
        neighbours := neighbours - {m};
      }
      assert seen == WhiteNeighbours(g, View(), n);
    }

    method Whites() returns (s: set<Node>)
      requires Valid()
      ensures s == View().Whites()
    {
      s := set n | n in color && color[n] == White;
    }

    method Greys() returns (s: set<Node>)
      requires Valid()
      ensures s == View().Greys()
    {
      s := set n | n in color && color[n] == Grey;
    }

    method Pieces() returns (c: nat)
      requires Valid()
      ensures c == View().Pieces()
    {
      var ids := set n | n in color && color[n] == Black && n in id :: id[n];
      var whites := Whites();
      c := |ids| + |whites|;
    }

    /** The first node of the shuffled whites and greys with the largest reduction. */
    method BestNode() returns (best: Node)
      requires Valid() && View().Whites() != {}
      ensures best in g.nodes && !View().Is(best, Black)
      ensures forall n | n in g.nodes && !View().Is(n, Black) ::
                |WhiteNeighbours(g, View(), n)| <= |WhiteNeighbours(g, View(), best)|
    {
      hide Inv, WhiteNeighbours;
      ghost var s := View();
      InvFacts(g, s);
      var whites := Whites();
      var greys := Greys();
      var ws := Listed(whites);
      var gs := Listed(greys);
      var nodes := Shuffle(ws + gs);
      ghost var start := Pick(s.Whites());
      assert start in nodes;
      forall n ensures n in nodes <==> n in g.nodes && !s.Is(n, Black) {
        assert n in nodes <==> n in ws || n in gs;
      }
      best := nodes[0];
      var bestReduction: nat, i := 0, 0;
      while i < |nodes|
        invariant 0 <= i <= |nodes| && best in nodes
        invariant i > 0 ==> bestReduction == 1 + |WhiteNeighbours(g, s, best)|
        invariant i == 0 ==> bestReduction == 0
        invariant forall n | n in nodes[..i] :: 1 + |WhiteNeighbours(g, s, n)| <= bestReduction
      {
        var red := Reduction(nodes[i]);
        assert nodes[..i + 1] == nodes[..i] + [nodes[i]];
        if red > bestReduction {
          bestReduction, best := red, nodes[i];
        }
        i := i + 1;
      }
      assert nodes[..i] == nodes;
    }

    method Phase1() returns (ghost steps: seq<Node>)
      requires Valid()
      modifies this
      ensures Valid() && View().Whites() == {} && GreedyRun(g, old(View()), steps, View())
    {
      ghost var s0 := View();
      steps := [];
      var whites := Whites();
      while |whites| > 0
        invariant Valid() && whites == View().Whites() && GreedyRun(g, s0, steps, View())
        decreases |g.nodes - View().Blacks()|
      {
        hide Inv, GreedyRun, WhiteNeighbours, Blackened;
        ghost var before := View();
        InvFacts(g, before);
        assert whites != {};
        var best := BestNode();
        ColorBlack(best);
        BlackenedBlacks(g, before, best);
        GreedyRunGrows(g, s0, steps, before, best);
        steps := steps + [best];
        FewerLeft(g.nodes, before.Blacks(), best);
        whites := Whites();
      }
    }

    /**
     Blackens all but the last node of some shortest link between two components. Answers false, changing nothing,
     exactly when no two black nodes with different ids are within three hops.
     */
    method RandomlyConnect(paths: PathTable) returns (ok: bool, ghost p: seq<Node>)
      requires Valid() && View().Whites() == {} && AllShortestPaths(g, paths)
      modifies this
      ensures Valid() && View().Whites() == {}
      ensures ok <==> exists q :: ShortLink(g, old(View()), q)
      ensures !ok ==> View() == old(View())
      ensures ok ==> ShortestLink(g, old(View()), p)
      ensures ok ==> forall n | n in p[..|p| - 1] :: n in g.adj && n in old(id)
      ensures ok ==> View() == BlackenedAll(g, old(View()), p[..|p| - 1])
      ensures ok ==> View().Pieces() < old(View()).Pieces()
    {
      ghost var s := View();
      p := [];
      var left := LinkChoices(paths);
      if |left| == 0 {
        ok := false;
        return;
      }
      var ends :| ends in left;
      var path := left[ends];
      ok, p := true, path;
      BlackenPath(path);
      ConnectingStep(g, s, path);
    }

    /** The filtering part of randomly_connect: the table the random choice is made from. */
    method LinkChoices(paths: PathTable) returns (left: PathTable)
      requires Valid() && AllShortestPaths(g, paths)
      ensures left == map[] ==> !exists q :: ShortLink(g, View(), q)
      ensures forall k | k in left :: ShortestLink(g, View(), left[k])
    {
      var all := Retain(paths, BothBlack(color));
      all := Retain(all, DifferentIds(id));
      all := Retain(all, AtMost(4));
      assert all == Candidates(View(), paths);
      left := all;
      if |all| == 0 {
        NoCandidatesNoLink(g, View(), paths);
      } else {
        var m := MinLength(all);
        left := Retain(all, AtMost(m));
        ChoicesAreShortest(g, View(), paths, m);
      }
    }

    method BlackenPath(path: seq<Node>)
      requires Valid() && |path| > 0 && forall n | n in path :: n in g.nodes
      modifies this
      ensures Valid() && View() == BlackenedAll(g, old(View()), path[..|path| - 1])
    {
      ghost var s, all := View(), path[..|path| - 1];
      assert forall n | n in all :: n in g.nodes;
      var i := 0;
      while i < |path| - 1
        invariant 0 <= i <= |all|
        invariant Valid()
        invariant BlackenedAll(g, s, all) == BlackenedAll(g, View(), all[i..])
      {
        assert all[i..][0] == path[i] && all[i..][1..] == all[i + 1..];
        ColorBlack(path[i]);
        i := i + 1;
      }
    }

    /** Every call of randomly_connect computes the shortest paths afresh. */
    method Phase2(paths: nat -> PathTable) returns (r: bool, ghost links: seq<seq<Node>>)
      requires Valid() && View().Whites() == {} && AnswersAll(g, paths)
      modifies this
      ensures Valid() && View().Whites() == {} && LinkRun(g, old(View()), links, View())
      ensures r ==> |View().BlackIds()| <= 1 || View().Greys() == {}
      ensures ConnectedIn(g, g.nodes) ==> r
      ensures !r ==> View().Greys() != {} && View().Pieces() > 1 && NoShortLink(g, View())
    {
      ghost var s0 := View();
      links := [];
      var c := Pieces();
      var calls := 0;
      var greys := Greys();
      while c > 1 && |greys| > 0
        invariant Valid() && View().Whites() == {} && LinkRun(g, s0, links, View())
        invariant c == View().Pieces() && greys == View().Greys()
        decreases c
      {
        hide Inv, LinkRun, State.Pieces, BlackenedAll, ShortLink, AllShortestPaths, ConnectedIn;
        ghost var s := View();
        var connected, p := RandomlyConnect(paths(calls));
        calls := calls + 1;
        if !connected {
          FailsOnlyIfDisconnected(g, s);
          return false, links;
        }
        LinkRunGrows(g, s0, links, s, p, View());
        links := links + [p];
        var cNew := Pieces();
        assert cNew < c;
        c := cNew;
        greys := Greys();
      }
      r := true;
    }

    /** No white is left and every grey has a black neighbour. */
    method Validate() returns (ok: bool)
      requires Valid()
      ensures ok <==> View().Whites() == {} && Dominates(g, View().Blacks())
    {
      ghost var s := View();
      var whites := Whites();
      if |whites| > 0 {
        ghost var w := Pick(whites);
        assert w !in s.Blacks();
        return false;
      }
      var todo := Greys();
      while todo != {}
        invariant todo <= s.Greys()
      {
        var n :| n in todo;
        var blackNeighbours := set m | m in g.adj[n] && m in color && color[m] == Black;
        assert HasBlackNeighbour(g, s, n);
        ghost var b :| g.Adjacent(n, b) && s.Is(b, Black);
        assert b in blackNeighbours;
        if |blackNeighbours| == 0 {
          return false;
        }
        todo := todo - {n};
      }
      NoWhitesDominates(g, s);
      ok := true;
    }
  }

  ghost predicate NoShortLink(g: Graph, s: State) {
    !exists q :: ShortLink(g, s, q)
  }

  lemma FailsOnlyIfDisconnected(g: Graph, s: State)
    requires Inv(g, s) && s.Whites() == {} && s.Pieces() > 1 && NoShortLink(g, s)
    ensures !ConnectedIn(g, g.nodes)
  {
    if ConnectedIn(g, g.nodes) {
      var a, b := TwoIds(s);
      var q := ComponentsWithinThreeHops(g, s, a, b);
    }
  }

  ghost predicate NoLinks(g: Graph) {
    g.Valid() && forall u | u in g.adj :: g.adj[u] == {}
  }

  /** Where nobody has a neighbour every node is as good a choice as any other. */
  lemma GreedyStepApart(g: Graph, s: State, n: Node)
    requires NoLinks(g) && s.Over(g) && n in g.nodes && !s.Is(n, Black) && s.Whites() != {}
    ensures GreedyStep(g, s, n)
    ensures Blackened(g, s, n).Over(g)
    ensures Blackened(g, s, n).Whites() == s.Whites() - {n} && Blackened(g, s, n).Blacks() == s.Blacks() + {n}
  {
    hide TouchedIds;
    BlackenedBlacks(g, s, n);
    forall m | m in g.nodes ensures WhiteNeighbours(g, s, m) == {} {
      assert g.adj[m] == {};
    }
  }

  lemma ApartStart(g: Graph, id: map<Node, int>)
    requires id.Keys == g.nodes
    ensures var s := Start(g, id); s.Over(g) && s.Whites() == g.nodes && s.Blacks() == {}
  {
  }

  lemma NotBlack(s: State, n: Node)
    requires n !in s.Blacks()
    ensures !s.Is(n, Black)
  {
  }

  lemma ApartRun(g: Graph, a: Node, b: Node, id: map<Node, int>)
    requires NoLinks(g) && g.nodes == {a, b} && a != b && Numbers(g, id)
    ensures Searched(g, {a, b})
  {
    hide *;
    assert id.Keys == g.nodes && g.adj.Keys == g.nodes by { KeysApart(g, id); }
    var s := Start(g, id);
    ApartStart(g, id);
    NotBlack(s, a);
    GreedyStepApart(g, s, a);
    StepInNodes(g, s, a);
    var t := Blackened(g, s, a);
    assert t.Whites() == {b} && t.Blacks() == {a};
    NotBlack(t, b);
    GreedyStepApart(g, t, b);
    StepInNodes(g, t, b);
    var u := Blackened(g, t, b);
    assert u.Whites() == {} && u.Blacks() == {a, b};
    EmptyRuns(g, s);
    EmptyRuns(g, u);
    GreedyRunGrows(g, s, [], s, a);
    GreedyRunGrows(g, s, [] + [a], t, b);
    SearchEnds(g, id, [] + [a] + [b], [], u, u);
  }

  lemma KeysApart(g: Graph, id: map<Node, int>)
    requires NoLinks(g) && Numbers(g, id)
    ensures id.Keys == g.nodes && g.adj.Keys == g.nodes
  {
  }

  lemma EmptyRuns(g: Graph, s: State)
    ensures GreedyRun(g, s, [], s) && LinkRun(g, s, [], s)
  {
  }

  lemma SearchStops(g: Graph, id: map<Node, int>, steps: seq<Node>, links: seq<seq<Node>>, u: State, t: State)
    requires Numbers(g, id) && GreedyRun(g, Start(g, id), steps, u) && u.Whites() == {} && LinkRun(g, u, links, t)
    requires Inv(g, t) && t.Whites() == {} && t.Greys() != {} && t.Pieces() > 1 && NoShortLink(g, t)
    ensures GivesUp(g)
  {
    hide Inv, GreedyRun, LinkRun, State.Pieces, NoShortLink;
  }

  lemma SearchEnds(g: Graph, id: map<Node, int>, steps: seq<Node>, links: seq<seq<Node>>, u: State, t: State)
    requires Numbers(g, id) && GreedyRun(g, Start(g, id), steps, u) && u.Whites() == {} && LinkRun(g, u, links, t)
    ensures Searched(g, t.Blacks())
  {
  }

  /** Two hosts out of reach of each other: both turn black, no grey is left, and the set returned is not connected. */
  lemma ApartHostsAreReturned(a: Node, b: Node)
    requires a != b
    ensures var g := Graph({a, b}, map[a := {}, b := {}]);
      g.Valid() && Searched(g, {a, b}) && !ConnectedIn(g, {a, b})
  {
    hide Searched;
    var g := Graph({a, b}, map[a := {}, b := {}]);
    ApartRun(g, a, b, map[a := 0, b := 1]);
    NoWalkApart(g, a, b);
  }

  lemma NoWalkApart(g: Graph, a: Node, b: Node)
    requires NoLinks(g) && a != b
    ensures !ConnectedIn(g, {a, b})
  {
    forall p | IsWalk(g, {a, b}, p) ensures |p| == 1 {
      assert |p| > 1 ==> !g.Adjacent(p[0], p[1]);
    }
    assert !Joined(g, {a, b}, a, b);
  }

  /**
   num dominating sets. For every shuffle, every random choice and every choice of shortest paths each of them is a
   connected backbone when the graph is connected; on a disconnected graph the search gives up, or returns all nodes.
   paths(i) answers the calls of nx.shortest_path in search i.
   */
  method McdsBerman(g: Graph, num: nat, paths: nat -> nat -> PathTable) returns (cds: seq<set<Node>>)
    requires g.Valid() && forall i: nat :: AnswersAll(g, paths(i))
    ensures forall S | S in cds :: BackboneIffConnected(g, S) && Searched(g, S)
    ensures |cds| == num || (cds == [] && GivesUp(g))
    ensures ConnectedIn(g, g.nodes) ==> |cds| == num
  {
    cds := [];
    for i := 0 to num
      invariant |cds| == i
      invariant forall S | S in cds :: BackboneIffConnected(g, S) && Searched(g, S)
    {
      var blacks, r, sane := Search(g, paths(i));
      if !r {
        return [];
      }
      cds := cds + [blacks];
    }
  }

  /** One round of the loop: a fresh copy of the graph, and after each phase the sanity check, which never fails. */
  method Search(g: Graph, paths: nat -> PathTable) returns (blacks: set<Node>, r: bool, sane: bool)
    requires g.Valid() && AnswersAll(g, paths)
    ensures sane
    ensures ConnectedIn(g, g.nodes) ==> r
    ensures r ==> BackboneIffConnected(g, blacks) && Searched(g, blacks)
    ensures !r ==> GivesUp(g)
  {
    hide Inv, GreedyRun, LinkRun, ConnectedIn, AnswersAll, BackboneIffConnected, Dominates;
    var G := new ColouredGraph(g);
    ghost var id := G.id;
    ghost var steps := G.Phase1();
    ghost var u := G.View();
    NoWhitesDominates(g, u);
    sane := G.Validate();
    ghost var links;
    r, links := G.Phase2(paths);
    blacks := set n | n in G.color && G.color[n] == Black;
    if !r {
      SearchStops(g, id, steps, links, u, G.View());
    }
    if r {
      EndStateIsBackbone(g, G.View());
      NoWhitesDominates(g, G.View());
      var again := G.Validate();
      sane := sane && again;
      assert blacks == G.View().Blacks();
      assert Searched(g, blacks);
    }
  }
}
