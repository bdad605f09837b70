/** Refining a convex hull: points are pulled into an edge list that is edited while it is being iterated. */
module ConcaveHull {
  import opened Options
  import opened Reals

  datatype Point = Point(x: real, y: real)
  datatype Edge = Edge(tail: Point, head: Point)

  /** sqrt stands for math.sqrt. */
  ghost predicate IsSqrt(sqrt: real -> real) {
    forall v | v >= 0.0 :: sqrt(v) >= 0.0 && sqrt(v) * sqrt(v) == v
  }

  // ----- Geometry -----

  function Square(v: real): real {
    v * v
  }

  function SquaredDistance(p: Point, q: Point): real {
    Square(p.x - q.x) + Square(p.y - q.y)
  }

  lemma SquareSign(v: real)
    ensures Square(v) >= 0.0
    ensures v != 0.0 ==> Square(v) > 0.0
  {
    ProductSign(v, v, Square(v));
  }

  lemma ProductSign(a: real, b: real, c: real)
    requires c == a * b
    ensures a > 0.0 && b > 0.0 ==> c > 0.0
    ensures a < 0.0 && b < 0.0 ==> c > 0.0
    ensures a == 0.0 ==> c == 0.0
  {
  }

  function Distance(p: Point, q: Point, sqrt: real -> real): real {
    sqrt(SquaredDistance(p, q))
  }

  lemma DistanceIsPositive(p: Point, q: Point, sqrt: real -> real)
    requires IsSqrt(sqrt) && p != q
    ensures Distance(p, q, sqrt) > 0.0
  {
    SquaresArePositive(p, q);
    var r := sqrt(SquaredDistance(p, q));
    assert r >= 0.0 && r * r == SquaredDistance(p, q);
  }

  lemma SquaresArePositive(p: Point, q: Point)
    requires p != q
    ensures SquaredDistance(p, q) > 0.0
  {
    hide Square;
    SquareSign(p.x - q.x);
    SquareSign(p.y - q.y);
  }

  function Along(e: Edge, p: Point): real {
    (p.x - e.tail.x) * (e.head.x - e.tail.x) + (p.y - e.tail.y) * (e.head.y - e.tail.y)
  }

  /** 1000 unless p lies strictly between the perpendiculars at the two ends of the edge. */
  function Distance2Line(e: Edge, p: Point, sqrt: real -> real): real
    requires IsSqrt(sqrt)
  {
    var c1, c2 := Along(e, p), SquaredDistance(e.head, e.tail);
    if c1 <= 0.0 || c2 <= c1 then 1000.0
    else
      var n := sqrt(c2);
      assert n * n == c2;
      Abs((p.x - e.tail.x) * (e.head.y - e.tail.y) - (p.y - e.tail.y) * (e.head.x - e.tail.x)) / n
  }

  predicate LessPoint(p: Point, q: Point) {
    p.x < q.x || (p.x == q.x && p.y < q.y)
  }

  predicate LessEdge(e: Edge, f: Edge) {
    LessPoint(e.tail, f.tail) || (e.tail == f.tail && LessPoint(e.head, f.head))
  }

  /** Order of the tuples (distance, edge) that get_min_dist_line sorts. */
  predicate NearerEdge(e: Edge, f: Edge, p: Point, sqrt: real -> real)
    requires IsSqrt(sqrt)
  {
    var d, c := Distance2Line(e, p, sqrt), Distance2Line(f, p, sqrt);
    d < c || (d == c && LessEdge(e, f))
  }

  ghost predicate IsNearest(e: Edge, edges: seq<Edge>, p: Point, sqrt: real -> real)
    requires IsSqrt(sqrt)
  {
    e in edges && forall f | f in edges :: f == e || NearerEdge(e, f, p, sqrt)
  }

  method MinDistLine(p: Point, edges: seq<Edge>, sqrt: real -> real) returns (e: Edge)
    requires IsSqrt(sqrt) && edges != []
    ensures IsNearest(e, edges, p, sqrt)
  {
    e := edges[0];
    for i := 1 to |edges|
      invariant IsNearest(e, edges[..i], p, sqrt)
    {
      assert edges[..i + 1] == edges[..i] + [edges[i]];
      if NearerEdge(edges[i], e, p, sqrt) {
        e := edges[i];
      }
    }
    assert edges[..|edges|] == edges;
  }

  /** Of the points whose nearest edge is e, the first one in the order of (distance to e, point). */
  method Candidate(e: Edge, edges: seq<Edge>, N: seq<Point>, sqrt: real -> real) returns (best: Option<Point>)
    requires IsSqrt(sqrt) && e in edges
    ensures best.None? <==> !exists p :: p in N && IsNearest(e, edges, p, sqrt)
    ensures best.Some? ==> Chosen(e, edges, N, best.value, sqrt)
  {
    best := None;
    for i := 0 to |N|
      invariant best.None? <==> !exists p :: p in N[..i] && IsNearest(e, edges, p, sqrt)
      invariant best.Some? ==> best.value in N[..i] && IsNearest(e, edges, best.value, sqrt)
      invariant best.Some? ==> forall p | p in N[..i] && IsNearest(e, edges, p, sqrt) ::
          p == best.value || NearerPoint(best.value, p, e, sqrt)
    {
      assert N[..i + 1] == N[..i] + [N[i]];
      var nearest := MinDistLine(N[i], edges, sqrt);
      NearestIsUnique(nearest, e, edges, N[i], sqrt);
      if nearest == e && (best.None? || NearerPoint(N[i], best.value, e, sqrt)) {
        best := Some(N[i]);
      }
    }
    assert N[..|N|] == N;
  }

  predicate NearerPoint(p: Point, q: Point, e: Edge, sqrt: real -> real)
    requires IsSqrt(sqrt)
  {
    var d, c := Distance2Line(e, p, sqrt), Distance2Line(e, q, sqrt);
    d < c || (d == c && LessPoint(p, q))
  }

  lemma NearestIsUnique(e: Edge, f: Edge, edges: seq<Edge>, p: Point, sqrt: real -> real)
    requires IsSqrt(sqrt) && IsNearest(e, edges, p, sqrt)
    ensures IsNearest(f, edges, p, sqrt) ==> e == f
  {
  }

  // ----- Cycles -----

  function PathEdges(s: seq<Point>): seq<Edge> {
    seq(if |s| > 0 then |s| - 1 else 0, i requires 0 <= i < |s| - 1 => Edge(s[i], s[i + 1]))
  }

  /** The edges of the closed walk through V. */
  function CycleEdges(V: seq<Point>): seq<Edge> {
    if V == [] then [] else PathEdges(V + [V[0]])
  }

  ghost predicate Distinct<T(!new)>(s: seq<T>) {
    forall i, j | 0 <= i < j < |s| :: s[i] != s[j]
  }

  /** The list holds the edges of the cycle V, in any order. */
  ghost predicate Traces(edges: seq<Edge>, V: seq<Point>) {
    multiset(edges) == multiset(CycleEdges(V))
  }

  lemma PathEdgesSplit(A: seq<Point>, B: seq<Point>)
    requires A != [] && B != []
    ensures PathEdges(A + B) == PathEdges(A) + [Edge(A[|A| - 1], B[0])] + PathEdges(B)
  {
  }

  function Inserted(V: seq<Point>, i: nat, p: Point): seq<Point>
    requires i < |V|
  {
    V[..i + 1] + [p] + V[i + 1..]
  }

  /** Putting p between two neighbours replaces the one edge by two. */
  lemma InsertedEdges(V: seq<Point>, i: nat, p: Point)
    requires i < |V|
    ensures var e := CycleEdges(V)[i];
      multiset(CycleEdges(Inserted(V, i, p))) + multiset{e} ==
      multiset(CycleEdges(V)) + multiset{Edge(e.tail, p), Edge(p, e.head)}
  {
    var A, B := V[..i + 1], V[i + 1..] + [V[0]];
    assert V + [V[0]] == A + B;
    PathEdgesSplit(A, B);
    assert Inserted(V, i, p) + [V[0]] == A + ([p] + B);
    PathEdgesSplit(A, [p] + B);
    PathEdgesSplit([p], B);
    assert PathEdges([p]) == [];
  }

  function Rotated(V: seq<Point>, i: nat): seq<Point>
    requires i <= |V|
  {
    V[i..] + V[..i]
  }

  lemma RotatedEdges(V: seq<Point>, i: nat)
    requires i < |V|
    ensures multiset(CycleEdges(Rotated(V, i))) == multiset(CycleEdges(V))
    ensures CycleEdges(Rotated(V, i))[0] == CycleEdges(V)[i]
  {
    if i > 0 {
      var A, B := V[..i], V[i..];
      assert V == A + B;
      CycleOfTwo(A, B);
      CycleOfTwo(B, A);
    } else {
      assert Rotated(V, i) == V;
    }
  }

  lemma CycleOfTwo(A: seq<Point>, B: seq<Point>)
    requires A != [] && B != []
    ensures CycleEdges(A + B) ==
      PathEdges(A) + [Edge(A[|A| - 1], B[0])] + PathEdges(B) + [Edge(B[|B| - 1], A[0])]
  {
    assert A + B + [A[0]] == A + (B + [A[0]]);
    PathEdgesSplit(A, B + [A[0]]);
    PathEdgesSplit(B, [A[0]]);
  }

  // ----- edges2list -----

  function RemoveFirst<T(==)>(s: seq<T>, x: T): (r: seq<T>)
    ensures |r| == if x in s then |s| - 1 else |s|
  {
    if s == [] then [] else if s[0] == x then s[1..] else [s[0]] + RemoveFirst(s[1..], x)
  }

  lemma {:induction false} RemoveFirstCounts<T>(s: seq<T>, x: T)
    requires x in s
    ensures multiset(RemoveFirst(s, x)) == multiset(s) - multiset{x}
  {
    assert s == [s[0]] + s[1..];
    if s[0] != x {
      RemoveFirstCounts(s[1..], x);
    }
  }

  /** Both ends of every edge, in order. */
  function Flat(es: seq<Edge>): seq<Point> {
    if es == [] then [] else Flat(es[..|es| - 1]) + [es[|es| - 1].tail, es[|es| - 1].head]
  }

  /** The list comprehension that looks for the edges starting in p. */
  function StartingIn(edges: seq<Edge>, p: Point): (r: seq<Edge>)
    ensures forall e :: e in r <==> e in edges && e.tail == p
  {
    if edges == [] then []
    else (if edges[0].tail == p then [edges[0]] else []) + StartingIn(edges[1..], p)
  }

  function Prepended(done: seq<Edge>, rest: Option<seq<Edge>>): Option<seq<Edge>> {
    match rest
    case None => None
    case Some(es) => Some(done + es)
  }

  /** The edges in the order they are taken after one that ends in p; nothing if there is no successor at some point. */
  function WalkFrom(edges: seq<Edge>, p: Point): Option<seq<Edge>>
    decreases |edges|
  {
    var matches := StartingIn(edges, p);
    if edges == [] then Some([])
    else if matches == [] then None
    else Prepended([matches[0]], WalkFrom(RemoveFirst(edges, matches[0]), matches[0].head))
  }

  /** The walk begins with the last edge of the list. */
  function ReadOrder(edges: seq<Edge>): Option<seq<Edge>> {
    if edges == [] then Some([]) else
      var n := |edges| - 1;
      Prepended([edges[n]], WalkFrom(edges[..n], edges[n].head))
  }

  /** None stands for the IndexError of an edge without a successor. */
  method Edges2List(edges0: seq<Edge>) returns (concave: Option<seq<Point>>)
    ensures concave == match ReadOrder(edges0) case None => None case Some(es) => Some(Flat(es))
  {
    hide StartingIn, RemoveFirst, Flat;
    var edges := edges0;
    if |edges| == 0 {
      FlatGrows([], edges0);
      return Some([]);
    }
    var curEdge := edges[|edges| - 1];
    edges := edges[..|edges| - 1];
    var list := [curEdge.tail, curEdge.head];
    ghost var done := [curEdge];
    FlatGrows([], done);
    assert [] + done == done;
    while |edges| > 0
      invariant ReadOrder(edges0) == Prepended(done, WalkFrom(edges, curEdge.head))
      invariant list == Flat(done)
      decreases |edges|
    {
      var matches := StartingIn(edges, curEdge.head);
      if matches == [] {
        return None;
      }
      curEdge := matches[0];
      FlatGrows(done, [curEdge]);
      PrependedTwice(done, [curEdge], WalkFrom(RemoveFirst(edges, curEdge), curEdge.head));
      edges := RemoveFirst(edges, curEdge);
      list := list + [curEdge.tail, curEdge.head];
      done := done + [curEdge];
    }
    assert done + [] == done;
    concave := Some(list);
  }

  lemma FlatGrows(done: seq<Edge>, more: seq<Edge>)
    ensures Flat([]) == []
    ensures |more| == 1 ==> Flat(done + more) == Flat(done) + [more[0].tail, more[0].head]
  {
    if |more| == 1 {
      assert (done + more)[..|done|] == done;
    }
  }

  lemma PrependedTwice(a: seq<Edge>, b: seq<Edge>, rest: Option<seq<Edge>>)
    ensures Prepended(a, Prepended(b, rest)) == Prepended(a + b, rest)
  {
    if rest.Some? {
      assert a + (b + rest.value) == a + b + rest.value;
    }
  }

  // ----- What the list that is read out promises -----

  /** Each edge begins where the one before ended. */
  ghost predicate IsTrail(es: seq<Edge>) {
    forall i | 0 <= i < |es| - 1 :: es[i].head == es[i + 1].tail
  }

  /** Every edge of the list once, beginning with the last; a closed walk. */
  ghost predicate ReadsAll(edges: seq<Edge>, es: seq<Edge>) {
    && multiset(es) == multiset(edges) && IsTrail(es)
    && (es != [] ==> edges != [] && es[0] == edges[|edges| - 1] && es[|es| - 1].head == es[0].tail)
  }

  lemma {:induction false} WalkIsTrail(edges: seq<Edge>, p: Point)
    requires WalkFrom(edges, p).Some?
    ensures var es := WalkFrom(edges, p).value;
      multiset(es) == multiset(edges) && IsTrail(es) && (es != [] ==> es[0].tail == p)
    decreases |edges|
  {
    hide IsTrail, RemoveFirst, StartingIn;
    if edges == [] {
      NoTrail();
    } else {
      var e := StartingIn(edges, p)[0];
      assert e in StartingIn(edges, p);
      var rest := RemoveFirst(edges, e);
      RemoveFirstCounts(edges, e);
      WalkIsTrail(rest, e.head);
      PrependedTrail(e, WalkFrom(rest, e.head).value);
      assert e in multiset(edges);
    }
  }

  lemma NoTrail()
    ensures IsTrail([])
  {
  }

  lemma PrependedTrail(e: Edge, rest: seq<Edge>)
    requires IsTrail(rest) && (rest != [] ==> rest[0].tail == e.head)
    ensures IsTrail([e] + rest) && multiset([e] + rest) == multiset(rest) + multiset{e}
  {
  }

  function Tails(es: seq<Edge>): multiset<Point> {
    if es == [] then multiset{} else Tails(es[..|es| - 1]) + multiset{es[|es| - 1].tail}
  }

  function Heads(es: seq<Edge>): multiset<Point> {
    if es == [] then multiset{} else Heads(es[..|es| - 1]) + multiset{es[|es| - 1].head}
  }

  lemma {:induction false} EndsOfConcat(a: seq<Edge>, b: seq<Edge>)
    ensures Tails(a + b) == Tails(a) + Tails(b) && Heads(a + b) == Heads(a) + Heads(b)
  {
    if b == [] {
      assert a + b == a;
    } else {
      var n := |b| - 1;
      assert (a + b)[..|a + b| - 1] == a + b[..n];
      EndsOfConcat(a, b[..n]);
    }
  }

  function Dropped<T>(s: seq<T>, i: nat): seq<T>
    requires i < |s|
  {
    s[..i] + s[i + 1..]
  }

  lemma DroppedCounts<T>(s: seq<T>, i: nat)
    requires i < |s|
    ensures multiset(Dropped(s, i)) == multiset(s) - multiset{s[i]}
  {
    assert s == s[..i] + [s[i]] + s[i + 1..];
  }

  lemma DroppedEnds(s: seq<Edge>, i: nat)
    requires i < |s|
    ensures Tails(s) == Tails(Dropped(s, i)) + multiset{s[i].tail}
    ensures Heads(s) == Heads(Dropped(s, i)) + multiset{s[i].head}
  {
    hide Tails, Heads;
    var a, b := s[..i], s[i + 1..];
    assert s == a + ([s[i]] + b);
    EndsOfConcat(a, [s[i]] + b);
    EndsOfConcat([s[i]], b);
    EndsOfConcat(a, b);
    EndsOfOne(s[i]);
  }

  lemma {:induction false} EndsOfPermutation(a: seq<Edge>, b: seq<Edge>)
    requires multiset(a) == multiset(b)
    ensures Tails(a) == Tails(b) && Heads(a) == Heads(b)
    decreases |a|
  {
    hide Tails, Heads, Dropped;
    if a == [] {
      assert |multiset(a)| == |multiset(b)|;
    } else {
      assert a[0] in multiset(b);
      var i :| 0 <= i < |b| && b[i] == a[0];
      DroppedCounts(a, 0);
      DroppedCounts(b, i);
      DroppedIsShorter(a, 0);
      EndsOfPermutation(Dropped(a, 0), Dropped(b, i));
      DroppedEnds(a, 0);
      DroppedEnds(b, i);
    }
  }

  lemma DroppedIsShorter<T>(s: seq<T>, i: nat)
    requires i < |s|
    ensures |Dropped(s, i)| == |s| - 1
  {
  }

  lemma EndsOfOne(e: Edge)
    ensures Tails([e]) == multiset{e.tail} && Heads([e]) == multiset{e.head}
  {
    assert [e][..0] == [];
  }

  lemma PositionIn<T>(s: seq<T>, x: T, rest: seq<T>) returns (i: nat)
    requires multiset(rest + [x]) == multiset(s)
    ensures i < |s| && s[i] == x
  {
    assert x in multiset(rest + [x]);
    assert x in s;
    i :| 0 <= i < |s| && s[i] == x;
  }

  lemma {:induction false} EndsOfPath(s: seq<Point>)
    requires s != []
    ensures Tails(PathEdges(s)) == multiset(s[..|s| - 1]) && Heads(PathEdges(s)) == multiset(s[1..])
  {
    hide PathEdges, Tails, Heads;
    var n := |s| - 1;
    if n == 0 {
      PathOfOne(s[0]);
      assert s == [s[0]];
    } else {
      var before := s[..n];
      EndsOfPath(before);
      assert s == before + [s[n]];
      PathEdgesSplit(before, [s[n]]);
      PathOfOne(s[n]);
      var e := Edge(before[n - 1], s[n]);
      assert PathEdges(s) == PathEdges(before) + [e];
      EndsOfConcat(PathEdges(before), [e]);
      EndsOfOne(e);
      assert s[..|s| - 1] == before[..n - 1] + [e.tail] && s[1..] == before[1..] + [e.head];
    }
  }

  lemma PathOfOne(p: Point)
    ensures PathEdges([p]) == [] && Tails(PathEdges([p])) == multiset{} == Heads(PathEdges([p]))
  {
  }

  /** As many edges of a cycle begin in a point as end there: as often as the cycle visits it. */
  lemma EndsOfCycle(edges: seq<Edge>, V: seq<Point>)
    requires Traces(edges, V)
    ensures Tails(edges) == multiset(V) == Heads(edges)
  {
    hide PathEdges, Tails, Heads;
    EndsOfPermutation(edges, CycleEdges(V));
    if V == [] {
      PathOfNone();
    } else {
      var s := V + [V[0]];
      EndsOfPath(s);
      assert s[..|s| - 1] == V && s[1..] == V[1..] + [V[0]] && V == [V[0]] + V[1..];
    }
  }

  lemma PathOfNone()
    ensures Tails([]) == multiset{} == Heads([])
  {
  }

  lemma {:induction false} TrailBalance(es: seq<Edge>)
    requires IsTrail(es) && es != []
    ensures Tails(es) + multiset{es[|es| - 1].head} == multiset{es[0].tail} + Heads(es)
  {
    var n := |es| - 1;
    assert es == es[..n] + [es[n]];
    EndsOfConcat(es[..n], [es[n]]);
    EndsOfOne(es[n]);
    if n > 0 {
      TrailBalance(es[..n]);
    }
  }

  /** Whatever points repeat on the cycle: an order that is found takes every edge once and returns to its start. */
  lemma ReadOrderReadsAll(edges: seq<Edge>, V: seq<Point>)
    requires Traces(edges, V) && ReadOrder(edges).Some?
    ensures ReadsAll(edges, ReadOrder(edges).value)
  {
    hide WalkFrom, Traces, IsTrail;
    if edges == [] {
      NoTrail();
    } else {
      var n := |edges| - 1;
      WalkIsTrail(edges[..n], edges[n].head);
      var es := ReadOrder(edges).value;
      PrependedTrail(edges[n], WalkFrom(edges[..n], edges[n].head).value);
      assert edges == edges[..n] + [edges[n]];
      TrailCloses(edges, V, es);
    }
  }

  /** The points of a cycle begin and end equally many edges, so a walk over all of them returns to its start. */
  lemma TrailCloses(edges: seq<Edge>, V: seq<Point>, es: seq<Edge>)
    requires Traces(edges, V) && multiset(es) == multiset(edges) && IsTrail(es) && es != []
    ensures es[|es| - 1].head == es[0].tail
  {
    hide *;
    EndsOfCycle(edges, V);
    EndsOfPermutation(es, edges);
    TrailBalance(es);
    SameRemainder(multiset(V), es[|es| - 1].head, es[0].tail);
  }

  lemma SameRemainder<T>(A: multiset<T>, x: T, y: T)
    requires A + multiset{x} == multiset{y} + A
    ensures x == y
  {
    assert multiset{x} == (A + multiset{x}) - A;
    assert multiset{y} == (multiset{y} + A) - A;
    assert x in multiset{y};
  }

  /** Of the last edges of a cycle through distinct points exactly one starts in a given vertex. */
  lemma NextEdge(W: seq<Point>, k: nat, edges: seq<Edge>)
    requires Distinct(W) && k < |W| && multiset(edges) == multiset(CycleEdges(W)[k..])
    ensures edges != []
    ensures |StartingIn(edges, W[k])| > 0 && StartingIn(edges, W[k])[0] == CycleEdges(W)[k]
    ensures multiset(RemoveFirst(edges, CycleEdges(W)[k])) == multiset(CycleEdges(W)[k + 1..])
  {
    hide StartingIn, RemoveFirst;
    var C := CycleEdges(W);
    assert C[k..] == [C[k]] + C[k + 1..];
    assert C[k] in multiset(C[k..]);
    assert C[k] in multiset(edges);
    assert C[k] in StartingIn(edges, W[k]);
    OnlyStart(W, k, edges, StartingIn(edges, W[k])[0]);
    RemoveFirstCounts(edges, C[k]);
  }

  lemma OnlyStart(W: seq<Point>, k: nat, edges: seq<Edge>, e: Edge)
    requires Distinct(W) && k < |W| && multiset(edges) == multiset(CycleEdges(W)[k..])
    requires e in edges && e.tail == W[k]
    ensures e == CycleEdges(W)[k]
  {
    var C := CycleEdges(W);
    CycleEdgesAt(W);
    assert e in multiset(C[k..]) by { assert e in multiset(edges); }
    assert e in C[k..];
  }

  lemma CycleEdgesAt(W: seq<Point>)
    ensures |CycleEdges(W)| == |W|
    ensures forall i | 0 <= i < |W| :: CycleEdges(W)[i].tail == W[i]
    ensures forall i | 0 < i < |W| :: CycleEdges(W)[i - 1].head == W[i]
  {
  }

  lemma {:induction false} WalkTakesCycle(W: seq<Point>, k: nat, edges: seq<Edge>)
    requires Distinct(W) && 0 < k <= |W| && multiset(edges) == multiset(CycleEdges(W)[k..])
    ensures WalkFrom(edges, CycleEdges(W)[k - 1].head) == Some(CycleEdges(W)[k..])
    decreases |W| - k
  {
    hide Distinct, RemoveFirst, StartingIn;
    var C := CycleEdges(W);
    CycleEdgesAt(W);
    if k == |W| {
      assert |multiset(edges)| == |multiset(C[k..])|;
    } else {
      NextEdge(W, k, edges);
      WalkTakesCycle(W, k + 1, RemoveFirst(edges, C[k]));
      assert C[k..] == [C[k]] + C[k + 1..];
    }
  }

  /** W is V, turned so that it begins with the last edge of the list. */
  ghost predicate ReadOut(edges: seq<Edge>, V: seq<Point>, W: seq<Point>) {
    if V == [] then W == [] else
      |edges| > 0 && exists i :: 0 <= i < |V| && W == Rotated(V, i) && CycleEdges(V)[i] == edges[|edges| - 1]
  }

  /** A cycle through distinct points is walked through once, from the last edge of the list. */
  lemma DistinctCycleIsRead(edges: seq<Edge>, V: seq<Point>) returns (W: seq<Point>)
    requires Distinct(V) && Traces(edges, V)
    ensures ReadOut(edges, V, W) && ReadOrder(edges) == Some(CycleEdges(W))
  {
    hide PathEdges, WalkFrom, Distinct;
    CycleEdgesAt(V);
    assert |multiset(edges)| == |multiset(CycleEdges(V))|;
    W := [];
    if edges != [] {
      var n := |edges| - 1;
      assert edges == edges[..n] + [edges[n]];
      var i := PositionIn(CycleEdges(V), edges[n], edges[..n]);
      W := Rotated(V, i);
      RotatedEdges(V, i);
      RotatedDistinct(V, i);
      CycleEdgesAt(W);
      RestOfList(edges, CycleEdges(W));
      WalkTakesCycle(W, 1, edges[..n]);
      assert CycleEdges(W) == [edges[n]] + CycleEdges(W)[1..];
    }
  }

  lemma RestOfList(edges: seq<Edge>, C: seq<Edge>)
    requires edges != [] && C != [] && multiset(edges) == multiset(C) && C[0] == edges[|edges| - 1]
    ensures multiset(edges[..|edges| - 1]) == multiset(C[1..])
  {
    var n := |edges| - 1;
    assert edges == edges[..n] + [edges[n]];
    assert C == [C[0]] + C[1..];
    assert multiset(C) == multiset{C[0]} + multiset(C[1..]);
    assert multiset(edges[..n]) == multiset(edges) - multiset{edges[n]};
  }

  lemma RotatedDistinct(V: seq<Point>, i: nat)
    requires Distinct(V) && i <= |V|
    ensures Distinct(Rotated(V, i))
  {
  }

  // ----- calc_concave2 -----

  /** The points of the list that are not in convex. */
  function Without(points: seq<Point>, convex: seq<Point>): seq<Point> {
    if points == [] then [] else
      Without(points[..|points| - 1], convex) +
      (if points[|points| - 1] in convex then [] else [points[|points| - 1]])
  }

  /** The subsequence of the points that are in convex. */
  function Within(points: seq<Point>, convex: seq<Point>): seq<Point> {
    if points == [] then [] else
      Within(points[..|points| - 1], convex) +
      (if points[|points| - 1] in convex then [points[|points| - 1]] else [])
  }

  // ----- The loop, one visit at a time -----

  /** The edge list, the points left, and the position the iteration has reached. */
  datatype Loop = Loop(edges: seq<Edge>, N: seq<Point>, j: nat)

  function Start(points: seq<Point>, convex: seq<Point>): Loop {
    Loop(CycleEdges(convex), Without(points, convex), 0)
  }

  /** p is the first of the points nearest to e. */
  ghost predicate Chosen(e: Edge, edges: seq<Edge>, N: seq<Point>, p: Point, sqrt: real -> real)
    requires IsSqrt(sqrt)
  {
    && p in N && IsNearest(e, edges, p, sqrt)
    && forall q | q in N && IsNearest(e, edges, q, sqrt) :: q == p || NearerPoint(p, q, e, sqrt)
  }

  function Min(a: real, b: real): real {
    if a < b then a else b
  }

  function Decision(e: Edge, p: Point, sqrt: real -> real): real {
    Min(Distance(e.tail, p, sqrt), Distance(e.head, p, sqrt))
  }

  predicate Digs(e: Edge, p: Point, threshold: real, sqrt: real -> real)
    requires Decision(e, p, sqrt) != 0.0
  {
    Distance(e.tail, e.head, sqrt) / Decision(e, p, sqrt) > threshold
  }

  function Refined(s: Loop, p: Point): Loop
    requires s.j < |s.edges|
  {
    var e := s.edges[s.j];
    Loop(RemoveFirst(s.edges + [Edge(e.tail, p), Edge(p, e.head)], e), RemoveFirst(s.N, p), s.j + 1)
  }

  /** What follows on choosing p, if the quotient is defined. */
  function Decided(s: Loop, p: Point, threshold: real, sqrt: real -> real): Loop
    requires s.j < |s.edges| && Decision(s.edges[s.j], p, sqrt) != 0.0
  {
    if Digs(s.edges[s.j], p, threshold, sqrt) then Refined(s, p) else s.(j := s.j + 1)
  }

  ghost predicate Finished(s: Loop) {
    s.j >= |s.edges| || s.N == []
  }

  /** One iteration: the chosen point is pulled in if it is near enough, and the position moves on either way. */
  ghost predicate Visit(s: Loop, s': Loop, threshold: real, sqrt: real -> real)
    requires IsSqrt(sqrt)
  {
    && !Finished(s)
    && var e := s.edges[s.j];
       || (exists p :: Chosen(e, s.edges, s.N, p, sqrt) && Decision(e, p, sqrt) != 0.0
                       && s' == Decided(s, p, threshold, sqrt))
       || ((forall p :: !Chosen(e, s.edges, s.N, p, sqrt)) && s' == s.(j := s.j + 1))
  }

  /** The chosen point lies on an end of the edge. */
  ghost predicate DividesByZero(s: Loop, sqrt: real -> real)
    requires IsSqrt(sqrt)
  {
    !Finished(s) && exists p :: Chosen(s.edges[s.j], s.edges, s.N, p, sqrt) && Decision(s.edges[s.j], p, sqrt) == 0.0
  }

  /** k visits lead from s to s'. */
  ghost predicate Visits(s: Loop, k: nat, s': Loop, threshold: real, sqrt: real -> real)
    requires IsSqrt(sqrt)
  {
    if k == 0 then s' == s else exists u :: Visits(s, k - 1, u, threshold, sqrt) && Visit(u, s', threshold, sqrt)
  }

  datatype Outcome =
    | Hull(concave: seq<Point>)
    | AssertionFailed // the lengths do not add up
    | ZeroDivision // in the decision
    | NoSuccessor // the IndexError of edges2list

  /** How the run ends at a state from which no visit follows. */
  ghost predicate Concludes(s: Loop, r: Outcome, sqrt: real -> real)
    requires IsSqrt(sqrt)
  {
    if DividesByZero(s, sqrt) then r == ZeroDivision
    else Finished(s) && r == match ReadOrder(s.edges) case None => NoSuccessor case Some(es) => Hull(Flat(es))
  }

  ghost predicate Ends(points: seq<Point>, convex: seq<Point>, threshold: real, sqrt: real -> real, r: Outcome)
    requires IsSqrt(sqrt)
  {
    if |convex| + |Without(points, convex)| != |points| then r == AssertionFailed
    else exists k: nat, end :: Visits(Start(points, convex), k, end, threshold, sqrt) && Concludes(end, r, sqrt)
  }

  lemma ChosenIsUnique(e: Edge, edges: seq<Edge>, N: seq<Point>, p: Point, q: Point, sqrt: real -> real)
    requires IsSqrt(sqrt) && Chosen(e, edges, N, p, sqrt) && Chosen(e, edges, N, q, sqrt)
    ensures p == q
  {
  }

  /** A state allows one visit only, or none because it divides by zero. */
  lemma VisitIsDeterministic(s: Loop, a: Loop, b: Loop, threshold: real, sqrt: real -> real)
    requires IsSqrt(sqrt) && Visit(s, a, threshold, sqrt)
    ensures Visit(s, b, threshold, sqrt) ==> a == b
    ensures !DividesByZero(s, sqrt)
  {
    hide IsNearest, Decision, NearerPoint, RemoveFirst;
    hide Decided;
    hide Chosen;
    var e := s.edges[s.j];
    forall p, q | Chosen(e, s.edges, s.N, p, sqrt) && Chosen(e, s.edges, s.N, q, sqrt) ensures p == q {
      ChosenIsUnique(e, s.edges, s.N, p, q, sqrt);
    }
  }

  lemma {:induction false} VisitsAreDeterministic(s: Loop, k: nat, a: Loop, m: nat, b: Loop, threshold: real,
                                                  sqrt: real -> real)
    requires IsSqrt(sqrt) && Visits(s, k, a, threshold, sqrt) && Visits(s, m, b, threshold, sqrt)
    ensures k == m ==> a == b
    ensures k < m ==> exists a' :: Visit(a, a', threshold, sqrt)
    decreases m
  {
    hide Visit;
    if m > 0 {
      var v :| Visits(s, m - 1, v, threshold, sqrt) && Visit(v, b, threshold, sqrt);
      if k == m {
        var u :| Visits(s, k - 1, u, threshold, sqrt) && Visit(u, a, threshold, sqrt);
        VisitsAreDeterministic(s, k - 1, u, m - 1, v, threshold, sqrt);
        VisitIsDeterministic(u, a, b, threshold, sqrt);
      } else if k < m {
        VisitsAreDeterministic(s, k, a, m - 1, v, threshold, sqrt);
      }
    }
  }

  /** The input determines the whole run and how it ends. */
  lemma OutcomeIsUnique(points: seq<Point>, convex: seq<Point>, threshold: real, sqrt: real -> real, r: Outcome,
                        q: Outcome)
    requires IsSqrt(sqrt) && Ends(points, convex, threshold, sqrt, r) && Ends(points, convex, threshold, sqrt, q)
    ensures r == q
  {
    hide Visits, Without;
    if |convex| + |Without(points, convex)| == |points| {
      var s := Start(points, convex);
      var k: nat, a :| Visits(s, k, a, threshold, sqrt) && Concludes(a, r, sqrt);
      var m: nat, b :| Visits(s, m, b, threshold, sqrt) && Concludes(b, q, sqrt);
      EndIsUnique(s, k, a, m, b, r, q, threshold, sqrt);
    }
  }

  lemma EndIsUnique(s: Loop, k: nat, a: Loop, m: nat, b: Loop, r: Outcome, q: Outcome, threshold: real,
                    sqrt: real -> real)
    requires IsSqrt(sqrt) && Visits(s, k, a, threshold, sqrt) && Concludes(a, r, sqrt)
    requires Visits(s, m, b, threshold, sqrt) && Concludes(b, q, sqrt)
    ensures k == m && a == b
  {
    hide Visits;
    NoVisitAfterEnd(a, r, threshold, sqrt);
    NoVisitAfterEnd(b, q, threshold, sqrt);
    if k <= m {
      VisitsAreDeterministic(s, k, a, m, b, threshold, sqrt);
    } else {
      VisitsAreDeterministic(s, m, b, k, a, threshold, sqrt);
    }
  }

  lemma NoVisitAfterEnd(s: Loop, r: Outcome, threshold: real, sqrt: real -> real)
    requires IsSqrt(sqrt) && Concludes(s, r, sqrt)
    ensures !exists s' :: Visit(s, s', threshold, sqrt)
  {
    hide ReadOrder;
    forall s' | Visit(s, s', threshold, sqrt) ensures false {
      VisitIsDeterministic(s, s', s', threshold, sqrt);
    }
  }

  /** Removing the visited edge moves its successor into its place, so the iteration passes over that edge. */
  lemma RefiningSkipsTheNext(s: Loop, p: Point)
    requires Distinct(s.edges) && s.j + 1 < |s.edges|
    ensures s.j < |Refined(s, p).edges| && Refined(s, p).edges[s.j] == s.edges[s.j + 1] && Refined(s, p).j == s.j + 1
  {
    RemoveFirstAt(s.edges + [Edge(s.edges[s.j].tail, p), Edge(p, s.edges[s.j].head)], s.j);
  }

  lemma {:induction false} RemoveFirstAt<T(!new)>(s: seq<T>, k: nat)
    requires k < |s| && forall i | 0 <= i < k :: s[i] != s[k]
    ensures RemoveFirst(s, s[k]) == s[..k] + s[k + 1..]
  {
    if k > 0 {
      var rest := s[1..];
      assert s[0] != s[k] && rest[k - 1] == s[k] && (forall i | 0 <= i < k - 1 :: rest[i] == s[i + 1]);
      RemoveFirstAt(rest, k - 1);
      assert RemoveFirst(s, s[k]) == [s[0]] + (rest[..k - 1] + rest[k..]);
    } else {
      assert s[..0] + s[1..] == s[1..];
    }
  }

  // ----- The method -----

  method CalcConcave2(points: seq<Point>, convex: seq<Point>, threshold: real, sqrt: real -> real)
    returns (r: Outcome)
    requires IsSqrt(sqrt)
    ensures Ends(points, convex, threshold, sqrt, r)
  {
    hide *;
    var N := NotIn(points, convex);
    if |convex| + |N| != |points| {
      LengthsFail(points, convex, N, threshold, sqrt);
      return AssertionFailed;
    }
    var edges := HullEdges(convex);
    assert |edges| == |convex|;
    var j := 0;
    ghost var k, start := 0, Loop(edges, N, 0);
    NoVisits(start, threshold, sqrt);
    while j < |edges| && |N| > 0
      invariant 0 <= j
      invariant Visits(start, k, Loop(edges, N, j), threshold, sqrt)
      decreases |edges| - j + |N|
    {
      var e := edges[j];
      var best := Candidate(e, edges, N, sqrt);
      ghost var before := Loop(edges, N, j);
      if best.Some? {
        var p0 := best.value;
        var lenEdge := Distance(e.tail, e.head, sqrt);
        var decision := Min(Distance(e.tail, p0, sqrt), Distance(e.head, p0, sqrt));
        VisitChosen(before, p0, threshold, sqrt);
        if decision == 0.0 {
          RunConcluded(points, convex, threshold, sqrt, k, before, ZeroDivision);
          return ZeroDivision;
        }
        if lenEdge / decision > threshold {
          N := RemoveFirst(N, p0);
          edges := RemoveFirst(edges + [Edge(e.tail, p0), Edge(p0, e.head)], e);
        }
      } else {
        VisitNothing(before, threshold, sqrt);
      }
      j := j + 1;
      OneMoreVisit(start, k, before, Loop(edges, N, j), threshold, sqrt);
      k := k + 1;
    }
    var list := Edges2List(edges);
    r := match list case None => NoSuccessor case Some(concave) => Hull(concave);
    Finishes(Loop(edges, N, j), r, sqrt);
    RunConcluded(points, convex, threshold, sqrt, k, Loop(edges, N, j), r);
  }

  lemma LengthsFail(points: seq<Point>, convex: seq<Point>, N: seq<Point>, threshold: real, sqrt: real -> real)
    requires IsSqrt(sqrt) && N == Without(points, convex) && |convex| + |N| != |points|
    ensures Ends(points, convex, threshold, sqrt, AssertionFailed)
  {
  }

  lemma NoVisits(s: Loop, threshold: real, sqrt: real -> real)
    requires IsSqrt(sqrt)
    ensures Visits(s, 0, s, threshold, sqrt)
  {
  }

  lemma OneMoreVisit(s: Loop, k: nat, u: Loop, s': Loop, threshold: real, sqrt: real -> real)
    requires IsSqrt(sqrt) && Visits(s, k, u, threshold, sqrt) && Visit(u, s', threshold, sqrt)
    ensures Visits(s, k + 1, s', threshold, sqrt)
  {
  }

  lemma VisitChosen(s: Loop, p: Point, threshold: real, sqrt: real -> real)
    requires IsSqrt(sqrt) && s.j < |s.edges| && |s.N| > 0 && Chosen(s.edges[s.j], s.edges, s.N, p, sqrt)
    ensures var e := s.edges[s.j];
      var decision := Min(Distance(e.tail, p, sqrt), Distance(e.head, p, sqrt));
      if decision == 0.0 then Concludes(s, ZeroDivision, sqrt)
      else if Distance(e.tail, e.head, sqrt) / decision > threshold
      then Visit(s, Refined(s, p), threshold, sqrt) && p in s.N && e in s.edges
      else Visit(s, s.(j := s.j + 1), threshold, sqrt)
    ensures var e := s.edges[s.j];
      Refined(s, p) == Loop(RemoveFirst(s.edges + [Edge(e.tail, p), Edge(p, e.head)], e), RemoveFirst(s.N, p), s.j + 1)
  {
    hide Distance, IsNearest, NearerPoint, RemoveFirst;
  }

  lemma VisitNothing(s: Loop, threshold: real, sqrt: real -> real)
    requires IsSqrt(sqrt) && s.j < |s.edges| && |s.N| > 0
    requires !exists p :: p in s.N && IsNearest(s.edges[s.j], s.edges, p, sqrt)
    ensures Visit(s, s.(j := s.j + 1), threshold, sqrt)
  {
    hide IsNearest;
  }

  lemma Finishes(s: Loop, r: Outcome, sqrt: real -> real)
    requires IsSqrt(sqrt) && (s.j >= |s.edges| || |s.N| == 0)
    requires r == match ReadOrder(s.edges) case None => NoSuccessor case Some(es) => Hull(Flat(es))
    ensures Concludes(s, r, sqrt)
  {
    hide ReadOrder, Flat;
  }

  lemma RunConcluded(points: seq<Point>, convex: seq<Point>, threshold: real, sqrt: real -> real, k: nat, end: Loop,
                     r: Outcome)
    requires IsSqrt(sqrt) && |convex| + |Without(points, convex)| == |points| && Concludes(end, r, sqrt)
    requires Visits(Loop(CycleEdges(convex), Without(points, convex), 0), k, end, threshold, sqrt)
    ensures Ends(points, convex, threshold, sqrt, r)
  {
    hide Visits, Concludes, Without, CycleEdges;
    assert Visits(Start(points, convex), k, end, threshold, sqrt);
  }

  method NotIn(points: seq<Point>, convex: seq<Point>) returns (N: seq<Point>)
    ensures N == Without(points, convex)
  {
    N := [];
    for i := 0 to |points|
      invariant N == Without(points[..i], convex)
    {
      assert points[..i + 1][..i] == points[..i];
      if points[i] !in convex {
        N := N + [points[i]];
      }
    }
    assert points[..|points|] == points;
  }

  method HullEdges(convex: seq<Point>) returns (edges: seq<Edge>)
    ensures edges == CycleEdges(convex) && |edges| == |convex|
  {
    edges := [];
    for i := 0 to |convex|
      invariant |edges| == i && forall k | 0 <= k < i :: edges[k] == Edge(convex[k], convex[(k + 1) % |convex|])
    {
      edges := edges + [Edge(convex[i], convex[(i + 1) % |convex|])];
    }
    HullIsCycle(convex, edges);
  }

  lemma HullIsCycle(convex: seq<Point>, edges: seq<Edge>)
    requires |edges| == |convex|
    requires forall k | 0 <= k < |convex| :: edges[k] == Edge(convex[k], convex[(k + 1) % |convex|])
    ensures edges == CycleEdges(convex)
  {
    if convex != [] {
      forall k | 0 <= k < |convex| ensures edges[k] == CycleEdges(convex)[k] {
        assert (k + 1) % |convex| == if k + 1 == |convex| then 0 else k + 1;
      }
    }
  }

  // ----- What every run keeps, whatever points repeat -----

  /** The list is the cycle V; V and N share out the points; V visits the hull in its order. */
  ghost predicate Refining(points: seq<Point>, convex: seq<Point>, s: Loop, V: seq<Point>) {
    && Traces(s.edges, V)
    && multiset(V) + multiset(s.N) == multiset(convex) + multiset(Without(points, convex))
    && Within(V, convex) == convex
    && (forall p | p in s.N :: p !in convex)
  }

  lemma {:induction false} RunRefines(points: seq<Point>, convex: seq<Point>, k: nat, end: Loop, threshold: real,
                                      sqrt: real -> real) returns (V: seq<Point>)
    requires IsSqrt(sqrt) && Visits(Start(points, convex), k, end, threshold, sqrt)
    ensures Refining(points, convex, end, V)
  {
    hide Visit, Refining;
    if k == 0 {
      StartRefines(points, convex);
      V := convex;
    } else {
      var u :| Visits(Start(points, convex), k - 1, u, threshold, sqrt) && Visit(u, end, threshold, sqrt);
      V := RunRefines(points, convex, k - 1, u, threshold, sqrt);
      V := VisitRefines(points, convex, u, end, V, threshold, sqrt);
    }
  }

  lemma StartRefines(points: seq<Point>, convex: seq<Point>)
    ensures Refining(points, convex, Start(points, convex), convex)
  {
    hide Without, CycleEdges, Within;
    WithinAll(convex, convex);
    WithoutCounts(points, convex);
    forall p | p in Without(points, convex) ensures p !in convex {
      assert p in multiset(Without(points, convex));
    }
  }

  lemma VisitRefines(points: seq<Point>, convex: seq<Point>, s: Loop, s': Loop, V: seq<Point>, threshold: real,
                     sqrt: real -> real) returns (V': seq<Point>)
    requires IsSqrt(sqrt) && Visit(s, s', threshold, sqrt) && Refining(points, convex, s, V)
    ensures Refining(points, convex, s', V')
  {
    hide Refining, IsNearest, NearerPoint, Decision, Refined;
    if s' == s.(j := s.j + 1) {
      MovingOnRefines(points, convex, s, V);
      V' := V;
    } else {
      var p :| Chosen(s.edges[s.j], s.edges, s.N, p, sqrt) && s' == Refined(s, p);
      V' := Refine(points, convex, s, V, p);
    }
  }

  lemma MovingOnRefines(points: seq<Point>, convex: seq<Point>, s: Loop, V: seq<Point>)
    requires Refining(points, convex, s, V)
    ensures Refining(points, convex, s.(j := s.j + 1), V)
  {
  }

  /** Pulling p into the visited edge: the point moves from N to the cycle, between the ends of the edge. */
  lemma Refine(points: seq<Point>, convex: seq<Point>, s: Loop, V: seq<Point>, p: Point) returns (V': seq<Point>)
    requires Refining(points, convex, s, V) && s.j < |s.edges| && p in s.N
    ensures Refining(points, convex, Refined(s, p), V')
    ensures exists i :: 0 <= i < |V| && V' == Inserted(V, i, p)
  {
    hide Within, CycleEdges, RemoveFirst, Without;
    var i := EdgeOnCycle(s.edges, V, s.edges[s.j]);
    V' := Inserted(V, i, p);
    RefinedEdges(s.edges, V, i, s.edges[s.j], p);
    RefinedPoints(V, s.N, i, p);
    InsertedWithin(V, i, p, convex);
    forall q | q in RemoveFirst(s.N, p) ensures q !in convex {
      RemovedWasThere(s.N, p, q);
    }
  }

  lemma RemovedWasThere(N: seq<Point>, p: Point, q: Point)
    requires p in N && q in RemoveFirst(N, p)
    ensures q in N
  {
    RemoveFirstCounts(N, p);
    assert q in multiset(RemoveFirst(N, p));
    assert q in multiset(N);
  }

  lemma EdgeOnCycle(edges: seq<Edge>, V: seq<Point>, e: Edge) returns (i: nat)
    requires Traces(edges, V) && e in edges
    ensures i < |V| && i < |CycleEdges(V)| && CycleEdges(V)[i] == e
    ensures e.tail in V && e.head in V
  {
    assert e in multiset(edges);
    i :| 0 <= i < |CycleEdges(V)| && CycleEdges(V)[i] == e;
    assert e == Edge((V + [V[0]])[i], (V + [V[0]])[i + 1]);
  }

  lemma RefinedEdges(edges: seq<Edge>, V: seq<Point>, i: nat, e: Edge, p: Point)
    requires Traces(edges, V) && i < |V| && i < |CycleEdges(V)| && CycleEdges(V)[i] == e && e in edges
    ensures Traces(RemoveFirst(edges + [Edge(e.tail, p), Edge(p, e.head)], e), Inserted(V, i, p))
  {
    var more := [Edge(e.tail, p), Edge(p, e.head)];
    InsertedEdges(V, i, p);
    RemoveFirstCounts(edges + more, e);
    assert multiset(more) == multiset{Edge(e.tail, p), Edge(p, e.head)};
    assert multiset(edges + more) == multiset(edges) + multiset(more);
  }

  lemma RefinedPoints(V: seq<Point>, N: seq<Point>, i: nat, p: Point)
    requires p in N && i < |V|
    ensures multiset(Inserted(V, i, p)) + multiset(RemoveFirst(N, p)) == multiset(V) + multiset(N)
  {
    hide RemoveFirst;
    RemoveFirstCounts(N, p);
    InsertedPoints(V, i, p);
    assert p in multiset(N);
    assert multiset(N) == multiset(RemoveFirst(N, p)) + multiset{p};
  }

  lemma InsertedPoints(V: seq<Point>, i: nat, p: Point)
    requires i < |V|
    ensures multiset(Inserted(V, i, p)) == multiset(V) + multiset{p}
  {
    assert V == V[..i + 1] + V[i + 1..];
  }

  lemma InsertedWithin(V: seq<Point>, i: nat, p: Point, convex: seq<Point>)
    requires i < |V| && p !in convex
    ensures Within(Inserted(V, i, p), convex) == Within(V, convex)
  {
    hide Within;
    var A, B := V[..i + 1], V[i + 1..];
    assert V == A + B;
    WithinConcat(A, B, convex);
    WithinConcat(A, [p], convex);
    WithinConcat(A + [p], B, convex);
    WithinOutside(p, convex);
    assert Within(A, convex) + [] == Within(A, convex);
  }

  lemma WithinOutside(p: Point, convex: seq<Point>)
    requires p !in convex
    ensures Within([p], convex) == []
  {
    assert [p][..0] == [];
  }

  lemma {:induction false} WithinAll(s: seq<Point>, convex: seq<Point>)
    requires forall p | p in s :: p in convex
    ensures Within(s, convex) == s
  {
    if s != [] {
      WithinAll(s[..|s| - 1], convex);
      assert s == s[..|s| - 1] + [s[|s| - 1]];
    }
  }

  lemma {:induction false} WithinConcat(a: seq<Point>, b: seq<Point>, convex: seq<Point>)
    ensures Within(a + b, convex) == Within(a, convex) + Within(b, convex)
  {
    if b == [] {
      assert a + b == a;
    } else {
      var n := |b| - 1;
      assert (a + b)[..|a + b| - 1] == a + b[..n];
      WithinConcat(a, b[..n], convex);
    }
  }

  lemma {:induction false} WithoutCounts(points: seq<Point>, convex: seq<Point>)
    ensures forall p :: multiset(Without(points, convex))[p] == if p in convex then 0 else multiset(points)[p]
  {
    if points != [] {
      var n := |points| - 1;
      WithoutCounts(points[..n], convex);
      assert points == points[..n] + [points[n]];
    }
  }

  /** With a hull made of input points, the lengths add up exactly if cycle and rest start out as the input points. */
  lemma LengthsMeanShareOut(points: seq<Point>, convex: seq<Point>)
    requires multiset(convex) <= multiset(points)
    ensures |convex| + |Without(points, convex)| == |points| <==>
      multiset(convex) + multiset(Without(points, convex)) == multiset(points)
  {
    hide Without;
    var N := Without(points, convex);
    WithoutCounts(points, convex);
    forall p ensures multiset(convex)[p] + multiset(N)[p] <= multiset(points)[p] {
      assert p in convex <==> p in multiset(convex);
    }
    var both := multiset(convex) + multiset(N);
    assert both <= multiset(points);
    assert both + (multiset(points) - both) == multiset(points);
    assert |both| == |convex| + |N| && |multiset(points)| == |points|;
  }

  /** The walk that was read out, over a cycle that a run of visits has made of the hull. */
  ghost predicate IsRefinedHull(points: seq<Point>, convex: seq<Point>, threshold: real, sqrt: real -> real,
                                end: Loop, V: seq<Point>, es: seq<Edge>)
    requires IsSqrt(sqrt)
  {
    && (exists k: nat :: Visits(Start(points, convex), k, end, threshold, sqrt)) && Finished(end)
    && Refining(points, convex, end, V) && ReadsAll(end.edges, es)
  }

  /** Whatever points repeat: a list that is returned walks once through all edges of a cycle made of the points. */
  lemma HullIsRefined(points: seq<Point>, convex: seq<Point>, threshold: real, sqrt: real -> real, r: Outcome)
    returns (end: Loop, V: seq<Point>, es: seq<Edge>)
    requires IsSqrt(sqrt) && Ends(points, convex, threshold, sqrt, r) && r.Hull?
    ensures IsRefinedHull(points, convex, threshold, sqrt, end, V, es) && r.concave == Flat(es)
    ensures ReadOrder(end.edges) == Some(es)
  {
    hide Visits, Without, ReadOrder, Refining, ReadsAll;
    var k: nat;
    k, end :| Visits(Start(points, convex), k, end, threshold, sqrt) && Concludes(end, r, sqrt);
    V := RunRefines(points, convex, k, end, threshold, sqrt);
    es := ReadOrder(end.edges).value;
    ReadOrderReadsAll(end.edges, V) by {
      RefiningTraces(points, convex, end, V);
    }
  }

  lemma RefiningTraces(points: seq<Point>, convex: seq<Point>, s: Loop, V: seq<Point>)
    requires Refining(points, convex, s, V)
    ensures Traces(s.edges, V)
  {
  }

  // ----- Distinct points -----

  ghost predicate NoRepeat(m: multiset<Point>) {
    forall p :: m[p] <= 1
  }

  lemma DistinctCounts(s: seq<Point>)
    ensures Distinct(s) <==> NoRepeat(multiset(s))
  {
    DistinctCountsForward(s);
    if !Distinct(s) {
      var i, j :| 0 <= i < j < |s| && s[i] == s[j];
      assert s == s[..i] + [s[i]] + s[i + 1..j] + [s[j]] + s[j + 1..];
      assert multiset(s)[s[i]] >= 2;
    }
  }

  lemma {:induction false} DistinctCountsForward(s: seq<Point>)
    ensures Distinct(s) ==> NoRepeat(multiset(s))
  {
    if s != [] {
      var n := |s| - 1;
      DistinctCountsForward(s[..n]);
      assert s == s[..n] + [s[n]];
      if Distinct(s) {
        assert s[n] !in s[..n];
        assert multiset(s[..n])[s[n]] == 0;
      }
    }
  }

  /** The cycle is free of repeats exactly if of every point all copies but one, at least, were left out. */
  lemma DistinctIffOneCopyUsed(points: seq<Point>, convex: seq<Point>, s: Loop, V: seq<Point>)
    requires Refining(points, convex, s, V) && multiset(convex) <= multiset(points)
    requires |convex| + |Without(points, convex)| == |points|
    ensures Distinct(V) <==> forall p :: multiset(points)[p] <= multiset(s.N)[p] + 1
  {
    hide Without, Within, Traces, Distinct;
    LengthsMeanShareOut(points, convex);
    DistinctCounts(V);
    forall p ensures multiset(points)[p] == multiset(V)[p] + multiset(s.N)[p] {
      assert multiset(points)[p] == (multiset(V) + multiset(s.N))[p];
    }
  }

  /** Distinct points on a hull made of them: the lengths add up. */
  lemma DistinctPointsAddUp(points: seq<Point>, convex: seq<Point>)
    requires Distinct(points) && multiset(convex) <= multiset(points)
    ensures |convex| + |Without(points, convex)| == |points|
  {
    hide Without, Distinct;
    DistinctCounts(points);
    WithoutCounts(points, convex);
    var N := Without(points, convex);
    forall p ensures multiset(convex)[p] + multiset(N)[p] == multiset(points)[p] {
      assert p in convex <==> p in multiset(convex);
    }
    assert multiset(convex) + multiset(N) == multiset(points);
    LengthsMeanShareOut(points, convex);
  }

  /** Distinct points stay so on the cycle, and none of those left is on it. */
  lemma DistinctPointsKept(points: seq<Point>, convex: seq<Point>, s: Loop, V: seq<Point>)
    requires Distinct(points) && multiset(convex) <= multiset(points) && Refining(points, convex, s, V)
    ensures Distinct(V) && forall p | p in s.N :: p !in V
  {
    hide Without, Within, Traces, Distinct;
    DistinctPointsAddUp(points, convex);
    LengthsMeanShareOut(points, convex);
    DistinctCounts(points);
    DistinctIffOneCopyUsed(points, convex, s, V);
    forall p | p in s.N ensures p !in V {
      assert p in multiset(s.N);
      assert multiset(points)[p] == (multiset(V) + multiset(s.N))[p];
      assert p in V <==> p in multiset(V);
    }
  }

  /** A point that is not on the cycle is neither end of an edge: the quotient is defined. */
  lemma CandidateIsNew(edges: seq<Edge>, V: seq<Point>, e: Edge, p: Point, sqrt: real -> real)
    requires Traces(edges, V) && e in edges && p !in V && IsSqrt(sqrt)
    ensures Decision(e, p, sqrt) > 0.0
  {
    var i := EdgeOnCycle(edges, V, e);
    DistanceIsPositive(e.tail, p, sqrt);
    DistanceIsPositive(e.head, p, sqrt);
  }

  lemma NoZeroDivision(points: seq<Point>, convex: seq<Point>, s: Loop, V: seq<Point>, sqrt: real -> real)
    requires IsSqrt(sqrt) && Refining(points, convex, s, V) && (forall p | p in s.N :: p !in V)
    ensures !DividesByZero(s, sqrt)
  {
    hide Decision, IsNearest, NearerPoint, Within, Without;
    if DividesByZero(s, sqrt) {
      var p :| Chosen(s.edges[s.j], s.edges, s.N, p, sqrt) && Decision(s.edges[s.j], p, sqrt) == 0.0;
      CandidateIsNew(s.edges, V, s.edges[s.j], p, sqrt);
    }
  }

  /**
   For distinct points and a hull made of them no run fails: the list returned walks once around one cycle of distinct
   points, from the last edge of the list.
   */
  lemma DistinctPointsGiveHull(points: seq<Point>, convex: seq<Point>, threshold: real, sqrt: real -> real, r: Outcome)
    returns (end: Loop, V: seq<Point>, W: seq<Point>)
    requires IsSqrt(sqrt) && Ends(points, convex, threshold, sqrt, r)
    requires Distinct(points) && multiset(convex) <= multiset(points)
    ensures IsRefinedHull(points, convex, threshold, sqrt, end, V, CycleEdges(W)) && r == Hull(Flat(CycleEdges(W)))
    ensures Distinct(V) && ReadOut(end.edges, V, W)
  {
    hide Visits, Without, ReadOrder, Refining, ReadsAll, Distinct, ReadOut, DividesByZero, Flat, CycleEdges;
    DistinctPointsAddUp(points, convex);
    var k: nat;
    k, end :| Visits(Start(points, convex), k, end, threshold, sqrt) && Concludes(end, r, sqrt);
    V := RunRefines(points, convex, k, end, threshold, sqrt);
    DistinctPointsKept(points, convex, end, V);
    NoZeroDivision(points, convex, end, V, sqrt);
    RefiningTraces(points, convex, end, V);
    W := DistinctCycleIsRead(end.edges, V);
    ReadOrderReadsAll(end.edges, V);
  }

  // ----- Exactly the inputs without repeats are safe under every hull -----

  /** Some run from this hull ends on the cycle V. */
  ghost predicate EndsOn(points: seq<Point>, convex: seq<Point>, threshold: real, sqrt: real -> real, V: seq<Point>)
    requires IsSqrt(sqrt)
  {
    && multiset(convex) <= multiset(points) && |convex| + |Without(points, convex)| == |points|
    && exists k: nat, end ::
         Visits(Start(points, convex), k, end, threshold, sqrt) && Finished(end) && Traces(end.edges, V)
  }

  /** The cycle is free of repeats for every hull made of the points and every threshold exactly if the points are. */
  lemma DistinctCycleIff(points: seq<Point>, sqrt: real -> real)
    requires IsSqrt(sqrt)
    ensures Distinct(points) <==>
      forall convex, threshold, V :: EndsOn(points, convex, threshold, sqrt, V) ==> Distinct(V)
  {
    hide Distinct, Traces, Visits;
    if Distinct(points) {
      forall convex, threshold, V | EndsOn(points, convex, threshold, sqrt, V) ensures Distinct(V) {
        var k: nat, end :|
          Visits(Start(points, convex), k, end, threshold, sqrt) && Finished(end) && Traces(end.edges, V);
        DistinctWhateverTraced(points, convex, threshold, sqrt, k, end, V);
      }
    } else {
      AllOnTheHull(points, 0.0, sqrt);
    }
  }

  /** No run fails, whatever the threshold and the hull made of the points, exactly if the points are distinct. */
  lemma NothingFailsIff(points: seq<Point>, sqrt: real -> real)
    requires IsSqrt(sqrt)
    ensures Distinct(points) <==>
      forall convex, threshold, r ::
        multiset(convex) <= multiset(points) && Ends(points, convex, threshold, sqrt, r) ==> r.Hull?
  {
    hide Ends;
    if Distinct(points) {
      forall convex, threshold, r | multiset(convex) <= multiset(points) && Ends(points, convex, threshold, sqrt, r)
        ensures r.Hull?
      {
        var end, V, W := DistinctPointsGiveHull(points, convex, threshold, sqrt, r);
      }
    } else {
      var i, j :| 0 <= i < j < |points| && points[i] == points[j];
      OneCopyOnTheHull(points, i, j, 0.0, sqrt);
    }
  }

  /** A repeated point with one copy on the hull: the lengths do not add up. */
  lemma OneCopyOnTheHull(points: seq<Point>, i: nat, j: nat, threshold: real, sqrt: real -> real)
    requires IsSqrt(sqrt) && i < j < |points| && points[i] == points[j]
    ensures multiset([points[i]]) <= multiset(points)
    ensures Ends(points, [points[i]], threshold, sqrt, AssertionFailed)
  {
    hide Without, Start, Visits;
    var p := points[i];
    var convex, N := [p], Without(points, [p]);
    assert points == points[..i] + [p] + points[i + 1..j] + [p] + points[j + 1..];
    assert multiset(points)[p] >= 2 && multiset(convex) == multiset{p};
    WithoutCounts(points, convex);
    LengthsMeanShareOut(points, convex);
    assert (multiset(convex) + multiset(N))[p] == 1;
  }

  lemma DistinctWhateverTraced(points: seq<Point>, convex: seq<Point>, threshold: real, sqrt: real -> real, k: nat,
                               end: Loop, V: seq<Point>)
    requires IsSqrt(sqrt) && Distinct(points) && multiset(convex) <= multiset(points)
    requires Visits(Start(points, convex), k, end, threshold, sqrt) && Traces(end.edges, V)
    ensures Distinct(V)
  {
    hide Distinct, Traces, Visits, Refining;
    var U := RunRefines(points, convex, k, end, threshold, sqrt);
    DistinctPointsKept(points, convex, end, U);
    RefiningTraces(points, convex, end, U);
    EndsOfCycle(end.edges, U);
    EndsOfCycle(end.edges, V);
    DistinctCounts(U);
    DistinctCounts(V);
  }

  lemma AllOnTheHull(points: seq<Point>, threshold: real, sqrt: real -> real)
    requires IsSqrt(sqrt)
    ensures EndsOn(points, points, threshold, sqrt, points)
  {
    hide CycleEdges, Without;
    LengthsMeanShareOut(points, points);
    WithoutCounts(points, points);
    var N := Without(points, points);
    forall p ensures multiset(N)[p] == 0 {
      assert p in points <==> p in multiset(points);
    }
    assert multiset(N) == multiset{};
    NoVisits(Start(points, points), threshold, sqrt);
    assert Traces(Start(points, points).edges, points);
  }
}
