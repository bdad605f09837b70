/** Inputs with a repeated point that the concave hull refinement visits twice, or fails on in one of two ways. */
module RepeatedPoints {
  import opened Options
  import opened Reals
  import opened ConcaveHull

  // ----- Comparing distances without their roots -----

  lemma SquaresCompare(a: real, b: real)
    requires a >= 0.0 && b >= 0.0
    ensures Square(a) < Square(b) ==> a < b
    ensures Square(a) == 0.0 ==> a == 0.0
  {
    if a >= b {
      assert a * a >= a * b >= b * b;
    }
    if a > 0.0 {
      ProductSign(a, a, Square(a));
    }
  }

  /** The numerator of the distance to the line. */
  function Cross(e: Edge, p: Point): real {
    (p.x - e.tail.x) * (e.head.y - e.tail.y) - (p.y - e.tail.y) * (e.head.x - e.tail.x)
  }

  predicate Measures(e: Edge, p: Point, along: real, length2: real, cross: real) {
    Along(e, p) == along && SquaredDistance(e.head, e.tail) == length2 && Cross(e, p) == cross
  }

  /** How the distance of p, which lies beside e, compares with d. */
  lemma DistanceBeside(e: Edge, p: Point, sqrt: real -> real, d: real, along: real, length2: real, cross: real)
    requires IsSqrt(sqrt) && Measures(e, p, along, length2, cross) && 0.0 < along < length2 && d >= 0.0
    ensures d * d * length2 < cross * cross ==> d < Distance2Line(e, p, sqrt)
    ensures cross * cross < d * d * length2 ==> Distance2Line(e, p, sqrt) < d
    ensures cross * cross == d * d * length2 ==> Distance2Line(e, p, sqrt) == d
  {
    hide Along, SquaredDistance;
    var c, n := Abs(cross), sqrt(length2);
    assert n >= 0.0 && n * n == length2;
    var r := c / n;
    assert Distance2Line(e, p, sqrt) == r && r * n == c;
    assert Square(c) == cross * cross;
    Compared(r, d, n);
  }

  /** p does not lie beside e. */
  lemma DistanceBeyond(e: Edge, p: Point, sqrt: real -> real, along: real, length2: real, cross: real)
    requires IsSqrt(sqrt) && Measures(e, p, along, length2, cross) && (along <= 0.0 || length2 <= along)
    ensures Distance2Line(e, p, sqrt) == 1000.0
  {
    hide Along, SquaredDistance;
  }

  lemma Compared(r: real, d: real, n: real)
    requires n > 0.0 && r >= 0.0 && d >= 0.0
    ensures Square(d) * (n * n) < Square(r * n) ==> d < r
    ensures Square(r * n) < Square(d) * (n * n) ==> r < d
    ensures Square(r * n) == Square(d) * (n * n) ==> r == d
  {
    assert Square(r * n) == Square(r) * (n * n);
    ProductSign(n, n, n * n);
    var m := n * n;
    ScaledCompare(Square(d), Square(r), m);
    SquaresCompare(d, r);
    SquaresCompare(r, d);
    if r < d {
      assert r * r <= r * d < d * d;
    } else if d < r {
      assert d * d <= d * r < r * r;
    }
  }

  lemma ScaledCompare(a: real, b: real, m: real)
    requires m > 0.0
    ensures a * m < b * m ==> a < b
    ensures b * m < a * m ==> b < a
    ensures a * m == b * m ==> a == b
  {
    if a < b {
      assert a * m < b * m;
    } else if b < a {
      assert b * m < a * m;
    }
  }

  /** An edge digs at threshold 1 when one of its ends is nearer to the point than to its other end. */
  lemma DigsAtOne(e: Edge, p: Point, sqrt: real -> real)
    requires IsSqrt(sqrt) && p != e.tail && p != e.head
    requires SquaredDistance(e.tail, p) < SquaredDistance(e.tail, e.head) ||
             SquaredDistance(e.head, p) < SquaredDistance(e.tail, e.head)
    ensures Decision(e, p, sqrt) != 0.0 && Digs(e, p, 1.0, sqrt)
  {
    hide SquaredDistance;
    DistanceIsPositive(e.tail, p, sqrt);
    DistanceIsPositive(e.head, p, sqrt);
    NearerByDistance(e.tail, p, e.tail, e.head, sqrt);
    NearerByDistance(e.head, p, e.tail, e.head, sqrt);
    var d, n := Decision(e, p, sqrt), Distance(e.tail, e.head, sqrt);
    assert 0.0 < d < n;
    Quotient(n, d);
  }

  lemma Quotient(n: real, d: real)
    requires 0.0 < d < n
    ensures n / d > 1.0
  {
    var q := n / d;
    assert q * d == n;
    assert q <= 1.0 ==> q * d <= d;
  }

  lemma NearerByDistance(p: Point, q: Point, r: Point, s: Point, sqrt: real -> real)
    requires IsSqrt(sqrt)
    ensures SquaredDistance(p, q) < SquaredDistance(r, s) ==> Distance(p, q, sqrt) < Distance(r, s, sqrt)
  {
    SquaredDistanceSign(p, q);
    SquaredDistanceSign(r, s);
    SquaresCompare(Distance(p, q, sqrt), Distance(r, s, sqrt));
  }

  lemma SquaredDistanceSign(p: Point, q: Point)
    ensures SquaredDistance(p, q) >= 0.0
  {
    SquareSign(p.x - q.x);
    SquareSign(p.y - q.y);
  }

  lemma {:induction false} RestIsLeft(convex: seq<Point>, rest: seq<Point>)
    requires forall p | p in rest :: p !in convex
    ensures Without(convex + rest, convex) == rest
  {
    if rest == [] {
      NothingLeft(convex, convex);
      assert convex + rest == convex;
    } else {
      var n := |rest| - 1;
      RestIsLeft(convex, rest[..n]);
      var all := convex + rest;
      assert all[..|all| - 1] == convex + rest[..n] && all[|all| - 1] == rest[n];
      assert rest[n] in rest;
      assert rest == rest[..n] + [rest[n]];
    }
  }

  lemma {:induction false} NothingLeft(s: seq<Point>, convex: seq<Point>)
    requires forall p | p in s :: p in convex
    ensures Without(s, convex) == []
  {
    if s != [] {
      NothingLeft(s[..|s| - 1], convex);
    }
  }

  // ----- A triangle and two points in its corner -----

  const O := Point(0.0, 0.0)
  const X := Point(10.0, 0.0)
  const Y := Point(0.0, 10.0)
  const P := Point(1.0, 1.0)
  const Q := Point(1.0, 2.0)

  const OX := Edge(O, X)
  const XY := Edge(X, Y)
  const YO := Edge(Y, O)
  const OP := Edge(O, P)
  const PX := Edge(P, X)
  const YP := Edge(Y, P)
  const PO := Edge(P, O)
  const YQ := Edge(Y, Q)
  const QP := Edge(Q, P)

  const TRIANGLE := [O, X, Y]

  lemma MeasuresOfP()
    ensures Measures(OX, P, 10.0, 100.0, -10.0)
    ensures Measures(YO, P, 90.0, 100.0, -10.0)
    ensures Measures(XY, P, 100.0, 200.0, -80.0)
    ensures Measures(OP, P, 2.0, 2.0, 0.0)
    ensures Measures(PX, P, 0.0, 82.0, 0.0)
  {
  }

  lemma DistancesOfP(sqrt: real -> real)
    requires IsSqrt(sqrt)
    ensures Distance2Line(OX, P, sqrt) == 1.0 == Distance2Line(YO, P, sqrt)
    ensures 1.0 < Distance2Line(XY, P, sqrt)
    ensures Distance2Line(OP, P, sqrt) == 1000.0 == Distance2Line(PX, P, sqrt)
  {
    hide *;
    MeasuresOfP();
    DistanceBeside(OX, P, sqrt, 1.0, 10.0, 100.0, -10.0);
    DistanceBeside(YO, P, sqrt, 1.0, 90.0, 100.0, -10.0);
    DistanceBeside(XY, P, sqrt, 1.0, 100.0, 200.0, -80.0);
    DistanceBeyond(OP, P, sqrt, 2.0, 2.0, 0.0);
    DistanceBeyond(PX, P, sqrt, 0.0, 82.0, 0.0);
  }

  lemma MeasuresOfQ()
    ensures Measures(OX, Q, 10.0, 100.0, -20.0)
    ensures Measures(YO, Q, 80.0, 100.0, -10.0)
    ensures Measures(XY, Q, 110.0, 200.0, -70.0)
    ensures Measures(YP, Q, 73.0, 82.0, -1.0)
    ensures Measures(OP, Q, 3.0, 2.0, -1.0)
    ensures Measures(PX, Q, -1.0, 82.0, -9.0)
    ensures Measures(PO, Q, -1.0, 2.0, 1.0)
  {
  }

  lemma DistancesOfQ(sqrt: real -> real)
    requires IsSqrt(sqrt)
    ensures Distance2Line(OX, Q, sqrt) == 2.0 && Distance2Line(YO, Q, sqrt) == 1.0
    ensures 1.0 < Distance2Line(XY, Q, sqrt)
    ensures Distance2Line(YP, Q, sqrt) < 1.0
    ensures Distance2Line(OP, Q, sqrt) == 1000.0 == Distance2Line(PX, Q, sqrt) == Distance2Line(PO, Q, sqrt)
  {
    hide *;
    MeasuresOfQ();
    DistanceBeside(OX, Q, sqrt, 2.0, 10.0, 100.0, -20.0);
    DistanceBeside(YO, Q, sqrt, 1.0, 80.0, 100.0, -10.0);
    DistanceBeside(XY, Q, sqrt, 1.0, 110.0, 200.0, -70.0);
    DistanceBeside(YP, Q, sqrt, 1.0, 73.0, 82.0, -1.0);
    DistanceBeyond(OP, Q, sqrt, 3.0, 2.0, -1.0);
    DistanceBeyond(PX, Q, sqrt, -1.0, 82.0, -9.0);
    DistanceBeyond(PO, Q, sqrt, -1.0, 2.0, 1.0);
  }

  function First(N: seq<Point>): Loop {
    Loop([OX, XY, YO], N, 0)
  }

  function Second(N: seq<Point>): Loop {
    Loop([XY, YO, OP, PX], N, 1)
  }

  function Third(N: seq<Point>): Loop {
    Loop([XY, OP, PX, YP, PO], N, 2)
  }

  lemma StartsAtTriangle(rest: seq<Point>)
    requires forall p | p in rest :: p !in TRIANGLE
    ensures Start(TRIANGLE + rest, TRIANGLE) == First(rest)
    ensures |TRIANGLE| + |Without(TRIANGLE + rest, TRIANGLE)| == |TRIANGLE + rest|
  {
    RestIsLeft(TRIANGLE, rest);
    assert CycleEdges(TRIANGLE) == [OX, XY, YO];
  }

  /** The edge at position j goes, two come at the end; p is the first of the points left. */
  lemma RefinedAt(s: Loop, p: Point, more: seq<Edge>, edges: seq<Edge>)
    requires s.j < |s.edges| && (forall i | 0 <= i < s.j :: s.edges[i] != s.edges[s.j]) && s.N != [] && s.N[0] == p
    requires more == [Edge(s.edges[s.j].tail, p), Edge(p, s.edges[s.j].head)]
    requires edges == s.edges[..s.j] + s.edges[s.j + 1..] + more
    ensures Refined(s, p) == Loop(edges, s.N[1..], s.j + 1)
  {
    RemoveFirstAt(s.edges + more, s.j);
    RemoveFirstAt(s.N, 0);
    assert (s.edges + more)[..s.j] + (s.edges + more)[s.j + 1..] == edges;
  }

  lemma RemovedAtFirst(more: seq<Point>)
    ensures Refined(First([P, P] + more), P) == Second([P] + more)
  {
    hide Refined, O, X, Y, P, Q, OX, XY, YO, OP, PX, YP, PO;
    Triangle();
    RefinedAt(First([P, P] + more), P, [OP, PX], [XY, YO] + [OP, PX]);
    assert ([P, P] + more)[1..] == [P] + more;
    assert [XY, YO] + [OP, PX] == [XY, YO, OP, PX];
  }

  lemma RemovedAtSecond(more: seq<Point>)
    ensures Refined(Second([P] + more), P) == Third(more)
  {
    hide Refined, O, X, Y, P, Q, OX, XY, YO, OP, PX, YP, PO;
    Triangle();
    RefinedAt(Second([P] + more), P, [YP, PO], [XY, OP, PX] + [YP, PO]);
    assert ([P] + more)[1..] == more;
    assert [XY, OP, PX] + [YP, PO] == [XY, OP, PX, YP, PO];
  }

  lemma ChosenAtFirst(N: seq<Point>, sqrt: real -> real)
    requires IsSqrt(sqrt) && P in N && forall p | p in N :: p == P || p == Q
    ensures Chosen(OX, First(N).edges, N, P, sqrt)
  {
    hide Distance2Line;
    DistancesOfP(sqrt);
    DistancesOfQ(sqrt);
  }

  lemma ChosenAtSecond(N: seq<Point>, sqrt: real -> real)
    requires IsSqrt(sqrt) && P in N && forall p | p in N :: p == P || p == Q
    ensures Chosen(YO, Second(N).edges, N, P, sqrt)
  {
    hide Distance2Line;
    DistancesOfP(sqrt);
    DistancesOfQ(sqrt);
  }

  /** p is neither end of e, and nearer to one of them than they are to each other. */
  predicate ShortWay(e: Edge, p: Point) {
    && p != e.tail && p != e.head
    && (SquaredDistance(e.tail, p) < SquaredDistance(e.tail, e.head) ||
        SquaredDistance(e.head, p) < SquaredDistance(e.tail, e.head))
  }

  lemma ShortWays()
    ensures ShortWay(OX, P) && ShortWay(YO, P) && ShortWay(YP, Q)
  {
  }

  lemma PullsIn(s: Loop, e: Edge, p: Point, sqrt: real -> real)
    requires IsSqrt(sqrt) && s.j < |s.edges| && s.edges[s.j] == e && Chosen(e, s.edges, s.N, p, sqrt)
    requires ShortWay(e, p)
    ensures Visit(s, Refined(s, p), 1.0, sqrt)
  {
    hide Chosen, Refined, Decision, Digs, SquaredDistance;
    DigsAtOne(e, p, sqrt);
    assert s.N != [] by { ChosenIsLeft(e, s.edges, s.N, p, sqrt); }
  }

  lemma ChosenIsLeft(e: Edge, edges: seq<Edge>, N: seq<Point>, p: Point, sqrt: real -> real)
    requires IsSqrt(sqrt) && Chosen(e, edges, N, p, sqrt)
    ensures p in N
  {
  }

  lemma FirstVisit(more: seq<Point>, sqrt: real -> real)
    requires IsSqrt(sqrt) && (more == [] || more == [Q])
    ensures Visit(First([P, P] + more), Second([P] + more), 1.0, sqrt)
  {
    hide *;
    FirstParts([P, P] + more);
    ChosenAtFirst([P, P] + more, sqrt);
    RemovedAtFirst(more);
    ShortWays();
    PullsIn(First([P, P] + more), OX, P, sqrt);
  }

  lemma FirstParts(N: seq<Point>)
    ensures First(N).j == 0 < |First(N).edges| && First(N).edges[0] == OX && First(N).N == N
  {
  }

  lemma SecondVisit(more: seq<Point>, sqrt: real -> real)
    requires IsSqrt(sqrt) && (more == [] || more == [Q])
    ensures Visit(Second([P] + more), Third(more), 1.0, sqrt)
  {
    hide *;
    SecondParts([P] + more);
    ChosenAtSecond([P] + more, sqrt);
    RemovedAtSecond(more);
    ShortWays();
    PullsIn(Second([P] + more), YO, P, sqrt);
  }

  lemma SecondParts(N: seq<Point>)
    ensures Second(N).j == 1 < |Second(N).edges| && Second(N).edges[1] == YO && Second(N).N == N
  {
  }

  /** The first two visits pull in both copies of P, whether or not Q is there. */
  lemma BothCopiesPulledIn(more: seq<Point>, sqrt: real -> real)
    requires IsSqrt(sqrt) && (more == [] || more == [Q])
    ensures Visits(First([P, P] + more), 2, Third(more), 1.0, sqrt)
  {
    hide *;
    var s := First([P, P] + more);
    FirstVisit(more, sqrt);
    SecondVisit(more, sqrt);
    NoVisits(s, 1.0, sqrt);
    OneMoreVisit(s, 0, s, Second([P] + more), 1.0, sqrt);
    OneMoreVisit(s, 1, Second([P] + more), Third(more), 1.0, sqrt);
  }

  // ----- The list that is read out -----

  /** The successor is the first edge of the list that starts where the last one ended. */
  lemma WalkOn(edges: seq<Edge>, k: nat, p: Point, left: seq<Edge>, es: seq<Edge>)
    requires k < |edges| && edges[k].tail == p && (forall i | 0 <= i < k :: edges[i].tail != p)
    requires left == edges[..k] + edges[k + 1..] && es != [] && es[0] == edges[k]
    requires WalkFrom(left, edges[k].head) == Some(es[1..])
    ensures WalkFrom(edges, p) == Some(es)
  {
    hide RemoveFirst;
    FirstStart(edges, k);
    RemoveFirstAt(edges, k);
    assert es == [es[0]] + es[1..];
  }

  lemma {:induction false} FirstStart(edges: seq<Edge>, k: nat)
    requires k < |edges| && forall i | 0 <= i < k :: edges[i].tail != edges[k].tail
    ensures StartingIn(edges, edges[k].tail) != [] && StartingIn(edges, edges[k].tail)[0] == edges[k]
  {
    if k > 0 {
      FirstStart(edges[1..], k - 1);
    }
  }

  lemma Triangle()
    ensures O != P && O != X && O != Y && P != X && P != Y && X != Y && Q !in [O, X, Y, P]
    ensures OX == Edge(O, X) && XY == Edge(X, Y) && YO == Edge(Y, O) && OP == Edge(O, P) && PX == Edge(P, X)
    ensures YP == Edge(Y, P) && PO == Edge(P, O)
    ensures YQ == Edge(Y, Q) && QP == Edge(Q, P)
    ensures TRIANGLE == [O, X, Y]
  {
  }

  lemma FlatOfFive(a: Edge, b: Edge, c: Edge, d: Edge, e: Edge)
    ensures Flat([a, b, c, d, e]) ==
      [a.tail, a.head, b.tail, b.head, c.tail, c.head, d.tail, d.head, e.tail, e.head]
  {
    hide Flat;
    FlatGrows([], [a]);
    FlatGrows([a], [b]);
    FlatGrows([a, b], [c]);
    FlatGrows([a, b, c], [d]);
    FlatGrows([a, b, c, d], [e]);
    assert [] + [a] == [a] && [a] + [b] == [a, b] && [a, b] + [c] == [a, b, c];
    assert [a, b, c] + [d] == [a, b, c, d] && [a, b, c, d] + [e] == [a, b, c, d, e];
  }

  lemma ThirdIsRead()
    ensures ReadOrder([XY, OP, PX, YP, PO]) == Some([PO, OP, PX, XY, YP])
  {
    hide WalkFrom, Prepended, O, X, Y, P, Q, XY, OP, PX, YP, PO;
    Triangle();
    WalkOfNone(P);
    WalkOn([YP], 0, Y, [], [YP]);
    WalkOn([XY, YP], 0, X, [YP], [XY, YP]);
    assert [PX, XY, YP][1..] == [XY, YP];
    WalkOn([XY, PX, YP], 1, P, [XY, YP], [PX, XY, YP]);
    assert [OP, PX, XY, YP][1..] == [PX, XY, YP];
    WalkOn([XY, OP, PX, YP], 1, O, [XY, PX, YP], [OP, PX, XY, YP]);
    var edges := [XY, OP, PX, YP, PO];
    assert edges[..|edges| - 1] == [XY, OP, PX, YP];
    PrependedOne(PO, [OP, PX, XY, YP], [PO, OP, PX, XY, YP]);
  }

  lemma PrependedOne(e: Edge, es: seq<Edge>, all: seq<Edge>)
    requires all == [e] + es
    ensures Prepended([e], Some(es)) == Some(all)
  {
  }

  lemma WalkOfNone(p: Point)
    ensures WalkFrom([], p) == Some([])
  {
  }

  lemma ThirdIsTraced()
    ensures multiset([XY, OP, PX, YP, PO]) == multiset(CycleEdges([O, P, X, Y, P]))
  {
    hide O, X, Y, P, Q, XY, OP, PX, YP, PO;
    Triangle();
    CycleOfFive(O, P, X, Y, P);
    Rearranged(OP, PX, XY, YP, PO);
  }

  lemma CycleOfFive(a: Point, b: Point, c: Point, d: Point, e: Point)
    ensures CycleEdges([a, b, c, d, e]) == [Edge(a, b), Edge(b, c), Edge(c, d), Edge(d, e), Edge(e, a)]
  {
    assert [a, b, c, d, e] + [a] == [a, b, c, d, e, a];
  }

  lemma Rearranged<T>(a: T, b: T, c: T, d: T, e: T)
    ensures multiset([c, a, b, d, e]) == multiset([a, b, c, d, e])
  {
    var ab, de := [a, b], [d, e];
    assert [c, a, b, d, e] == [c] + ab + de && [a, b, c, d, e] == ab + [c] + de;
  }

  lemma ThirdEnds(sqrt: real -> real)
    requires IsSqrt(sqrt)
    ensures Concludes(Third([]), Hull([P, O, O, P, P, X, X, Y, Y, P]), sqrt) && Finished(Third([]))
    ensures Traces(Third([]).edges, [O, P, X, Y, P])
  {
    hide ReadOrder, Flat, CycleEdges, O, X, Y, P, Q, XY, OP, PX, YP, PO;
    Triangle();
    ThirdIsRead();
    ThirdIsTraced();
    FlatOfFive(PO, OP, PX, XY, YP);
    Finishes(Third([]), Hull([P, O, O, P, P, X, X, Y, Y, P]), sqrt);
  }

  /** The triangle with P given twice: both copies are pulled in, nothing fails, and the walk visits P twice. */
  lemma CopyIsPulledIn(sqrt: real -> real)
    requires IsSqrt(sqrt)
    ensures Ends(TRIANGLE + [P, P], TRIANGLE, 1.0, sqrt, Hull([P, O, O, P, P, X, X, Y, Y, P]))
    ensures EndsOn(TRIANGLE + [P, P], TRIANGLE, 1.0, sqrt, [O, P, X, Y, P]) && !Distinct([O, P, X, Y, P])
  {
    hide Visits, Start, Without, Traces, Concludes, TRIANGLE, First, Third, O, X, Y, P, Q;
    TriangleStarts([P, P]);
    assert [P, P] + [] == [P, P];
    BothCopiesPulledIn([], sqrt);
    ThirdEnds(sqrt);
    assert multiset(TRIANGLE + [P, P]) == multiset(TRIANGLE) + multiset([P, P]);
    var V := [O, P, X, Y, P];
    assert V[1] == V[4];
  }

  lemma TriangleStarts(rest: seq<Point>)
    requires forall p | p in rest :: p == P || p == Q
    ensures Start(TRIANGLE + rest, TRIANGLE) == First(rest)
    ensures |TRIANGLE| + |Without(TRIANGLE + rest, TRIANGLE)| == |TRIANGLE + rest|
  {
    hide O, X, Y, P, Q;
    Triangle();
    StartsAtTriangle(rest);
  }

  // ----- A third point leaves the walk without a successor -----

  function Fourth(): Loop {
    Loop([XY, OP, PX, YP, PO], [Q], 3)
  }

  function Fifth(): Loop {
    Loop([XY, OP, PX, PO, YQ, QP], [], 4)
  }

  lemma ThirdVisit(sqrt: real -> real)
    requires IsSqrt(sqrt)
    ensures Visit(Third([Q]), Fourth(), 1.0, sqrt)
  {
    hide *;
    DistancesOfQ(sqrt);
    ThirdAt();
    PassesOver(Third([Q]), YP, Q, sqrt);
  }

  lemma ThirdAt()
    ensures YP in Third([Q]).edges && Third([Q]).N == [Q] && Third([Q]).j == 2 < |Third([Q]).edges|
    ensures Third([Q]).edges[2] == PX
    ensures Fourth() == Third([Q]).(j := 3) && |Fourth().edges| > 3 && Fourth().edges[3] == YP
  {
  }

  /** Another edge is nearer to the only point left. */
  lemma PassesOver(s: Loop, f: Edge, p: Point, sqrt: real -> real)
    requires IsSqrt(sqrt) && s.j < |s.edges| && s.N == [p] && f in s.edges
    requires Distance2Line(f, p, sqrt) < Distance2Line(s.edges[s.j], p, sqrt)
    ensures Visit(s, s.(j := s.j + 1), 1.0, sqrt)
  {
    hide Distance2Line, Decided;
    assert !NearerEdge(s.edges[s.j], f, p, sqrt);
  }

  lemma ChosenAtFourth(sqrt: real -> real)
    requires IsSqrt(sqrt)
    ensures Chosen(YP, Fourth().edges, Fourth().N, Q, sqrt)
  {
    hide Distance2Line;
    DistancesOfQ(sqrt);
  }

  lemma RemovedAtFourth()
    ensures Refined(Fourth(), Q) == Fifth()
  {
    RemoveFirstAt([XY, OP, PX, YP, PO] + [YQ, QP], 3);
    RemoveFirstAt([Q], 0);
  }

  lemma FourthVisit(sqrt: real -> real)
    requires IsSqrt(sqrt)
    ensures Visit(Fourth(), Fifth(), 1.0, sqrt)
  {
    hide *;
    ThirdAt();
    ChosenAtFourth(sqrt);
    RemovedAtFourth();
    ShortWays();
    PullsIn(Fourth(), YP, Q, sqrt);
  }

  lemma FifthIsStuck()
    ensures ReadOrder([XY, OP, PX, PO, YQ, QP]) == None
  {
    hide WalkFrom, O, X, Y, P, Q, XY, OP, PX, PO, YQ, QP;
    Triangle();
    NoneFrom([OP, PO], Q);
    StuckAfter([OP, PO, YQ], 2, Y, [OP, PO]);
    StuckAfter([XY, OP, PO, YQ], 0, X, [OP, PO, YQ]);
    StuckAfter([XY, OP, PX, PO, YQ], 2, P, [XY, OP, PO, YQ]);
    var edges := [XY, OP, PX, PO, YQ, QP];
    assert edges[..|edges| - 1] == [XY, OP, PX, PO, YQ];
  }

  lemma NoneFrom(edges: seq<Edge>, p: Point)
    requires edges != [] && forall i | 0 <= i < |edges| :: edges[i].tail != p
    ensures WalkFrom(edges, p) == None
  {
    var matches := StartingIn(edges, p);
    assert matches == [] || matches[0] in matches;
  }

  lemma StuckAfter(edges: seq<Edge>, k: nat, p: Point, left: seq<Edge>)
    requires k < |edges| && edges[k].tail == p && (forall i | 0 <= i < k :: edges[i].tail != p)
    requires left == edges[..k] + edges[k + 1..] && WalkFrom(left, edges[k].head) == None
    ensures WalkFrom(edges, p) == None
  {
    hide RemoveFirst;
    FirstStart(edges, k);
    RemoveFirstAt(edges, k);
  }

  lemma FifthEnds(sqrt: real -> real)
    requires IsSqrt(sqrt)
    ensures Concludes(Fifth(), NoSuccessor, sqrt)
  {
    hide ReadOrder;
    FifthIsStuck();
    Finishes(Fifth(), NoSuccessor, sqrt);
  }

  lemma FourVisits(sqrt: real -> real)
    requires IsSqrt(sqrt)
    ensures Visits(First([P, P] + [Q]), 4, Fifth(), 1.0, sqrt)
  {
    hide *;
    BothCopiesPulledIn([Q], sqrt);
    ThirdVisit(sqrt);
    FourthVisit(sqrt);
    OneMoreVisit(First([P, P] + [Q]), 2, Third([Q]), Fourth(), 1.0, sqrt);
    OneMoreVisit(First([P, P] + [Q]), 3, Fourth(), Fifth(), 1.0, sqrt);
  }

  /** The triangle with P given twice and Q once: edges2list runs out of successors with two edges left. */
  lemma CopyLeavesNoSuccessor(sqrt: real -> real)
    requires IsSqrt(sqrt)
    ensures Ends(TRIANGLE + [P, P, Q], TRIANGLE, 1.0, sqrt, NoSuccessor)
  {
    hide Visits, Start, Without, Concludes, TRIANGLE, First, Fifth, O, X, Y, P, Q;
    TriangleStarts([P, P, Q]);
    assert [P, P] + [Q] == [P, P, Q];
    FourVisits(sqrt);
    FifthEnds(sqrt);
  }

  // ----- A large triangle: every edge is as far away as the copy's own edges -----

  const F := Point(10000.0, 0.0)
  const U := Point(0.0, 10000.0)
  const M := Point(5000.0, 1.0)

  const OF := Edge(O, F)
  const FU := Edge(F, U)
  const UO := Edge(U, O)
  const OM := Edge(O, M)
  const MF := Edge(M, F)

  const LARGE := [O, F, U]

  lemma MeasuresOfM()
    ensures Measures(OF, M, 50000000.0, 100000000.0, -10000.0)
    ensures Measures(FU, M, 50010000.0, 200000000.0, -49990000.0)
    ensures Measures(UO, M, 99990000.0, 100000000.0, -50000000.0)
    ensures Measures(OM, M, 25000001.0, 25000001.0, 0.0)
    ensures Measures(MF, M, 0.0, 25000001.0, 0.0)
  {
  }

  lemma DistancesOfM(sqrt: real -> real)
    requires IsSqrt(sqrt)
    ensures Distance2Line(OF, M, sqrt) == 1.0
    ensures 1000.0 < Distance2Line(FU, M, sqrt) && 1000.0 < Distance2Line(UO, M, sqrt)
    ensures Distance2Line(OM, M, sqrt) == 1000.0 == Distance2Line(MF, M, sqrt)
  {
    hide *;
    MeasuresOfM();
    DistanceBeside(OF, M, sqrt, 1.0, 50000000.0, 100000000.0, -10000.0);
    DistanceBeside(FU, M, sqrt, 1000.0, 50010000.0, 200000000.0, -49990000.0);
    DistanceBeside(UO, M, sqrt, 1000.0, 99990000.0, 100000000.0, -50000000.0);
    DistanceBeyond(OM, M, sqrt, 25000001.0, 25000001.0, 0.0);
    DistanceBeyond(MF, M, sqrt, 0.0, 25000001.0, 0.0);
  }

  function FirstOfLarge(): Loop {
    Loop([OF, FU, UO], [M, M], 0)
  }

  function SecondOfLarge(j: nat): Loop {
    Loop([FU, UO, OM, MF], [M], j)
  }

  lemma LargeStarts()
    ensures Start(LARGE + [M, M], LARGE) == FirstOfLarge()
    ensures |LARGE| + |Without(LARGE + [M, M], LARGE)| == |LARGE + [M, M]|
  {
    RestIsLeft(LARGE, [M, M]);
    assert CycleEdges(LARGE) == [OF, FU, UO];
  }

  lemma LargeParts()
    ensures var s := FirstOfLarge(); s.j == 0 < |s.edges| && s.edges[0] == OF && ShortWay(OF, M)
  {
  }

  lemma ChosenInLarge(sqrt: real -> real)
    requires IsSqrt(sqrt)
    ensures Chosen(OF, FirstOfLarge().edges, FirstOfLarge().N, M, sqrt)
    ensures Chosen(OM, SecondOfLarge(2).edges, SecondOfLarge(2).N, M, sqrt)
  {
    hide Distance2Line;
    DistancesOfM(sqrt);
  }

  lemma LargeFirstVisit(sqrt: real -> real)
    requires IsSqrt(sqrt)
    ensures Visit(FirstOfLarge(), SecondOfLarge(1), 1.0, sqrt)
  {
    hide *;
    LargeParts();
    ChosenInLarge(sqrt);
    RemovedFromLarge();
    PullsIn(FirstOfLarge(), OF, M, sqrt);
  }

  lemma RemovedFromLarge()
    ensures Refined(FirstOfLarge(), M) == SecondOfLarge(1)
  {
    RemoveFirstAt([OF, FU, UO] + [OM, MF], 0);
    RemoveFirstAt([M, M], 0);
  }

  lemma LargeSecondVisit(sqrt: real -> real)
    requires IsSqrt(sqrt)
    ensures Visit(SecondOfLarge(1), SecondOfLarge(2), 1.0, sqrt)
  {
    hide Distance2Line, Visit;
    DistancesOfM(sqrt);
    PassesOver(SecondOfLarge(1), OM, M, sqrt);
  }

  lemma LargeEnds(sqrt: real -> real)
    requires IsSqrt(sqrt)
    ensures Concludes(SecondOfLarge(2), ZeroDivision, sqrt)
  {
    hide Chosen, Distance;
    ChosenInLarge(sqrt);
    var s := SecondOfLarge(2);
    assert Chosen(s.edges[s.j], s.edges, s.N, M, sqrt);
    DistanceIsPositive(O, M, sqrt);
    NoDistance(M, sqrt);
  }

  lemma NoDistance(p: Point, sqrt: real -> real)
    requires IsSqrt(sqrt)
    ensures Distance(p, p, sqrt) == 0.0
  {
    var r := sqrt(SquaredDistance(p, p));
    assert r >= 0.0 && r * r == 0.0;
    if r > 0.0 {
      ProductSign(r, r, r * r);
    }
  }

  /** With M given twice, the first copy is pulled in and the second meets an edge that ends in it. */
  lemma CopyDividesByZero(sqrt: real -> real)
    requires IsSqrt(sqrt)
    ensures Ends(LARGE + [M, M], LARGE, 1.0, sqrt, ZeroDivision)
  {
    hide Visits, Visit, Start, Without, Concludes, LARGE, FirstOfLarge, SecondOfLarge, M;
    LargeStarts();
    var s := FirstOfLarge();
    LargeFirstVisit(sqrt);
    LargeSecondVisit(sqrt);
    LargeEnds(sqrt);
    NoVisits(s, 1.0, sqrt);
    OneMoreVisit(s, 0, s, SecondOfLarge(1), 1.0, sqrt);
    OneMoreVisit(s, 1, SecondOfLarge(1), SecondOfLarge(2), 1.0, sqrt);
  }
}
