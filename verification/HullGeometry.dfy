/** What the distances of the concave hull refinement measure, and the decision stated without roots. */
module HullGeometry {
  import opened Options
  import opened Reals
  import opened ConcaveHull

  lemma DistanceIsRoot(p: Point, q: Point, sqrt: real -> real)
    requires IsSqrt(sqrt)
    ensures Distance(p, q, sqrt) >= 0.0
    ensures Square(Distance(p, q, sqrt)) == Square(p.x - q.x) + Square(p.y - q.y)
  {
    SquareSign(p.x - q.x);
    SquareSign(p.y - q.y);
  }

  lemma RootsCompare(a: real, b: real)
    requires a >= 0.0 && b >= 0.0
    ensures a > b <==> Square(a) > Square(b)
  {
    if a > b {
      assert a * a >= a * b > b * b || b == 0.0;
      SquareSign(a);
    } else {
      assert a * a <= a * b <= b * b;
    }
  }

  lemma SquareOfProduct(a: real, b: real)
    ensures Square(a * b) == Square(a) * Square(b)
  {
  }

  lemma QuotientExceeds(n: real, d: real, c: real)
    requires d > 0.0
    ensures n / d > c <==> n > c * d
  {
    var q := n / d;
    assert q * d == n;
    if q > c {
      Times(q, c, d);
    } else if q < c {
      Times(c, q, d);
    }
  }

  lemma Times(a: real, b: real, d: real)
    requires a > b && d > 0.0
    ensures a * d > b * d
  {
  }

  /** The squared length of the way from p to q. */
  function Length2(p: Point, q: Point): real {
    Square(p.x - q.x) + Square(p.y - q.y)
  }

  /** The squared distance to the nearer end of e. */
  function NearerEnd2(e: Edge, p: Point): real {
    if Length2(e.tail, p) < Length2(e.head, p) then Length2(e.tail, p) else Length2(e.head, p)
  }

  lemma DecisionIsRoot(e: Edge, p: Point, sqrt: real -> real)
    requires IsSqrt(sqrt)
    ensures Decision(e, p, sqrt) >= 0.0 && Square(Decision(e, p, sqrt)) == NearerEnd2(e, p)
  {
    DistanceIsRoot(e.tail, p, sqrt);
    DistanceIsRoot(e.head, p, sqrt);
    RootsCompare(Distance(e.head, p, sqrt), Distance(e.tail, p, sqrt));
    hide Distance;
  }

  lemma RatioExceeds(n: real, d: real, c: real, n2: real, d2: real)
    requires n >= 0.0 && d > 0.0 && Square(n) == n2 && Square(d) == d2
    ensures n / d > c <==> c < 0.0 || n2 > Square(c) * d2
  {
    hide Square;
    QuotientExceeds(n, d, c);
    if c >= 0.0 {
      ProductNotNegative(c, d);
      RootsCompare(n, c * d);
      SquareOfProduct(c, d);
    } else {
      Times(0.0, c, d);
    }
  }

  lemma DistanceIsLength(p: Point, q: Point, sqrt: real -> real)
    requires IsSqrt(sqrt)
    ensures Distance(p, q, sqrt) >= 0.0 && Square(Distance(p, q, sqrt)) == Length2(p, q)
  {
    hide Distance, Square;
    DistanceIsRoot(p, q, sqrt);
  }

  lemma DigsIsRatio(e: Edge, p: Point, threshold: real, sqrt: real -> real)
    requires Decision(e, p, sqrt) != 0.0
    ensures Digs(e, p, threshold, sqrt) <==> Distance(e.tail, e.head, sqrt) / Decision(e, p, sqrt) > threshold
  {
    hide Decision, Distance;
  }

  /** The point is near enough exactly if the squared edge exceeds threshold squared times the squared way to it. */
  lemma DigsIff(e: Edge, p: Point, threshold: real, sqrt: real -> real)
    requires IsSqrt(sqrt) && Decision(e, p, sqrt) != 0.0
    ensures Digs(e, p, threshold, sqrt) <==>
      threshold < 0.0 || Length2(e.tail, e.head) > Square(threshold) * NearerEnd2(e, p)
  {
    hide *;
    DistanceIsLength(e.tail, e.head, sqrt);
    DecisionIsRoot(e, p, sqrt);
    DigsIsRatio(e, p, threshold, sqrt);
    RatioExceeds(Distance(e.tail, e.head, sqrt), Decision(e, p, sqrt), threshold, Length2(e.tail, e.head),
                 NearerEnd2(e, p));
  }

  lemma ProductNotNegative(a: real, b: real)
    requires a >= 0.0 && b >= 0.0
    ensures a * b >= 0.0
  {
  }

  /** A visit with a chosen point pulls it in exactly then, and moves on either way. */
  lemma VisitDecides(s: Loop, s': Loop, p: Point, threshold: real, sqrt: real -> real)
    requires IsSqrt(sqrt) && Visit(s, s', threshold, sqrt) && Chosen(s.edges[s.j], s.edges, s.N, p, sqrt)
    ensures var e := s.edges[s.j];
      s' == if threshold < 0.0 || Length2(e.tail, e.head) > Square(threshold) * NearerEnd2(e, p)
            then Loop(RemoveFirst(s.edges + [Edge(e.tail, p), Edge(p, e.head)], e), RemoveFirst(s.N, p), s.j + 1)
            else Loop(s.edges, s.N, s.j + 1)
  {
    hide *;
    VisitHasEdge(s, s', threshold, sqrt);
    OnlyDecided(s, s', p, threshold, sqrt);
    DecidedCases(s, p, threshold, sqrt);
    DigsIff(s.edges[s.j], p, threshold, sqrt);
  }

  lemma VisitHasEdge(s: Loop, s': Loop, threshold: real, sqrt: real -> real)
    requires IsSqrt(sqrt) && Visit(s, s', threshold, sqrt)
    ensures s.j < |s.edges|
  {
    hide Chosen, Decision, Decided;
  }

  lemma DecidedCases(s: Loop, p: Point, threshold: real, sqrt: real -> real)
    requires s.j < |s.edges| && Decision(s.edges[s.j], p, sqrt) != 0.0
    ensures var e := s.edges[s.j];
      Decided(s, p, threshold, sqrt) == if Digs(e, p, threshold, sqrt)
            then Loop(RemoveFirst(s.edges + [Edge(e.tail, p), Edge(p, e.head)], e), RemoveFirst(s.N, p), s.j + 1)
            else Loop(s.edges, s.N, s.j + 1)
  {
    hide Digs, Decision, RemoveFirst;
  }

  lemma OnlyDecided(s: Loop, s': Loop, p: Point, threshold: real, sqrt: real -> real)
    requires IsSqrt(sqrt) && Visit(s, s', threshold, sqrt) && Chosen(s.edges[s.j], s.edges, s.N, p, sqrt)
    ensures Decision(s.edges[s.j], p, sqrt) != 0.0 && s' == Decided(s, p, threshold, sqrt)
  {
    hide Decided, Decision, Chosen;
    forall q | Chosen(s.edges[s.j], s.edges, s.N, q, sqrt) ensures q == p {
      ChosenIsUnique(s.edges[s.j], s.edges, s.N, p, q, sqrt);
    }
  }

  // ----- Points of the line through an edge -----

  /** The point of the line through e at t: the tail at 0, the head at 1. */
  function OnLine(e: Edge, t: real): Point {
    Point(e.tail.x + t * (e.head.x - e.tail.x), e.tail.y + t * (e.head.y - e.tail.y))
  }

  /** Lagrange's identity. */
  lemma Lagrange(v: Point, w: Point, t: real, c1: real, c2: real, cross: real, rest: real, length2: real)
    requires c1 == w.x * v.x + w.y * v.y && c2 == v.x * v.x + v.y * v.y && cross == w.x * v.y - w.y * v.x
    requires rest == c1 - t * c2 && length2 == Square(w.x - t * v.x) + Square(w.y - t * v.y)
    ensures c2 * length2 == Square(cross) + Square(rest)
  {
  }

  function Cross(e: Edge, p: Point): real {
    (p.x - e.tail.x) * (e.head.y - e.tail.y) - (p.y - e.tail.y) * (e.head.x - e.tail.x)
  }

  /** v is the way along e, w the way from its tail to p. */
  predicate Ways(e: Edge, p: Point, v: Point, w: Point) {
    && v.x == e.head.x - e.tail.x && v.y == e.head.y - e.tail.y
    && w.x == p.x - e.tail.x && w.y == p.y - e.tail.y
  }

  lemma WaysOf(e: Edge, p: Point)
    ensures Ways(e, p, Point(e.head.x - e.tail.x, e.head.y - e.tail.y), Point(p.x - e.tail.x, p.y - e.tail.y))
  {
  }

  lemma WayCoordinates(e: Edge, p: Point, t: real, v: Point, w: Point)
    requires Ways(e, p, v, w)
    ensures Length2(p, OnLine(e, t)) == Square(w.x - t * v.x) + Square(w.y - t * v.y)
  {
    hide Square;
    var q := OnLine(e, t);
    assert q.x == e.tail.x + t * v.x && q.y == e.tail.y + t * v.y;
    assert p.x - q.x == w.x - t * v.x && p.y - q.y == w.y - t * v.y;
  }

  lemma WayProducts(e: Edge, p: Point, v: Point, w: Point)
    requires Ways(e, p, v, w)
    ensures SquaredDistance(e.head, e.tail) == v.x * v.x + v.y * v.y
    ensures Along(e, p) == w.x * v.x + w.y * v.y && Cross(e, p) == w.x * v.y - w.y * v.x
  {
  }

  /** The squared way from p to the point at t, times the squared edge: least where rest is 0. */
  lemma WayToLine(e: Edge, p: Point, t: real, c1: real, c2: real, rest: real)
    requires c1 == Along(e, p) && c2 == SquaredDistance(e.head, e.tail) && rest == c1 - t * c2
    ensures c2 * Length2(p, OnLine(e, t)) == Square(Cross(e, p)) + Square(rest)
  {
    hide *;
    var v, w := Point(e.head.x - e.tail.x, e.head.y - e.tail.y), Point(p.x - e.tail.x, p.y - e.tail.y);
    WaysOf(e, p);
    WayCoordinates(e, p, t, v, w);
    WayProducts(e, p, v, w);
    Lagrange(v, w, t, c1, c2, Cross(e, p), rest, Length2(p, OnLine(e, t)));
  }

  // ----- The distance to an edge -----

  /** No point of the line through e is nearer to p than the one at t. */
  ghost predicate IsFoot(e: Edge, p: Point, t: real) {
    forall u :: Length2(p, OnLine(e, t)) <= Length2(p, OnLine(e, u))
  }

  /** The foot of the perpendicular from p lies strictly between the ends of e. */
  ghost predicate FootBetween(e: Edge, p: Point) {
    e.tail != e.head && exists t :: 0.0 < t < 1.0 && IsFoot(e, p, t)
  }

  lemma NotLonger(c: real, a: real, b: real)
    requires c > 0.0 && c * a <= c * b
    ensures a <= b
  {
    if a > b {
      Times(a, b, c);
    }
  }

  lemma FootOfPerpendicular(e: Edge, p: Point, t: real, c1: real, c2: real)
    requires c1 == Along(e, p) && c2 == SquaredDistance(e.head, e.tail) && c2 > 0.0 && c1 == t * c2
    ensures IsFoot(e, p, t)
    ensures c2 * Length2(p, OnLine(e, t)) == Square(Cross(e, p))
  {
    hide Along, SquaredDistance, Length2, OnLine, Square, Cross;
    var least := Length2(p, OnLine(e, t));
    WayToLine(e, p, t, c1, c2, 0.0);
    NoSquare();
    assert c2 * least == Square(Cross(e, p));
    forall u ensures least <= Length2(p, OnLine(e, u)) {
      var rest := c1 - u * c2;
      WayToLine(e, p, u, c1, c2, rest);
      SquareSign(rest);
      assert c2 * least <= c2 * Length2(p, OnLine(e, u));
      NotLonger(c2, least, Length2(p, OnLine(e, u)));
    }
  }

  lemma NoSquare()
    ensures Square(0.0) == 0.0
  {
  }

  /** The foot is where the way from p meets the line at a right angle. */
  lemma FootIsPerpendicular(e: Edge, p: Point, t: real, c1: real, c2: real)
    requires c1 == Along(e, p) && c2 == SquaredDistance(e.head, e.tail) && c2 > 0.0 && IsFoot(e, p, t)
    ensures c1 == t * c2
  {
    hide Along, SquaredDistance, Length2, OnLine, Square, Cross;
    var u := c1 / c2;
    assert u * c2 == c1;
    FootOfPerpendicular(e, p, u, c1, c2);
    var rest := c1 - t * c2;
    WayToLine(e, p, t, c1, c2, rest);
    var here, there := Length2(p, OnLine(e, t)), Length2(p, OnLine(e, u));
    assert here <= there;
    MoreOrEqual(c2, there, here);
    SquareSign(rest);
    assert Square(rest) <= 0.0;
  }

  lemma MoreOrEqual(c: real, a: real, b: real)
    requires c > 0.0 && a >= b
    ensures c * a >= c * b
  {
  }

  lemma BesideIff(e: Edge, p: Point, c1: real, c2: real)
    requires c1 == Along(e, p) && c2 == SquaredDistance(e.head, e.tail)
    ensures FootBetween(e, p) <==> 0.0 < c1 < c2
  {
    if e.tail != e.head {
      SquaresArePositive(e.head, e.tail);
    }
    hide Along, SquaredDistance, IsFoot;
    if FootBetween(e, p) {
      var t :| 0.0 < t < 1.0 && IsFoot(e, p, t);
      FootIsPerpendicular(e, p, t, c1, c2);
      Times(t, 0.0, c2);
      Times(1.0, t, c2);
    }
    if 0.0 < c1 < c2 {
      NoLength(e.tail);
      var t := c1 / c2;
      assert t * c2 == c1;
      Between(t, c2, c1);
      FootOfPerpendicular(e, p, t, c1, c2);
    }
  }

  lemma NoLength(p: Point)
    ensures SquaredDistance(p, p) == 0.0
  {
  }

  lemma Between(t: real, c2: real, c1: real)
    requires t * c2 == c1 && 0.0 < c1 < c2
    ensures 0.0 < t < 1.0
  {
    if t >= 1.0 {
      MoreOrEqual(c2, t, 1.0);
    } else if t <= 0.0 {
      MoreOrEqual(c2, 0.0, t);
    }
  }

  /**
   The distance to an edge is the way to the nearest point of its line if that point lies strictly between the ends,
   and 1000 otherwise.
   */
  lemma DistanceIsToFoot(e: Edge, p: Point, sqrt: real -> real)
    requires IsSqrt(sqrt)
    ensures var d := Distance2Line(e, p, sqrt);
      if FootBetween(e, p)
      then d >= 0.0 && forall t | IsFoot(e, p, t) :: Square(d) == Length2(p, OnLine(e, t))
      else d == 1000.0
  {
    hide Along, SquaredDistance, IsFoot, Square, Cross;
    var c1, c2 := Along(e, p), SquaredDistance(e.head, e.tail);
    BesideIff(e, p, c1, c2);
    if FootBetween(e, p) {
      DistanceByCross(e, p, sqrt);
      var d := Distance2Line(e, p, sqrt);
      forall t | IsFoot(e, p, t) ensures Square(d) == Length2(p, OnLine(e, t)) {
        SameAtFoot(e, p, t, c1, c2, Square(d));
      }
    }
  }

  lemma SameAtFoot(e: Edge, p: Point, t: real, c1: real, c2: real, d2: real)
    requires c1 == Along(e, p) && c2 == SquaredDistance(e.head, e.tail) && c2 > 0.0 && IsFoot(e, p, t)
    requires c2 * d2 == Square(Cross(e, p))
    ensures d2 == Length2(p, OnLine(e, t))
  {
    hide *;
    FootIsPerpendicular(e, p, t, c1, c2);
    FootOfPerpendicular(e, p, t, c1, c2);
    NotLonger(c2, d2, Length2(p, OnLine(e, t)));
    NotLonger(c2, Length2(p, OnLine(e, t)), d2);
  }

  lemma DistanceByCross(e: Edge, p: Point, sqrt: real -> real)
    requires IsSqrt(sqrt) && 0.0 < Along(e, p) < SquaredDistance(e.head, e.tail)
    ensures var d := Distance2Line(e, p, sqrt);
      d >= 0.0 && SquaredDistance(e.head, e.tail) * Square(d) == Square(Cross(e, p))
  {
    hide Along, SquaredDistance;
    var c2 := SquaredDistance(e.head, e.tail);
    var c, n := Abs(Cross(e, p)), sqrt(c2);
    assert n >= 0.0 && n * n == c2;
    assert Square(c) == Square(Cross(e, p));
    assert Distance2Line(e, p, sqrt) == c / n;
    hide *;
    QuotientSquared(c, n, c2);
    NotNegative(c, n);
  }

  lemma NotNegative(c: real, n: real)
    requires c >= 0.0 && n > 0.0
    ensures c / n >= 0.0
  {
  }

  lemma QuotientSquared(c: real, n: real, c2: real)
    requires n > 0.0 && n * n == c2
    ensures c2 * Square(c / n) == Square(c)
  {
    var q := c / n;
    assert q * n == c;
    SquareOfProduct(q, n);
  }

  // ----- What is chosen is nearest -----

  /** The edge of a point is one of those at the least distance, the chosen point of an edge one at the least. */
  lemma ChosenIsNearest(e: Edge, edges: seq<Edge>, N: seq<Point>, p: Point, sqrt: real -> real)
    requires IsSqrt(sqrt) && Chosen(e, edges, N, p, sqrt)
    ensures forall f | f in edges :: Distance2Line(e, p, sqrt) <= Distance2Line(f, p, sqrt)
    ensures forall q | q in N && IsNearest(e, edges, q, sqrt) :: Distance2Line(e, p, sqrt) <= Distance2Line(e, q, sqrt)
  {
    hide Distance2Line;
  }
}
