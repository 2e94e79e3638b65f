/** The geometry kernel: distance from a point to a straight segment of the
    part outline, and the unit vector from the closest point of the segment
    towards the point.

    Coordinates are exact reals. The square root the kernel needs is not
    defined here: every member that uses it takes it as a parameter `sqrt`
    that is only known to satisfy `IsSqrt`. */
module Geometry {

  /** A 2D point or vector. */
  datatype Vec = Vec(x: real, y: real)

  /** One straight edge of the outline, from `start` to `end`. */
  datatype Segment = Segment(start: Vec, end: Vec)

  /** What the kernel returns: a distance and a direction that is a unit
      vector or the zero sentinel `Zero`. */
  datatype Proximity = Proximity(dist: real, dir: Vec)

  /** The "no defined direction" sentinel. */
  const Zero := Vec(0.0, 0.0)

  function Add(a: Vec, b: Vec): Vec { Vec(a.x + b.x, a.y + b.y) }

  function Sub(a: Vec, b: Vec): Vec { Vec(a.x - b.x, a.y - b.y) }

  function Scale(v: Vec, k: real): Vec { Vec(v.x * k, v.y * k) }

  function Dot(a: Vec, b: Vec): real { a.x * b.x + a.y * b.y }

  /** The identity on reals, used only inside `Sq`. Written as `a * a`, a
      square reaches the solver's non-linear arithmetic as one squared
      term, and the sign facts of `SqSign` are then no longer proved;
      `a * Id(a)` keeps it an ordinary product of two terms. */
  function Id(a: real): real { a }

  /** `a` squared. */
  function Sq(a: real): real { a * Id(a) }

  function SqNorm(v: Vec): real { Sq(v.x) + Sq(v.y) }

  /** Squared Euclidean distance between two points. */
  function SqDist(a: Vec, b: Vec): real { SqNorm(Sub(a, b)) }

  /** `sqrt` behaves as the non-negative square root on non-negative reals. */
  ghost predicate IsSqrt(sqrt: real -> real) {
    forall x :: 0.0 <= x ==> 0.0 <= sqrt(x) && Sq(sqrt(x)) == x
  }

  /** A segment whose squared length is exactly zero. */
  predicate Degenerate(seg: Segment) {
    SqNorm(Sub(seg.end, seg.start)) == 0.0
  }

  /** The point at parameter `t` on the line through the segment. */
  function PointAt(seg: Segment, t: real): Vec {
    Add(seg.start, Scale(Sub(seg.end, seg.start), t))
  }

  /** `max(0, min(1, u))`. */
  function Clamp01(u: real): (t: real)
    ensures 0.0 <= t <= 1.0
    ensures 0.0 <= u <= 1.0 ==> t == u
    ensures u < 0.0 ==> t == 0.0
    ensures 1.0 < u ==> t == 1.0
  {
    if 1.0 < u then 1.0 else if u < 0.0 then 0.0 else u
  }

  /** The projection parameter of `p` on the segment, clamped into [0, 1];
      0 for a degenerate segment. */
  function Param(p: Vec, seg: Segment): (t: real)
    ensures 0.0 <= t <= 1.0
  {
    var d := Sub(seg.end, seg.start);
    var lengthSq := SqNorm(d);
    if lengthSq == 0.0 then 0.0 else Clamp01(Dot(Sub(p, seg.start), d) / lengthSq)
  }

  /** The point of the segment the kernel measures from. */
  function ClosestPoint(p: Vec, seg: Segment): Vec {
    PointAt(seg, Param(p, seg))
  }

  lemma SqSign(a: real)
    ensures 0.0 <= Sq(a)
    ensures a != 0.0 ==> 0.0 < Sq(a)
  {
  }

  lemma SqNormZero(v: Vec)
    ensures 0.0 <= SqNorm(v)
    ensures SqNorm(v) == 0.0 <==> v == Zero
  {
    SqSign(v.x);
    SqSign(v.y);
  }

  /** Dividing a non-zero vector `w` by its length `d` gives a unit vector,
      and adding it back `d` times to `q` returns to `q + w`. */
  lemma NormalizedIsUnit(q: Vec, w: Vec, d: real)
    requires 0.0 < d && Sq(d) == SqNorm(w)
    ensures SqNorm(Vec(w.x / d, w.y / d)) == 1.0
    ensures Add(q, Scale(Vec(w.x / d, w.y / d), d)) == Add(q, w)
  {
    var u := Vec(w.x / d, w.y / d);
    assert u.x * d == w.x;
    assert u.y * d == w.y;
    SqOfProduct(u.x, d);
    SqOfProduct(u.y, d);
    SqSign(d);
    Distribute(Sq(u.x), Sq(u.y), Sq(d));
    assert Sq(u.x * d) == Sq(w.x);
    assert Sq(u.y * d) == Sq(w.y);
    assert SqNorm(u) * Sq(d) == Sq(w.x) + Sq(w.y);
    CancelFactor(SqNorm(u), Sq(d));
  }

  lemma SqOfProduct(a: real, b: real)
    ensures Sq(a * b) == Sq(a) * Sq(b)
  {
  }

  lemma Distribute(a: real, b: real, c: real)
    ensures (a + b) * c == a * c + b * c
  {
  }

  lemma CancelFactor(a: real, b: real)
    requires 0.0 < b && a * b == b
    ensures a == 1.0
  {
    assert (a * b) / b == a;
  }

  /** The kernel: distance from `p` to the segment and the unit vector from
      the closest point of the segment towards `p`, or the zero sentinel when
      the segment is degenerate or `p` lies on it. */
  function DistanceAndDirection(p: Vec, seg: Segment, sqrt: real -> real): (r: Proximity)
    requires IsSqrt(sqrt)
    ensures 0.0 <= r.dist
    ensures Sq(r.dist) == SqDist(p, ClosestPoint(p, seg))
    ensures Degenerate(seg) ==> Sq(r.dist) == SqDist(p, seg.start) && r.dir == Zero
    ensures r.dist == 0.0 ==> r.dir == Zero
    ensures !Degenerate(seg) ==> Add(ClosestPoint(p, seg), Scale(r.dir, r.dist)) == p
    ensures !Degenerate(seg) && 0.0 < r.dist ==> SqNorm(r.dir) == 1.0
  {
    var d := Sub(seg.end, seg.start);
    var lengthSq := Sq(d.x) + Sq(d.y);
    if lengthSq == 0.0 then
      DegenerateClosestIsStart(p, seg);
      SqNormZero(Sub(p, seg.start));
      RootOf(sqrt, SqDist(p, seg.start));
      Proximity(sqrt(SqDist(p, seg.start)), Zero)
    else
      var proj := ClosestPoint(p, seg);
      SqNormZero(Sub(p, proj));
      RootOf(sqrt, SqDist(p, proj));
      var dist := sqrt(SqDist(p, proj));
      AddSub(proj, p);
      if 0.0 < dist then
        NormalizedIsUnit(proj, Sub(p, proj), dist);
        Proximity(dist, Vec((p.x - proj.x) / dist, (p.y - proj.y) / dist))
      else
        OnSegment(p, proj);
        AddZeroScale(proj, Zero, dist);
        Proximity(dist, Zero)
  }

  lemma RootOf(sqrt: real -> real, x: real)
    requires IsSqrt(sqrt) && 0.0 <= x
    ensures 0.0 <= sqrt(x) && Sq(sqrt(x)) == x
  {
  }

  lemma AddSub(q: Vec, p: Vec)
    ensures Add(q, Sub(p, q)) == p
  {
  }

  /** A zero squared distance puts `p` on `q`. */
  lemma OnSegment(p: Vec, q: Vec)
    requires SqDist(p, q) == 0.0
    ensures p == q
  {
    SqNormZero(Sub(p, q));
    SubZero(p, q);
  }

  /** Every parameter gives the start point of a degenerate segment. */
  lemma PointAtDegenerate(seg: Segment, t: real)
    requires seg.start == seg.end
    ensures PointAt(seg, t) == seg.start
  {
    var d := Sub(seg.end, seg.start);
    ZeroTimes(d.x, t);
    ZeroTimes(d.y, t);
    AddZeroScale(seg.start, d, t);
  }

  lemma AddZeroScale(q: Vec, d: Vec, t: real)
    requires d.x * t == 0.0 && d.y * t == 0.0
    ensures Add(q, Scale(d, t)) == q
  {
  }

  lemma ZeroTimes(a: real, b: real)
    requires a == 0.0
    ensures a * b == 0.0
  {
  }

  /** The closest point of a degenerate segment is its start point. */
  lemma DegenerateClosestIsStart(p: Vec, seg: Segment)
    requires Degenerate(seg)
    ensures ClosestPoint(p, seg) == seg.start
  {
    DegenerateIffSameEndpoints(seg);
    PointAtDegenerate(seg, Param(p, seg));
  }

  /** A segment is degenerate exactly when its two endpoints coincide. */
  lemma DegenerateIffSameEndpoints(seg: Segment)
    ensures Degenerate(seg) <==> seg.start == seg.end
  {
    SqNormZero(Sub(seg.end, seg.start));
    SubZero(seg.end, seg.start);
  }

  lemma SubZero(a: Vec, b: Vec)
    ensures Sub(a, b) == Zero <==> a == b
  {
  }

  /** Squared distance from `p` to the point at parameter `s`, expanded as a
      quadratic in `s`. */
  lemma SqDistAlong(p: Vec, seg: Segment, s: real)
    ensures var w, d := Sub(p, seg.start), Sub(seg.end, seg.start);
            SqDist(p, PointAt(seg, s)) == SqNorm(w) - 2.0 * s * Dot(w, d) + Sq(s) * SqNorm(d)
  {
    var w, d := Sub(p, seg.start), Sub(seg.end, seg.start);
    assert Sub(p, PointAt(seg, s)) == Vec(w.x - s * d.x, w.y - s * d.y);
    SqOfDifference(w.x, s * d.x);
    SqOfDifference(w.y, s * d.y);
    SqOfProduct(s, d.x);
    SqOfProduct(s, d.y);
  }

  lemma SqOfDifference(a: real, b: real)
    ensures Sq(a - b) == Sq(a) - 2.0 * a * b + Sq(b)
  {
  }

  lemma DifferenceOfSquares(a: real, b: real)
    ensures Sq(a) - Sq(b) == (a - b) * (a + b)
  {
  }

  lemma ProductNonNegative(a: real, b: real)
    requires (0.0 <= a && 0.0 <= b) || (a <= 0.0 && b <= 0.0)
    ensures 0.0 <= a * b
  {
  }

  lemma ProductPositive(a: real, b: real)
    requires 0.0 < a && 0.0 < b
    ensures 0.0 < a * b
  {
  }

  /** The quadratic `Sq(x) * len - 2 * x * c` has its minimum over [0, 1] at
      the clamped vertex `Clamp01(c / len)`. */
  lemma {:induction false} ClampedVertexIsMinimum(len: real, c: real, s: real)
    requires 0.0 < len && 0.0 <= s <= 1.0
    ensures var t := Clamp01(c / len);
            Sq(t) * len - 2.0 * t * c <= Sq(s) * len - 2.0 * s * c
  {
    var u := c / len;
    assert c == u * len;
    if u < 0.0 {
      assert c < 0.0 by { ProductPositive(-u, len); }
      MinimumAtStart(len, c, s);
    } else if 1.0 < u {
      assert len < c by { ProductPositive(u - 1.0, len); }
      MinimumAtEnd(len, c, s);
    } else {
      MinimumAtVertex(len, c, s, u);
    }
  }

  /** With the vertex before 0 the quadratic is smallest at 0. */
  lemma MinimumAtStart(len: real, c: real, s: real)
    requires 0.0 < len && c < 0.0 && 0.0 <= s <= 1.0
    ensures Sq(0.0) * len - 2.0 * 0.0 * c <= Sq(s) * len - 2.0 * s * c
  {
    GapFactors(len, c, s, 0.0);
    ProductNonNegative(len, s);
    ProductNonNegative(s, len * s - 2.0 * c);
  }

  /** With the vertex after 1 the quadratic is smallest at 1. */
  lemma MinimumAtEnd(len: real, c: real, s: real)
    requires 0.0 < len < c && 0.0 <= s <= 1.0
    ensures Sq(1.0) * len - 2.0 * 1.0 * c <= Sq(s) * len - 2.0 * s * c
  {
    GapFactors(len, c, s, 1.0);
    ProductNonNegative(len, 1.0 - s);
    ProductNonNegative(s - 1.0, len * (s + 1.0) - 2.0 * c);
  }

  /** With the vertex `t` inside [0, 1] the gap to any `s` is `len * (s - t)^2`. */
  lemma MinimumAtVertex(len: real, c: real, s: real, t: real)
    requires 0.0 < len && c == t * len
    ensures Sq(t) * len - 2.0 * t * c <= Sq(s) * len - 2.0 * s * c
  {
    GapFactors(len, c, s, t);
    assert (s - t) * (len * (s + t) - 2.0 * c) == len * Sq(s - t) by {
      SqOfDifference(s, t);
    }
    SqSign(s - t);
    ProductNonNegative(len, Sq(s - t));
  }

  lemma GapFactors(len: real, c: real, s: real, t: real)
    ensures (Sq(s) * len - 2.0 * s * c) - (Sq(t) * len - 2.0 * t * c)
            == (s - t) * (len * (s + t) - 2.0 * c)
  {
    DifferenceOfSquares(s, t);
  }

  /** The clamped projection gives the point of the segment nearest to `p`:
      no other point of the segment, its endpoints included, is closer. */
  lemma {:induction false} ClosestPointIsNearest(p: Vec, seg: Segment, s: real)
    requires 0.0 <= s <= 1.0
    ensures SqDist(p, ClosestPoint(p, seg)) <= SqDist(p, PointAt(seg, s))
  {
    var w, d := Sub(p, seg.start), Sub(seg.end, seg.start);
    var t := Param(p, seg);
    SqNormZero(d);
    if SqNorm(d) == 0.0 {
      DegenerateIffSameEndpoints(seg);
      PointAtDegenerate(seg, s);
      PointAtDegenerate(seg, t);
    } else {
      var len, c := SqNorm(d), Dot(w, d);
      assert t == Clamp01(c / len);
      SqDistAlong(p, seg, s);
      SqDistAlong(p, seg, t);
      ClampedVertexIsMinimum(len, c, s);
    }
  }

  /** The kernel's distance is the distance from `p` to the segment: it is
      reached at a point of the segment, and no point of the segment is
      nearer. */
  lemma KernelDistanceIsSegmentDistance(p: Vec, seg: Segment, s: real, sqrt: real -> real)
    requires IsSqrt(sqrt)
    requires 0.0 <= s <= 1.0
    ensures var r := DistanceAndDirection(p, seg, sqrt);
            Sq(r.dist) == SqDist(p, PointAt(seg, Param(p, seg)))
            && Sq(r.dist) <= SqDist(p, PointAt(seg, s))
  {
    ClosestPointIsNearest(p, seg, s);
  }

  /** A point lying on the segment is at distance 0 and gets the zero
      direction. */
  lemma PointOnSegmentIsAtZero(p: Vec, seg: Segment, s: real, sqrt: real -> real)
    requires IsSqrt(sqrt)
    requires 0.0 <= s <= 1.0 && p == PointAt(seg, s)
    ensures DistanceAndDirection(p, seg, sqrt) == Proximity(0.0, Zero)
  {
    var r := DistanceAndDirection(p, seg, sqrt);
    assert SqDist(p, ClosestPoint(p, seg)) == 0.0 by {
      ClosestPointIsNearest(p, seg, s);
      SubZero(p, p);
      SqNormZero(Sub(p, p));
      SqNormZero(Sub(p, ClosestPoint(p, seg)));
    }
    assert r.dist == 0.0 by {
      SqSign(r.dist);
    }
  }

  /** For a degenerate segment the result is the distance to the start point
      with the zero sentinel, whatever the point. */
  lemma DegenerateSegmentResult(p: Vec, seg: Segment, sqrt: real -> real)
    requires IsSqrt(sqrt)
    requires seg.start == seg.end
    ensures DistanceAndDirection(p, seg, sqrt) == Proximity(sqrt(SqDist(p, seg.start)), Zero)
  {
    DegenerateIffSameEndpoints(seg);
  }

  /** The direction returned is always the zero sentinel or a unit vector. */
  lemma DirectionIsUnitOrZero(p: Vec, seg: Segment, sqrt: real -> real)
    requires IsSqrt(sqrt)
    ensures var r := DistanceAndDirection(p, seg, sqrt);
            r.dir == Zero || SqNorm(r.dir) == 1.0
  {
  }

  /** Where the projection of `p` falls within the segment, so that the
      clamp changes nothing, the direction is perpendicular to the
      segment. */
  lemma DirectionIsPerpendicular(p: Vec, seg: Segment, sqrt: real -> real)
    requires IsSqrt(sqrt) && !Degenerate(seg)
    requires var d := Sub(seg.end, seg.start); 0.0 <= Dot(Sub(p, seg.start), d) / SqNorm(d) <= 1.0
    ensures Dot(DistanceAndDirection(p, seg, sqrt).dir, Sub(seg.end, seg.start)) == 0.0
  {
    var d, w := Sub(seg.end, seg.start), Sub(p, seg.start);
    var u := Dot(w, d) / SqNorm(d);
    var q := ClosestPoint(p, seg);
    assert Param(p, seg) == u;
    assert Sub(p, q) == Sub(w, Scale(d, u));
    OffsetIsOrthogonal(w, d, u);
    var r := DistanceAndDirection(p, seg, sqrt);
    if r.dir != Zero {
      assert 0.0 < r.dist && r.dir == Vec((p.x - q.x) / r.dist, (p.y - q.y) / r.dist);
      DotOfQuotient(Sub(p, q), d, r.dist);
    }
  }

  /** Taking away the projection of `w` on `d` leaves a vector orthogonal
      to `d`. */
  lemma OffsetIsOrthogonal(w: Vec, d: Vec, u: real)
    requires SqNorm(d) != 0.0 && u == Dot(w, d) / SqNorm(d)
    ensures Dot(Sub(w, Scale(d, u)), d) == 0.0
  {
    assert Dot(Sub(w, Scale(d, u)), d) == Dot(w, d) - u * SqNorm(d);
  }

  lemma DotOfQuotient(a: Vec, d: Vec, k: real)
    requires k != 0.0
    ensures Dot(Vec(a.x / k, a.y / k), d) == Dot(a, d) / k
  {
  }

  /** Where the projection of `p` falls before the start or past the end of
      the segment, the clamp puts the measured point at that endpoint, and
      the direction then runs from the endpoint towards `p`. */
  lemma ClampedAtEndpoint(p: Vec, seg: Segment)
    requires !Degenerate(seg)
    ensures var d := Sub(seg.end, seg.start);
            Dot(Sub(p, seg.start), d) / SqNorm(d) < 0.0 ==> ClosestPoint(p, seg) == seg.start
    ensures var d := Sub(seg.end, seg.start);
            1.0 < Dot(Sub(p, seg.start), d) / SqNorm(d) ==> ClosestPoint(p, seg) == seg.end
  {
  }

  /** `sqrt` is determined on non-negative reals: it returns the one
      non-negative root. */
  lemma RootUnique(sqrt: real -> real, x: real, root: real)
    requires IsSqrt(sqrt)
    requires 0.0 <= root && Sq(root) == x
    ensures sqrt(x) == root
  {
    SqSign(root);
    var s := sqrt(x);
    assert 0.0 <= s && Sq(s) == x;
    DifferenceOfSquares(s, root);
    if s + root != 0.0 {
      ZeroFactor(s - root, s + root);
    }
  }

  lemma ZeroFactor(a: real, b: real)
    requires a * b == 0.0 && b != 0.0
    ensures a == 0.0
  {
    assert a == (a * b) / b;
  }

  /** The kernel's answer for a non-degenerate segment, given the closest
      point `q` and a positive root `dist` of the squared distance to it. */
  lemma KernelAtFoot(p: Vec, seg: Segment, sqrt: real -> real, q: Vec, dist: real)
    requires IsSqrt(sqrt) && !Degenerate(seg)
    requires ClosestPoint(p, seg) == q && 0.0 < dist && Sq(dist) == SqDist(p, q)
    ensures DistanceAndDirection(p, seg, sqrt) == Proximity(dist, Vec((p.x - q.x) / dist, (p.y - q.y) / dist))
  {
    SqNormZero(Sub(p, q));
    RootUnique(sqrt, SqDist(p, q), dist);
  }

  /** The kernel's answer for a zero-length segment, given a non-negative
      root `dist` of the squared distance to its point. */
  lemma KernelAtPoint(p: Vec, seg: Segment, sqrt: real -> real, dist: real)
    requires IsSqrt(sqrt) && seg.start == seg.end
    requires 0.0 <= dist && Sq(dist) == SqDist(p, seg.start)
    ensures DistanceAndDirection(p, seg, sqrt) == Proximity(dist, Zero)
  {
    DegenerateSegmentResult(p, seg, sqrt);
    RootUnique(sqrt, SqDist(p, seg.start), dist);
  }
}
