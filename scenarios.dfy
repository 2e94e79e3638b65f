/** Worked cases on the shipped constants: rivet holes on the line y = 50
    next to vertical outline edges. */
module Scenarios {
  import opened Geometry
  import opened Holes
  import opened HoleProperties

  /** A vertical outline edge along `x`, from y = 0 to y = 100. */
  function Edge(x: real): Segment {
    Segment(Vec(x, 0.0), Vec(x, 100.0))
  }

  /** A rivet hole of diameter 4.2 centred at `(x, 50)`. */
  function RivetAt(x: real): Hole {
    Hole(Point3(x, 50.0, 0.0), 2.1)
  }

  /** The perpendicular from `(px, 50)` meets `Edge(ex)` at `(ex, 50)`. */
  lemma Foot(px: real, ex: real)
    ensures !Degenerate(Edge(ex))
    ensures ClosestPoint(Vec(px, 50.0), Edge(ex)) == Vec(ex, 50.0)
    ensures SqDist(Vec(px, 50.0), Vec(ex, 50.0)) == Sq(px - ex)
  {
    var p, e := Vec(px, 50.0), Edge(ex);
    assert Sub(p, e.start) == Vec(px - ex, 50.0);
    assert Sub(e.end, e.start) == Vec(0.0, 100.0);
    assert Dot(Vec(px - ex, 50.0), Vec(0.0, 100.0)) == 5000.0;
    assert SqNorm(Vec(0.0, 100.0)) == 10000.0;
    assert Param(p, e) == 0.5;
    assert Scale(Vec(0.0, 100.0), 0.5) == Vec(0.0, 50.0);
    assert Sub(p, Vec(ex, 50.0)) == Vec(px - ex, 0.0);
    assert Sq(0.0) == 0.0;
  }

  lemma Quotients(a: real, b: real)
    requires 0.0 < b && (a == b || a == -b)
    ensures a / b == (if a == b then 1.0 else -1.0) && 0.0 / b == 0.0
  {
  }

  /** The kernel for `(px, 50)` and `Edge(ex)`: the horizontal distance, and
      the unit vector pointing from the edge towards the point. */
  lemma EdgeKernel(px: real, ex: real, sqrt: real -> real)
    requires IsSqrt(sqrt) && px != ex
    ensures var r := DistanceAndDirection(Vec(px, 50.0), Edge(ex), sqrt);
            ex < px ==> r == Proximity(px - ex, Vec(1.0, 0.0))
    ensures var r := DistanceAndDirection(Vec(px, 50.0), Edge(ex), sqrt);
            px < ex ==> r == Proximity(ex - px, Vec(-1.0, 0.0))
  {
    Foot(px, ex);
    var dist := if ex < px then px - ex else ex - px;
    assert Sq(dist) == Sq(px - ex);
    KernelAtFoot(Vec(px, 50.0), Edge(ex), sqrt, Vec(ex, 50.0), dist);
    Quotients(px - ex, dist);
    assert (50.0 - 50.0) / dist == 0.0;
  }

  /** A rivet hole 22 to 38 mm from its only edge, on either side of it,
      is counted as corrected and, outside a dry run, moved 20 mm towards
      the edge. */
  lemma FarHoleIsPulledBack(px: real, ex: real, sqrt: real -> real)
    requires IsSqrt(sqrt) && (22.0 <= px - ex <= 38.0 || 22.0 <= ex - px <= 38.0)
    ensures Assess(RivetAt(px), [Edge(ex)], Default, sqrt) == Corrected
    ensures Repositioned(RivetAt(px), [Edge(ex)], Default, false, sqrt)
            == RivetAt(if ex < px then px - 20.0 else px + 20.0)
    ensures Repositioned(RivetAt(px), [Edge(ex)], Default, true, sqrt) == RivetAt(px)
  {
    EdgeKernel(px, ex, sqrt);
    var pr := if ex < px then Proximity(px - ex, Vec(1.0, 0.0)) else Proximity(ex - px, Vec(-1.0, 0.0));
    SingleEdgeIsNearest(Vec(px, 50.0), Edge(ex), sqrt);
    DefaultDecision(pr);
    CandidateStep(RivetAt(px), [Edge(ex)], Default, false, sqrt, Some(pr));
    CandidateStep(RivetAt(px), [Edge(ex)], Default, true, sqrt, Some(pr));
    ShiftAlongX(px);
  }

  /** A rivet hole 6 to 14 mm from its only edge, on either side of it, is
      already correct and stays where it is. */
  lemma NearHoleIsLeftAlone(px: real, ex: real, sqrt: real -> real)
    requires IsSqrt(sqrt) && (6.0 <= px - ex <= 14.0 || 6.0 <= ex - px <= 14.0)
    ensures Assess(RivetAt(px), [Edge(ex)], Default, sqrt) == AlreadyCorrect
    ensures Repositioned(RivetAt(px), [Edge(ex)], Default, false, sqrt) == RivetAt(px)
  {
    EdgeKernel(px, ex, sqrt);
    var pr := if ex < px then Proximity(px - ex, Vec(1.0, 0.0)) else Proximity(ex - px, Vec(-1.0, 0.0));
    SingleEdgeIsNearest(Vec(px, 50.0), Edge(ex), sqrt);
    DefaultDecision(pr);
    CandidateStep(RivetAt(px), [Edge(ex)], Default, false, sqrt, Some(pr));
  }

  /** A rivet hole between the bands, or beyond the far one, on either side
      of its only edge, is unknown and stays where it is. */
  lemma OutOfBandHoleIsUnknown(px: real, ex: real, sqrt: real -> real)
    requires IsSqrt(sqrt)
    requires 14.0 < px - ex < 22.0 || 38.0 < px - ex || 14.0 < ex - px < 22.0 || 38.0 < ex - px
    ensures Assess(RivetAt(px), [Edge(ex)], Default, sqrt) == Indeterminate
    ensures Repositioned(RivetAt(px), [Edge(ex)], Default, false, sqrt) == RivetAt(px)
  {
    EdgeKernel(px, ex, sqrt);
    var pr := if ex < px then Proximity(px - ex, Vec(1.0, 0.0)) else Proximity(ex - px, Vec(-1.0, 0.0));
    SingleEdgeIsNearest(Vec(px, 50.0), Edge(ex), sqrt);
    DefaultDecision(pr);
    CandidateStep(RivetAt(px), [Edge(ex)], Default, false, sqrt, Some(pr));
  }

  /** A hole midway between two edges at `l` and `r`, 22 to 38 mm away on
      either side: the first edge in the list wins the tie, so the hole moves
      towards that one. */
  lemma TieGoesToFirstEdge(px: real, l: real, r: real, sqrt: real -> real)
    requires IsSqrt(sqrt) && px - l == r - px && 22.0 <= px - l <= 38.0
    ensures Repositioned(RivetAt(px), [Edge(l), Edge(r)], Default, false, sqrt) == RivetAt(px - 20.0)
    ensures Repositioned(RivetAt(px), [Edge(r), Edge(l)], Default, false, sqrt) == RivetAt(px + 20.0)
  {
    TieDistances(px, l, r, sqrt);
    TieKeepsFirst(RivetAt(px), Edge(l), Edge(r), Default, false, sqrt);
    TieKeepsFirst(RivetAt(px), Edge(r), Edge(l), Default, false, sqrt);
    FarHoleIsPulledBack(px, l, sqrt);
    FarHoleIsPulledBack(px, r, sqrt);
  }

  /** The two edges of the tie are at the same distance. */
  lemma TieDistances(px: real, l: real, r: real, sqrt: real -> real)
    requires IsSqrt(sqrt) && l < px < r && px - l == r - px
    ensures DistanceAndDirection(Center2(RivetAt(px)), Edge(l), sqrt).dist
            == DistanceAndDirection(Center2(RivetAt(px)), Edge(r), sqrt).dist
  {
    assert Center2(RivetAt(px)) == Vec(px, 50.0);
    assert DistanceAndDirection(Vec(px, 50.0), Edge(l), sqrt).dist == px - l by {
      EdgeKernel(px, l, sqrt);
    }
    assert DistanceAndDirection(Vec(px, 50.0), Edge(r), sqrt).dist == r - px by {
      EdgeKernel(px, r, sqrt);
    }
  }

  /** The shipped correction applied along +x and along -x. */
  lemma ShiftAlongX(px: real)
    ensures Moved(RivetAt(px), Vec(1.0, 0.0), Default.correction) == RivetAt(px - 20.0)
    ensures Moved(RivetAt(px), Vec(-1.0, 0.0), Default.correction) == RivetAt(px + 20.0)
  {
  }

  /** A zero-length edge 22 to 38 mm away, the only edge: the hole is
      counted as corrected, but the direction is the zero sentinel and the
      centre does not change. */
  lemma ZeroLengthEdgeCountsButDoesNotMove(px: real, ex: real, sqrt: real -> real)
    requires IsSqrt(sqrt) && 22.0 <= px - ex <= 38.0
    ensures var dot := Segment(Vec(ex, 50.0), Vec(ex, 50.0));
            Assess(RivetAt(px), [dot], Default, sqrt) == Corrected
            && TallyOf([RivetAt(px)], [dot], Default, sqrt).corrected == 1
            && Repositioned(RivetAt(px), [dot], Default, false, sqrt) == RivetAt(px)
  {
    var dot := Segment(Vec(ex, 50.0), Vec(ex, 50.0));
    var pr := Proximity(px - ex, Zero);
    PointKernel(px, ex, sqrt);
    SingleEdgeIsNearest(Vec(px, 50.0), dot, sqrt);
    DefaultDecision(pr);
    CandidateStep(RivetAt(px), [dot], Default, false, sqrt, Some(pr));
    MovedByZero(RivetAt(px), Default.correction);
    TallyOfOne(RivetAt(px), [dot], Default, sqrt);
  }

  /** The kernel for `(px, 50)` and the zero-length edge at `(ex, 50)`. */
  lemma PointKernel(px: real, ex: real, sqrt: real -> real)
    requires IsSqrt(sqrt) && ex < px
    ensures var dot := Segment(Vec(ex, 50.0), Vec(ex, 50.0));
            DistanceAndDirection(Vec(px, 50.0), dot, sqrt) == Proximity(px - ex, Zero)
  {
    var dot := Segment(Vec(ex, 50.0), Vec(ex, 50.0));
    var p := Vec(px, 50.0);
    assert SqDist(p, dot.start) == Sq(px - ex) by {
      assert Sub(p, dot.start) == Vec(px - ex, 0.0);
      assert Sq(0.0) == 0.0;
    }
    KernelAtPoint(p, dot, sqrt, px - ex);
  }

  /** Diameters 3.9 and 4.5 are rivet holes; 3.8 and 4.6 are ignored. */
  lemma DiameterBandIsInclusive(lines: seq<Segment>, sqrt: real -> real)
    requires IsSqrt(sqrt)
    ensures IsRivetCandidate(Hole(Point3(0.0, 0.0, 0.0), 1.95), Default)
    ensures IsRivetCandidate(Hole(Point3(0.0, 0.0, 0.0), 2.25), Default)
    ensures Assess(Hole(Point3(0.0, 0.0, 0.0), 1.9), lines, Default, sqrt) == Ignored
    ensures Assess(Hole(Point3(0.0, 0.0, 0.0), 2.3), lines, Default, sqrt) == Ignored
  {
  }
}
