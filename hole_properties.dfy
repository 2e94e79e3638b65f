/** What the per-file pass promises: which edge the scan picks, how the band
    test decides, which circles move and by how much, and what the counters
    add up to. */
module HoleProperties {
  import opened Geometry
  import opened Holes

  /** The scan keeps the first entry that reaches the minimum distance: the
      result is entry `j`, no entry is nearer, and every entry before `j` is
      strictly farther. */
  lemma {:induction false} ScanIsFirstMinimum(ms: seq<Proximity>)
    requires |ms| > 0
    ensures exists j :: 0 <= j < |ms| && Scan(ms) == Some(ms[j])
              && (forall k :: 0 <= k < |ms| ==> ms[j].dist <= ms[k].dist)
              && (forall k :: 0 <= k < j ==> ms[j].dist < ms[k].dist)
    decreases |ms|
  {
    var n := |ms| - 1;
    var front := ms[..n];
    assert forall k :: 0 <= k < n ==> front[k] == ms[k];
    if n == 0 {
      assert Scan(ms) == Some(ms[0]);
    } else {
      ScanIsFirstMinimum(front);
      var j :| 0 <= j < n && Scan(front) == Some(front[j])
        && (forall k :: 0 <= k < j ==> front[j].dist < front[k].dist);
      if ms[n].dist < ms[j].dist {
        assert Scan(ms) == Some(ms[n]);
        assert forall k :: 0 <= k < n ==> ms[n].dist < ms[k].dist;
      } else {
        assert Scan(ms) == Some(ms[j]);
      }
    }
  }

  /** The same for the nearest-edge scan over the lines: the recorded
      distance and direction are those of the first line at minimum
      distance. */
  lemma NearestIsFirstMinimum(p: Vec, lines: seq<Segment>, sqrt: real -> real)
    requires IsSqrt(sqrt) && |lines| > 0
    ensures exists j :: 0 <= j < |lines|
              && NearestOf(p, lines, sqrt) == Some(DistanceAndDirection(p, lines[j], sqrt))
              && (forall k :: 0 <= k < |lines| ==>
                    DistanceAndDirection(p, lines[j], sqrt).dist <= DistanceAndDirection(p, lines[k], sqrt).dist)
              && (forall k :: 0 <= k < j ==>
                    DistanceAndDirection(p, lines[j], sqrt).dist < DistanceAndDirection(p, lines[k], sqrt).dist)
  {
    var ms := Measures(p, lines, sqrt);
    ScanIsFirstMinimum(ms);
    var j :| 0 <= j < |ms| && Scan(ms) == Some(ms[j])
      && (forall k :: 0 <= k < |ms| ==> ms[j].dist <= ms[k].dist)
      && (forall k :: 0 <= k < j ==> ms[j].dist < ms[k].dist);
    FirstMinimumOfMeasures(p, lines, sqrt, j);
  }

  /** The scan's first minimum among the measures, read as a statement about
      the kernel's results for the lines. */
  lemma FirstMinimumOfMeasures(p: Vec, lines: seq<Segment>, sqrt: real -> real, j: nat)
    requires IsSqrt(sqrt) && j < |lines|
    requires var ms := Measures(p, lines, sqrt);
             Scan(ms) == Some(ms[j])
             && (forall k :: 0 <= k < |ms| ==> ms[j].dist <= ms[k].dist)
             && (forall k :: 0 <= k < j ==> ms[j].dist < ms[k].dist)
    ensures NearestOf(p, lines, sqrt) == Some(DistanceAndDirection(p, lines[j], sqrt))
    ensures forall k :: 0 <= k < |lines| ==>
              DistanceAndDirection(p, lines[j], sqrt).dist <= DistanceAndDirection(p, lines[k], sqrt).dist
    ensures forall k :: 0 <= k < j ==>
              DistanceAndDirection(p, lines[j], sqrt).dist < DistanceAndDirection(p, lines[k], sqrt).dist
  {
    var ms := Measures(p, lines, sqrt);
    MeasureAt(p, lines, sqrt, j);
    forall k | 0 <= k < |lines|
      ensures DistanceAndDirection(p, lines[j], sqrt).dist <= DistanceAndDirection(p, lines[k], sqrt).dist
    {
      MeasureAt(p, lines, sqrt, k);
    }
    forall k | 0 <= k < j
      ensures DistanceAndDirection(p, lines[j], sqrt).dist < DistanceAndDirection(p, lines[k], sqrt).dist
    {
      MeasureAt(p, lines, sqrt, k);
    }
  }

  /** Each counter holds the number of outcomes of its kind. */
  lemma {:induction false} CountedIsCensus(ds: seq<Disposition>)
    ensures var m := multiset(ds);
            Counted(ds) == Tally(m[AlreadyCorrect], m[Corrected], m[Indeterminate], m[Ignored])
    decreases |ds|
  {
    if |ds| > 0 {
      var front := ds[..|ds| - 1];
      CountedIsCensus(front);
      assert ds == front + [ds[|ds| - 1]];
    }
  }

  /** Each counter of the pass holds the number of circles that had its
      outcome. */
  lemma TallyIsCensus(hs: seq<Hole>, lines: seq<Segment>, cfg: Config, sqrt: real -> real)
    requires IsSqrt(sqrt)
    ensures var t, m := TallyOf(hs, lines, cfg, sqrt), multiset(Dispositions(hs, lines, cfg, sqrt));
            t == Tally(m[AlreadyCorrect], m[Corrected], m[Indeterminate], m[Ignored])
  {
    CountedIsCensus(Dispositions(hs, lines, cfg, sqrt));
  }

  /** Every outcome moves exactly one counter on by one. */
  lemma {:induction false} CountedTotal(ds: seq<Disposition>)
    ensures Total(Counted(ds)) == |ds|
    decreases |ds|
  {
    if |ds| > 0 {
      CountedTotal(ds[..|ds| - 1]);
    }
  }

  /** Every circle is counted exactly once, so the counters add up to the
      number of circles and no more holes are corrected than there are. */
  lemma EveryCircleCountedOnce(hs: seq<Hole>, lines: seq<Segment>, cfg: Config, sqrt: real -> real)
    requires IsSqrt(sqrt)
    ensures Total(TallyOf(hs, lines, cfg, sqrt)) == |hs|
    ensures TallyOf(hs, lines, cfg, sqrt).corrected <= |hs|
  {
    CountedTotal(Dispositions(hs, lines, cfg, sqrt));
  }

  /** A circle outside the diameter band is only counted as ignored: it is
      never moved, dry run or not; a circle inside the band is never ignored. */
  lemma NonRivetsAreOnlyCounted(h: Hole, lines: seq<Segment>, cfg: Config, dryRun: bool, sqrt: real -> real)
    requires IsSqrt(sqrt)
    ensures Assess(h, lines, cfg, sqrt) == Ignored
            <==> !(cfg.rivetDiameter - cfg.diameterTolerance <= 2.0 * h.radius <= cfg.rivetDiameter + cfg.diameterTolerance)
    ensures Assess(h, lines, cfg, sqrt) == Ignored ==> Repositioned(h, lines, cfg, dryRun, sqrt) == h
  {
  }

  /** Without any edge a rivet hole is unknown and stays where it is. */
  lemma NoEdgeIsUnknown(h: Hole, cfg: Config, dryRun: bool, sqrt: real -> real)
    requires IsSqrt(sqrt) && IsRivetCandidate(h, cfg)
    ensures Assess(h, [], cfg, sqrt) == Indeterminate
    ensures Repositioned(h, [], cfg, dryRun, sqrt) == h
  {
  }

  /** The band test read against the distance to the nearest edge: `m` is
      the distance from the centre to an edge that no edge is nearer than.
      The near band wins over the far band; anything else is unknown. */
  lemma DispositionByNearestDistance(h: Hole, lines: seq<Segment>, cfg: Config, sqrt: real -> real, j: nat)
    requires IsSqrt(sqrt) && IsRivetCandidate(h, cfg)
    requires j < |lines|
    requires forall k :: 0 <= k < |lines| ==>
               DistanceAndDirection(Center2(h), lines[j], sqrt).dist <= DistanceAndDirection(Center2(h), lines[k], sqrt).dist
    ensures var m, d := DistanceAndDirection(Center2(h), lines[j], sqrt).dist, Assess(h, lines, cfg, sqrt);
            (d == AlreadyCorrect <==> InBand(m, cfg.targetDistance, cfg.nearTolerance))
            && (d == Corrected <==> !InBand(m, cfg.targetDistance, cfg.nearTolerance) && InBand(m, cfg.farDistance, cfg.farTolerance))
            && (d == Indeterminate <==> !InBand(m, cfg.targetDistance, cfg.nearTolerance) && !InBand(m, cfg.farDistance, cfg.farTolerance))
  {
    var p := Center2(h);
    NearestIsFirstMinimum(p, lines, sqrt);
    assert NearestOf(p, lines, sqrt).value.dist == DistanceAndDirection(p, lines[j], sqrt).dist;
  }

  /** Only a far-band rivet hole moves, and only outside a dry run; its
      counter does not depend on the dry run. */
  lemma OnlyCorrectedHolesMove(h: Hole, lines: seq<Segment>, cfg: Config, dryRun: bool, sqrt: real -> real)
    requires IsSqrt(sqrt)
    ensures Repositioned(h, lines, cfg, dryRun, sqrt) != h ==> !dryRun && Assess(h, lines, cfg, sqrt) == Corrected
    ensures dryRun ==> Repositioned(h, lines, cfg, dryRun, sqrt) == h
    ensures Repositioned(h, lines, cfg, dryRun, sqrt).radius == h.radius
    ensures Repositioned(h, lines, cfg, dryRun, sqrt).center.z == h.center.z
  {
  }

  /** A corrected hole moves along the ray from the closest point of its
      nearest edge through its centre: it lands on that ray, `correction`
      further along it (nearer to the edge, for a negative correction).
      The ray is perpendicular to the edge where the projection falls
      within it (`CorrectionIsPerpendicular`); where the projection is
      clamped, the ray starts at the endpoint (`ClampedAtEndpoint`). When
      that edge has zero length the direction is the zero sentinel and the
      hole stays put although it is counted as corrected. */
  lemma CorrectionFollowsClosestRay(h: Hole, lines: seq<Segment>, cfg: Config, sqrt: real -> real, j: nat)
    requires IsSqrt(sqrt) && Assess(h, lines, cfg, sqrt) == Corrected
    requires j < |lines| && NearestOf(Center2(h), lines, sqrt) == Some(DistanceAndDirection(Center2(h), lines[j], sqrt))
    ensures var r, q := DistanceAndDirection(Center2(h), lines[j], sqrt), ClosestPoint(Center2(h), lines[j]);
            var moved := Repositioned(h, lines, cfg, false, sqrt);
            (!Degenerate(lines[j]) ==> Center2(moved) == Add(q, Scale(r.dir, r.dist + cfg.correction)))
            && (Degenerate(lines[j]) ==> moved == h)
  {
    var p := Center2(h);
    var r := DistanceAndDirection(p, lines[j], sqrt);
    var moved := Repositioned(h, lines, cfg, false, sqrt);
    assert Center2(moved) == Add(p, Scale(r.dir, cfg.correction));
    if Degenerate(lines[j]) {
      assert r.dir == Zero;
      MovedByZero(h, cfg.correction);
    } else {
      ShiftAlong(ClosestPoint(p, lines[j]), r.dir, r.dist, cfg.correction);
    }
  }

  /** Where the projection of the centre falls within its nearest edge, a
      corrected hole moves perpendicular to that edge. */
  lemma CorrectionIsPerpendicular(h: Hole, lines: seq<Segment>, cfg: Config, sqrt: real -> real, j: nat)
    requires IsSqrt(sqrt) && Assess(h, lines, cfg, sqrt) == Corrected
    requires j < |lines| && NearestOf(Center2(h), lines, sqrt) == Some(DistanceAndDirection(Center2(h), lines[j], sqrt))
    requires !Degenerate(lines[j])
    requires var d := Sub(lines[j].end, lines[j].start);
             0.0 <= Dot(Sub(Center2(h), lines[j].start), d) / SqNorm(d) <= 1.0
    ensures var moved := Repositioned(h, lines, cfg, false, sqrt);
            Dot(Sub(Center2(moved), Center2(h)), Sub(lines[j].end, lines[j].start)) == 0.0
  {
    var p, d := Center2(h), Sub(lines[j].end, lines[j].start);
    var r := DistanceAndDirection(p, lines[j], sqrt);
    var moved := Repositioned(h, lines, cfg, false, sqrt);
    assert Center2(moved) == Add(p, Scale(r.dir, cfg.correction));
    assert Sub(Center2(moved), p) == Scale(r.dir, cfg.correction);
    DirectionIsPerpendicular(p, lines[j], sqrt);
    ScaledStaysOrthogonal(r.dir, cfg.correction, d);
  }

  lemma ScaledStaysOrthogonal(v: Vec, c: real, d: Vec)
    requires Dot(v, d) == 0.0
    ensures Dot(Scale(v, c), d) == 0.0
  {
    assert Dot(Scale(v, c), d) == c * Dot(v, d);
  }

  lemma MovedByZero(h: Hole, c: real)
    ensures Moved(h, Zero, c) == h
  {
  }

  lemma ShiftAlong(q: Vec, u: Vec, a: real, b: real)
    ensures Add(Add(q, Scale(u, a)), Scale(u, b)) == Add(q, Scale(u, a + b))
  {
    Distribute(a, b, u.x);
    Distribute(a, b, u.y);
  }

  /** The shipped constants: the near band is [6, 14], the far band is
      [22, 38], the two do not overlap, and the diameter band is [3.9, 4.5]. */
  lemma DefaultBands(x: real, h: Hole)
    ensures InBand(x, Default.targetDistance, Default.nearTolerance) <==> 6.0 <= x <= 14.0
    ensures InBand(x, Default.farDistance, Default.farTolerance) <==> 22.0 <= x <= 38.0
    ensures !(InBand(x, Default.targetDistance, Default.nearTolerance) && InBand(x, Default.farDistance, Default.farTolerance))
    ensures IsRivetCandidate(h, Default) <==> 3.9 <= 2.0 * h.radius <= 4.5
  {
  }

  /** With a single edge the scan returns that edge's measurement. */
  lemma SingleEdgeIsNearest(p: Vec, seg: Segment, sqrt: real -> real)
    requires IsSqrt(sqrt)
    ensures NearestOf(p, [seg], sqrt) == Some(DistanceAndDirection(p, seg, sqrt))
  {
    var ms := Measures(p, [seg], sqrt);
    assert [seg][..0] == [];
    assert ms == [DistanceAndDirection(p, seg, sqrt)];
    assert ms[..0] == [];
  }

  /** The band test with the shipped constants. */
  lemma DefaultDecision(pr: Proximity)
    ensures 6.0 <= pr.dist <= 14.0 ==> Decide(Some(pr), Default) == AlreadyCorrect
    ensures 22.0 <= pr.dist <= 38.0 ==> Decide(Some(pr), Default) == Corrected
    ensures !(6.0 <= pr.dist <= 14.0 || 22.0 <= pr.dist <= 38.0) ==> Decide(Some(pr), Default) == Indeterminate
  {
  }

  /** Appending an edge no nearer than the first changes nothing: with two
      edges at the same distance the pass acts as if only the first were
      there. */
  lemma TieKeepsFirst(h: Hole, first: Segment, second: Segment, cfg: Config, dryRun: bool, sqrt: real -> real)
    requires IsSqrt(sqrt)
    requires DistanceAndDirection(Center2(h), first, sqrt).dist <= DistanceAndDirection(Center2(h), second, sqrt).dist
    ensures NearestOf(Center2(h), [first, second], sqrt) == NearestOf(Center2(h), [first], sqrt)
    ensures Assess(h, [first, second], cfg, sqrt) == Assess(h, [first], cfg, sqrt)
    ensures Repositioned(h, [first, second], cfg, dryRun, sqrt) == Repositioned(h, [first], cfg, dryRun, sqrt)
  {
    var p := Center2(h);
    var ms := Measures(p, [first, second], sqrt);
    assert [first, second][..1] == [first];
    assert ms[..1] == Measures(p, [first], sqrt);
    SingleEdgeIsNearest(p, first, sqrt);
  }

  /** A drawing with a single circle counts that circle's outcome once. */
  lemma TallyOfOne(h: Hole, lines: seq<Segment>, cfg: Config, sqrt: real -> real)
    requires IsSqrt(sqrt)
    ensures TallyOf([h], lines, cfg, sqrt) == Count(Tally(0, 0, 0, 0), Assess(h, lines, cfg, sqrt))
  {
    var ds := Dispositions([h], lines, cfg, sqrt);
    DispositionAt([h], lines, cfg, sqrt, 0);
    CountedStep(ds, 0);
    assert ds[..1] == ds;
  }
}
