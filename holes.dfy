/** The per-file correction pass: each circle of a drawing is classified by
    its diameter, the nearest outline edge is found, and a rivet hole sitting
    in the far distance band is pulled back towards that edge by a fixed
    correction. Four counters record what happened to each circle. */
module Holes {
  import opened Geometry

  datatype Option<T> = None | Some(value: T)

  /** The tuning constants of the pass. `farDistance` is written as a literal
      in the band test of the source rather than as a named constant. */
  datatype Config = Config(
    rivetDiameter: real,
    diameterTolerance: real,
    targetDistance: real,
    nearTolerance: real,
    farDistance: real,
    farTolerance: real,
    correction: real)

  /** The constants the script ships with. */
  const Default := Config(4.2, 0.3, 10.0, 4.0, 30.0, 8.0, -20.0)

  datatype Point3 = Point3(x: real, y: real, z: real)

  /** A circle entity of the drawing: its centre and radius. */
  datatype Hole = Hole(center: Point3, radius: real)

  /** What the pass did with one circle; each outcome has its own counter. */
  datatype Disposition = AlreadyCorrect | Corrected | Indeterminate | Ignored

  /** The four counters: ok, corrected, unknown and ignored. */
  datatype Tally = Tally(ok: nat, corrected: nat, unknown: nat, ignored: nat)

  /** The inclusive interval `[nominal - tol, nominal + tol]`. */
  predicate InBand(x: real, nominal: real, tol: real) {
    nominal - tol <= x <= nominal + tol
  }

  /** A circle is taken for a rivet hole when its diameter is in band. */
  predicate IsRivetCandidate(h: Hole, cfg: Config) {
    InBand(2.0 * h.radius, cfg.rivetDiameter, cfg.diameterTolerance)
  }

  /** The centre in the plane of the outline. */
  function Center2(h: Hole): Vec {
    Vec(h.center.x, h.center.y)
  }

  /** One step of the nearest-edge scan: a candidate replaces the best so
      far only when it is strictly nearer; `None` is the infinite start. */
  function Closer(best: Option<Proximity>, cand: Proximity): Option<Proximity> {
    if best.None? || cand.dist < best.value.dist then Some(cand) else best
  }

  /** The first minimum of `ms` by distance, scanning from the front. */
  function Scan(ms: seq<Proximity>): (r: Option<Proximity>)
    ensures r.None? <==> |ms| == 0
    ensures r.Some? ==> forall k :: 0 <= k < |ms| ==> r.value.dist <= ms[k].dist
    decreases |ms|
  {
    if |ms| == 0 then None
    else
      var front := ms[..|ms| - 1];
      assert forall k :: 0 <= k < |ms| - 1 ==> ms[k] == front[k];
      Closer(Scan(front), ms[|ms| - 1])
  }

  /** The kernel applied to `p` and each line, in order; `MeasureAt` says
      which entry is which. */
  function Measures(p: Vec, lines: seq<Segment>, sqrt: real -> real): (ms: seq<Proximity>)
    requires IsSqrt(sqrt)
    ensures |ms| == |lines|
    decreases |lines|
  {
    if |lines| == 0 then []
    else Measures(p, lines[..|lines| - 1], sqrt) + [DistanceAndDirection(p, lines[|lines| - 1], sqrt)]
  }

  /** Entry `k` of the measures is the kernel's result for line `k`. */
  lemma {:induction false} MeasureAt(p: Vec, lines: seq<Segment>, sqrt: real -> real, k: nat)
    requires IsSqrt(sqrt) && k < |lines|
    ensures Measures(p, lines, sqrt)[k] == DistanceAndDirection(p, lines[k], sqrt)
    decreases |lines|
  {
    if k < |lines| - 1 {
      MeasureAt(p, lines[..|lines| - 1], sqrt, k);
    }
  }

  /** A lower bound of the measures is a lower bound of the kernel's
      distances to the lines. */
  lemma MeasuresBound(p: Vec, lines: seq<Segment>, sqrt: real -> real, b: real)
    requires IsSqrt(sqrt)
    requires var ms := Measures(p, lines, sqrt); forall k :: 0 <= k < |ms| ==> b <= ms[k].dist
    ensures forall k :: 0 <= k < |lines| ==> b <= DistanceAndDirection(p, lines[k], sqrt).dist
  {
    forall k | 0 <= k < |lines| ensures b <= DistanceAndDirection(p, lines[k], sqrt).dist {
      MeasureAt(p, lines, sqrt, k);
    }
  }

  /** The result of scanning `lines` in order for the edge nearest `p`. */
  function NearestOf(p: Vec, lines: seq<Segment>, sqrt: real -> real): (r: Option<Proximity>)
    requires IsSqrt(sqrt)
    ensures r.None? <==> |lines| == 0
    ensures r.Some? ==> forall k :: 0 <= k < |lines| ==>
              r.value.dist <= DistanceAndDirection(p, lines[k], sqrt).dist
  {
    var ms := Measures(p, lines, sqrt);
    if |ms| == 0 then None
    else
      MeasuresBound(p, lines, sqrt, Scan(ms).value.dist);
      Scan(ms)
  }

  /** The nearest-edge scan: a running minimum over the lines in order. */
  method NearestEdge(p: Vec, lines: seq<Segment>, sqrt: real -> real) returns (best: Option<Proximity>)
    requires IsSqrt(sqrt)
    ensures best == NearestOf(p, lines, sqrt)
  {
    ghost var ms := Measures(p, lines, sqrt);
    best := None;
    for i := 0 to |lines|
      invariant best == Scan(ms[..i])
    {
      var cand := DistanceAndDirection(p, lines[i], sqrt);
      MeasureAt(p, lines, sqrt, i);
      if best.None? || cand.dist < best.value.dist {
        best := Some(cand);
      }
      assert ms[..i + 1][..i] == ms[..i];
    }
    assert ms[..|lines|] == ms;
  }

  /** The band test applied to the nearest edge of a rivet candidate; the
      near band is tested first. */
  function Decide(nearest: Option<Proximity>, cfg: Config): Disposition {
    if nearest.Some? && InBand(nearest.value.dist, cfg.targetDistance, cfg.nearTolerance) then
      AlreadyCorrect
    else if nearest.Some? && InBand(nearest.value.dist, cfg.farDistance, cfg.farTolerance) then
      Corrected
    else
      Indeterminate
  }

  /** What the pass does with one circle. */
  function Assess(h: Hole, lines: seq<Segment>, cfg: Config, sqrt: real -> real): Disposition
    requires IsSqrt(sqrt)
  {
    if !IsRivetCandidate(h, cfg) then Ignored
    else Decide(NearestOf(Center2(h), lines, sqrt), cfg)
  }

  /** The centre shifted by `correction` along `dir`; z and radius kept. */
  function Moved(h: Hole, dir: Vec, correction: real): Hole {
    Hole(Point3(h.center.x + dir.x * correction, h.center.y + dir.y * correction, h.center.z), h.radius)
  }

  /** The circle as it is after the pass. */
  function Repositioned(h: Hole, lines: seq<Segment>, cfg: Config, dryRun: bool, sqrt: real -> real): Hole
    requires IsSqrt(sqrt)
  {
    if !dryRun && Assess(h, lines, cfg, sqrt) == Corrected then
      Moved(h, NearestOf(Center2(h), lines, sqrt).value.dir, cfg.correction)
    else h
  }

  /** The counters after counting one more circle. */
  function Count(t: Tally, d: Disposition): Tally {
    match d
    case AlreadyCorrect => t.(ok := t.ok + 1)
    case Corrected => t.(corrected := t.corrected + 1)
    case Indeterminate => t.(unknown := t.unknown + 1)
    case Ignored => t.(ignored := t.ignored + 1)
  }

  function Total(t: Tally): nat {
    t.ok + t.corrected + t.unknown + t.ignored
  }

  /** The outcome of each circle of `hs`, in order; `DispositionAt` says
      which entry is which. */
  function Dispositions(hs: seq<Hole>, lines: seq<Segment>, cfg: Config, sqrt: real -> real): (ds: seq<Disposition>)
    requires IsSqrt(sqrt)
    ensures |ds| == |hs|
    decreases |hs|
  {
    if |hs| == 0 then []
    else Dispositions(hs[..|hs| - 1], lines, cfg, sqrt) + [Assess(hs[|hs| - 1], lines, cfg, sqrt)]
  }

  /** Entry `k` of the outcomes is the outcome of circle `k`. */
  lemma {:induction false} DispositionAt(hs: seq<Hole>, lines: seq<Segment>, cfg: Config, sqrt: real -> real, k: nat)
    requires IsSqrt(sqrt) && k < |hs|
    ensures Dispositions(hs, lines, cfg, sqrt)[k] == Assess(hs[k], lines, cfg, sqrt)
    decreases |hs|
  {
    if k < |hs| - 1 {
      DispositionAt(hs[..|hs| - 1], lines, cfg, sqrt, k);
    }
  }

  /** Every circle of `hs` as it is after the pass; `RepositionedAt` says
      which entry is which. */
  function RepositionedAll(hs: seq<Hole>, lines: seq<Segment>, cfg: Config, dryRun: bool, sqrt: real -> real): (r: seq<Hole>)
    requires IsSqrt(sqrt)
    ensures |r| == |hs|
    decreases |hs|
  {
    if |hs| == 0 then []
    else RepositionedAll(hs[..|hs| - 1], lines, cfg, dryRun, sqrt) + [Repositioned(hs[|hs| - 1], lines, cfg, dryRun, sqrt)]
  }

  /** Entry `k` of the result is circle `k` after the pass. */
  lemma {:induction false} RepositionedAt(hs: seq<Hole>, lines: seq<Segment>, cfg: Config, dryRun: bool, sqrt: real -> real, k: nat)
    requires IsSqrt(sqrt) && k < |hs|
    ensures RepositionedAll(hs, lines, cfg, dryRun, sqrt)[k] == Repositioned(hs[k], lines, cfg, dryRun, sqrt)
    decreases |hs|
  {
    if k < |hs| - 1 {
      RepositionedAt(hs[..|hs| - 1], lines, cfg, dryRun, sqrt, k);
    }
  }

  /** The counters after counting the outcomes `ds` in order from zero. */
  function Counted(ds: seq<Disposition>): Tally
    decreases |ds|
  {
    if |ds| == 0 then Tally(0, 0, 0, 0)
    else Count(Counted(ds[..|ds| - 1]), ds[|ds| - 1])
  }

  /** The counters after the pass has looked at every circle of `hs`. */
  function TallyOf(hs: seq<Hole>, lines: seq<Segment>, cfg: Config, sqrt: real -> real): Tally
    requires IsSqrt(sqrt)
  {
    Counted(Dispositions(hs, lines, cfg, sqrt))
  }

  /** Counting one more outcome extends the counters by it. */
  lemma CountedStep(ds: seq<Disposition>, i: nat)
    requires i < |ds|
    ensures Counted(ds[..i + 1]) == Count(Counted(ds[..i]), ds[i])
  {
    assert ds[..i + 1][..i] == ds[..i];
  }

  /** What the pass does with one rivet candidate, read off the result of
      the nearest-edge scan. */
  lemma CandidateStep(h: Hole, lines: seq<Segment>, cfg: Config, dryRun: bool, sqrt: real -> real, nearest: Option<Proximity>)
    requires IsSqrt(sqrt) && IsRivetCandidate(h, cfg) && nearest == NearestOf(Center2(h), lines, sqrt)
    ensures Assess(h, lines, cfg, sqrt) == Decide(nearest, cfg)
    ensures Repositioned(h, lines, cfg, dryRun, sqrt)
            == if !dryRun && Decide(nearest, cfg) == Corrected then Moved(h, nearest.value.dir, cfg.correction) else h
  {
  }

  /** The pass over the circles of one drawing, updating them in place.
      Returns the number of corrected holes and the four counters. */
  method FixHoles(holes: array<Hole>, lines: seq<Segment>, cfg: Config, dryRun: bool, sqrt: real -> real)
    returns (corrected: nat, tally: Tally)
    requires IsSqrt(sqrt)
    modifies holes
    ensures tally == TallyOf(old(holes[..]), lines, cfg, sqrt)
    ensures corrected == tally.corrected
    ensures forall k :: 0 <= k < holes.Length ==>
              holes[k] == Repositioned(old(holes[k]), lines, cfg, dryRun, sqrt)
  {
    if holes.Length == 0 {
      return 0, Tally(0, 0, 0, 0);
    }
    ghost var hs := holes[..];
    ghost var ds := Dispositions(hs, lines, cfg, sqrt);
    ghost var after := RepositionedAll(hs, lines, cfg, dryRun, sqrt);
    var ok, unknown, ignored := 0, 0, 0;
    corrected := 0;
    for i := 0 to holes.Length
      invariant Tally(ok, corrected, unknown, ignored) == Counted(ds[..i])
      invariant forall k :: 0 <= k < i ==> holes[k] == after[k]
      invariant forall k :: i <= k < holes.Length ==> holes[k] == hs[k]
    {
      CountedStep(ds, i);
      DispositionAt(hs, lines, cfg, sqrt, i);
      RepositionedAt(hs, lines, cfg, dryRun, sqrt, i);
      var h := holes[i];
      assert h == hs[i];
      if !IsRivetCandidate(h, cfg) {
        ignored := ignored + 1;
        assert holes[i] == after[i];
        continue;
      }
      var nearest := NearestEdge(Center2(h), lines, sqrt);
      CandidateStep(h, lines, cfg, dryRun, sqrt, nearest);
      if nearest.Some? && InBand(nearest.value.dist, cfg.targetDistance, cfg.nearTolerance) {
        ok := ok + 1;
      } else if nearest.Some? && InBand(nearest.value.dist, cfg.farDistance, cfg.farTolerance) {
        if !dryRun {
          holes[i] := Moved(h, nearest.value.dir, cfg.correction);
        }
        corrected := corrected + 1;
      } else {
        unknown := unknown + 1;
      }
      assert holes[i] == after[i];
    }
    assert ds[..holes.Length] == ds;
    forall k | 0 <= k < holes.Length
      ensures holes[k] == Repositioned(hs[k], lines, cfg, dryRun, sqrt)
    {
      RepositionedAt(hs, lines, cfg, dryRun, sqrt, k);
    }
    tally := Tally(ok, corrected, unknown, ignored);
  }
}
