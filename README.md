# Rivet hole correction, modelled in Dafny

This project models the core of `scripts/fix_rivet_holes.py`. The script repairs DXF sheet-metal drawings exported for ducting.

In such a drawing, a circle of about 4.2 mm diameter is a rivet hole. It should sit about 10 mm from the outline. A hole found about 30 mm from the outline was placed on the flange; it is pulled 20 mm back towards the nearest outline edge. The move runs along the line from the nearest point of that edge to the hole's centre. This is perpendicular to the edge when the centre projects onto the edge itself. When the projection falls beyond an end of the edge, the move instead follows the line from that endpoint to the centre. The script's comments call the move perpendicular (lines 7, 27 and 53). Because of the clamp at line 44, that holds only in the first case, and the model follows the code.

The model covers four parts of the script:

- **Geometry** (`geometry.dfy`): `point_to_segment_distance_and_direction`, the kernel. It returns the distance from a point to a segment and the unit vector from the segment's closest point towards the point. The vector is `(0, 0)` when the segment has zero length or the point lies on it.
- **Holes** (`holes.dfy`): the per-file pass of `fix_holes_in_dxf`. For each circle it:
  - applies the diameter filter;
  - scans the lines for the nearest edge, keeping the first strict minimum;
  - decides between the near band, the far band and "unknown";
  - moves the circle (unless this is a dry run);
  - updates the four counters.

  `FixHoles` works in place on an `array<Hole>` and mirrors the loop of the script.
- **HoleProperties** (`hole_properties.dfy`): what the pass promises. This covers:
  - which edge the scan picks, and the tie rule;
  - how the band test reads against the true nearest distance;
  - which circles move, and along which line;
  - that the counters are a census of the outcomes.
- **Scenarios** (`scenarios.dfy`): worked cases on the shipped constants. Each hole-position case is stated for every position in a range, not for a single number. The exception is `DiameterBandIsInclusive`, which checks four fixed diameters.
- **Batch** (`batch.dfy`): one drawing from entities to "save or not", and the summing loop of `process_directory`.

Modelling decisions:

- Coordinates are exact reals.
- `math.sqrt` is the parameter `sqrt` of every member that needs it. The model only knows that it satisfies `IsSqrt`: it gives a non-negative root of every non-negative real. Nothing is claimed about rounding.
- The scan's starting value `float('inf')` is `None`. With no lines the scan stays `None`, and a rivet hole is then "unknown". This matches the script, where `inf` is in neither band.
- The literal `30.0` of the far band test is the field `farDistance` of `Config`. `Default` holds the shipped constants.
- A degenerate segment is one whose squared length is exactly zero, as in the script's `length_sq == 0` test.

The model notes one consequence of the code as written, in `Scenarios.ZeroLengthEdgeCountsButDoesNotMove` and `HoleProperties.CorrectionFollowsClosestRay`. Suppose a zero-length LINE is the nearest edge of a far-band hole. The hole is then counted as corrected, and the drawing is saved, but the hole does not move, because the kernel's direction for such a line is `(0, 0)`.

## Model

| member | source | states |
|---|---|---|
| Geometry.Clamp01 | scripts/fix_rivet_holes.py:44 | the clamp `max(0, min(1, u))` lies in [0, 1], is `u` inside it, 0 below it and 1 above it |
| Geometry.Param | scripts/fix_rivet_holes.py:33-44 | the projection parameter is always in [0, 1], so the measured point is on the segment and never on its extension |
| Geometry.DistanceAndDirection | scripts/fix_rivet_holes.py:25-60 | the distance is non-negative and its square is the squared distance to the clamped closest point; a zero-length segment gives the distance to its start and direction (0, 0); distance 0 gives direction (0, 0); otherwise closest point + distance × direction is the query point, and the direction has unit length when the distance is positive |
| Geometry.NormalizedIsUnit | scripts/fix_rivet_holes.py:53-56 | dividing the offset from the closest point by its length gives a unit vector, and that vector times the length gives the offset back |
| Geometry.DegenerateIffSameEndpoints | scripts/fix_rivet_holes.py:36-39 | the squared length is zero exactly when start and end coincide |
| Geometry.DegenerateClosestIsStart | scripts/fix_rivet_holes.py:39-40 | for a zero-length segment the measured point is its start point |
| Geometry.ClampedVertexIsMinimum | scripts/fix_rivet_holes.py:44 | the squared distance along the segment, a quadratic in the parameter, is smallest over [0, 1] at the clamped projection parameter |
| Geometry.ClosestPointIsNearest | scripts/fix_rivet_holes.py:43-48 | no point of the segment, endpoints included, is nearer to the query point than the clamped projection |
| Geometry.KernelDistanceIsSegmentDistance | scripts/fix_rivet_holes.py:43-51 | the kernel's distance is reached at a point of the segment, and no point of the segment is nearer |
| Geometry.PointOnSegmentIsAtZero | scripts/fix_rivet_holes.py:51-58 | a point lying on the segment gets distance 0 and direction (0, 0) |
| Geometry.DegenerateSegmentResult | scripts/fix_rivet_holes.py:39-41 | a segment with start = end gives the root of the squared distance to that point, with direction (0, 0), whatever the query point |
| Geometry.DirectionIsUnitOrZero | scripts/fix_rivet_holes.py:53-58 | the direction returned is (0, 0) or a unit vector |
| Geometry.DirectionIsPerpendicular | scripts/fix_rivet_holes.py:25-56 | when the projection parameter already lies in [0, 1], so the clamp changes nothing, the direction is perpendicular to the segment (its dot product with end - start is 0) |
| Geometry.ClampedAtEndpoint | scripts/fix_rivet_holes.py:43-48 | when the projection parameter is below 0 or above 1, the measured point is the start or the end of the segment |
| Geometry.RootUnique | scripts/fix_rivet_holes.py:51 | the square root the kernel takes is the unique non-negative root |
| Geometry.KernelAtFoot | scripts/fix_rivet_holes.py:43-60 | given the closest point `q` and a positive root `d` of the squared distance to it, the kernel returns `(d, (p - q) / d)` |
| Geometry.KernelAtPoint | scripts/fix_rivet_holes.py:37-41 | for a zero-length segment and a non-negative root `d` of the squared distance to its point, the kernel returns `(d, (0, 0))` |
| Holes.Scan | scripts/fix_rivet_holes.py:105-119 | the running minimum is `None` (the infinite start) exactly when there is nothing to scan, and otherwise is no farther than any entry |
| Holes.Measures | scripts/fix_rivet_holes.py:108-114 | one kernel result per line |
| Holes.MeasureAt | scripts/fix_rivet_holes.py:108-114 | entry `k` of the measures is the kernel applied to the centre and line `k` |
| Holes.NearestOf | scripts/fix_rivet_holes.py:105-119 | the scan finds nothing exactly when there are no lines; otherwise its distance is no larger than the kernel's distance to every line |
| Holes.NearestEdge | scripts/fix_rivet_holes.py:105-119 | the loop over the lines with its strict `<` update returns exactly the scan result `NearestOf` |
| Holes.DispositionAt | scripts/fix_rivet_holes.py:90-148 | entry `k` of the outcome list is the outcome of circle `k` |
| Holes.RepositionedAt | scripts/fix_rivet_holes.py:136-140 | entry `k` of the repositioned list is circle `k` after the pass |
| Holes.CandidateStep | scripts/fix_rivet_holes.py:104-148 | a rivet candidate's outcome is the band test applied to the scan result alone; it moves by `correction` along the scan's direction exactly when it is in the far band and this is not a dry run |
| Holes.FixHoles | scripts/fix_rivet_holes.py:78-166 | the four counters equal the tally of the original circles and the returned count is the corrected counter; every array slot ends up as its original circle after the pass, so no other circle and no other field changes |
| HoleProperties.ScanIsFirstMinimum | scripts/fix_rivet_holes.py:116-119 | the scan returns the entry `j` that is a minimum, every earlier entry being strictly farther |
| HoleProperties.NearestIsFirstMinimum | scripts/fix_rivet_holes.py:105-119 | the recorded distance and direction are those of the first line at minimum distance: no line is nearer, and every earlier line is strictly farther |
| HoleProperties.CountedIsCensus | scripts/fix_rivet_holes.py:82-148 | each counter holds the number of outcomes of its kind |
| HoleProperties.TallyIsCensus | scripts/fix_rivet_holes.py:82-148 | the ok, corrected, unknown and ignored counters are the numbers of circles with each outcome |
| HoleProperties.CountedTotal | scripts/fix_rivet_holes.py:82-148 | every outcome moves exactly one counter on by one |
| HoleProperties.EveryCircleCountedOnce | scripts/fix_rivet_holes.py:82-148 | the four counters add up to the number of circles, so the corrected count never exceeds it |
| HoleProperties.NonRivetsAreOnlyCounted | scripts/fix_rivet_holes.py:95-102 | a circle is ignored exactly when its diameter lies outside the inclusive band rivetDiameter ± diameterTolerance (4.2 ± 0.3 as shipped), and an ignored circle never moves |
| HoleProperties.NoEdgeIsUnknown | scripts/fix_rivet_holes.py:105-148 | with no lines a rivet hole is unknown and does not move |
| HoleProperties.DispositionByNearestDistance | scripts/fix_rivet_holes.py:125-148 | against the true nearest distance `m`: ok exactly when `m` is in the near band; corrected exactly when it is in the far band and not the near band; unknown exactly when it is in neither |
| HoleProperties.OnlyCorrectedHolesMove | scripts/fix_rivet_holes.py:131-142 | a circle that moves was corrected in a real run; a dry run moves nothing; radius and z never change |
| HoleProperties.CorrectionFollowsClosestRay | scripts/fix_rivet_holes.py:136-140 | a corrected hole lands on the ray from the closest point of its nearest edge through its centre, at distance + correction along it; with a zero-length nearest edge it stays where it is |
| HoleProperties.CorrectionIsPerpendicular | scripts/fix_rivet_holes.py:131-140 | when the centre projects onto its nearest edge itself (no clamping), the move of a corrected hole is perpendicular to that edge, as the header comment promises |
| HoleProperties.MovedByZero | scripts/fix_rivet_holes.py:138-140 | shifting along the (0, 0) direction leaves the circle unchanged |
| HoleProperties.DefaultBands | scripts/fix_rivet_holes.py:18-23 | with the shipped constants the near band is [6, 14], the far band is [22, 38], the two do not overlap, and the diameter band is [3.9, 4.5] |
| HoleProperties.SingleEdgeIsNearest | scripts/fix_rivet_holes.py:105-119 | with one line the scan returns that line's kernel result |
| HoleProperties.DefaultDecision | scripts/fix_rivet_holes.py:125-148 | with the shipped constants: 6-14 mm is ok, 22-38 mm is corrected, anything else is unknown |
| HoleProperties.TieKeepsFirst | scripts/fix_rivet_holes.py:116-119 | appending a line that is no nearer than the first changes neither the scan, the outcome nor the new position |
| HoleProperties.TallyOfOne | scripts/fix_rivet_holes.py:82-148 | a single circle bumps exactly the counter of its own outcome |
| Scenarios.EdgeKernel | scripts/fix_rivet_holes.py:43-60 | the point `(px, 50)` next to a vertical edge at `x = ex` is at distance `abs(px - ex)`, with direction `(1, 0)` or `(-1, 0)` pointing away from the edge |
| Scenarios.FarHoleIsPulledBack | scripts/fix_rivet_holes.py:131-142 | a 4.2 mm hole 22-38 mm from its only edge, on either side, is corrected; a real run moves it 20 mm towards the edge; a dry run leaves it |
| Scenarios.NearHoleIsLeftAlone | scripts/fix_rivet_holes.py:125-129 | a hole 6-14 mm from its only edge, on either side of it, is ok and not moved |
| Scenarios.OutOfBandHoleIsUnknown | scripts/fix_rivet_holes.py:144-148 | a hole between the bands or beyond 38 mm from its only edge, on either side of it, is unknown and not moved |
| Scenarios.TieGoesToFirstEdge | scripts/fix_rivet_holes.py:116-119 | a hole midway between two far-band edges moves towards whichever edge comes first in the line list |
| Scenarios.ShiftAlongX | scripts/fix_rivet_holes.py:138-139 | the shipped correction of -20 along `(1, 0)` or `(-1, 0)` shifts the centre by -20 or 20 in x |
| Scenarios.ZeroLengthEdgeCountsButDoesNotMove | scripts/fix_rivet_holes.py:131-142 | a far-band hole whose only edge has zero length is counted as corrected (tally 1) but its centre does not change |
| Scenarios.PointKernel | scripts/fix_rivet_holes.py:37-41 | the kernel for a zero-length edge gives the distance to its point and direction (0, 0) |
| Scenarios.DiameterBandIsInclusive | scripts/fix_rivet_holes.py:96 | diameters 3.9 and 4.5 are rivet holes; 3.8 and 4.6 are ignored |
| Batch.FileCorrected | scripts/fix_rivet_holes.py:78-166 | a drawing reports at most one corrected hole per circle, and 0 when it has no circle |
| Batch.FixDocument | scripts/fix_rivet_holes.py:62-166 | the count returned is the drawing's corrected count; the circles end up repositioned and the lines untouched; the drawing is saved exactly when this is not a dry run and something was corrected |
| Batch.OutputAt | scripts/fix_rivet_holes.py:159-163 | entry `k` of the outputs is what is written for drawing `k` |
| Batch.ProcessDirectory | scripts/fix_rivet_holes.py:190-198 | the total is the sum of the per-drawing corrected counts, and each drawing's output is the repaired drawing or nothing |
| Batch.TotalCorrectedAppend | scripts/fix_rivet_holes.py:190-198 | the total over two runs of drawings is the sum of their totals |
| Batch.TotalCorrectedPermutation | scripts/fix_rivet_holes.py:191 | the total does not depend on the order the drawings are processed in, so sorting the file list does not change it |
| Batch.TotalCorrectedBounded | scripts/fix_rivet_holes.py:190-198 | the total never exceeds the number of circles in all drawings |

## Left out

- Reading and writing DXF files with `ezdxf` (lines 71-76 and 159-164) is left out. A drawing is given as its LINE segments and CIRCLE entities. Saving is the `save` flag and the `Output` value. The output file name (`<stem>_fixed.DXF`) is not modelled.
- All console output is left out: headers, the per-hole table, the summary and the totals (lines 66-68, 87-88, 101, 122-123, 150-156, 185-188, 200-202). It has no effect on the result.
- Directory handling is left out: globbing `*.dxf` and `*.DXF`, creating the output directory, and building output paths (lines 172-183, 192-195). `ProcessDirectory` takes the drawings in the order given. Sorting is covered by `Batch.TotalCorrectedPermutation`.
- Batch.ProcessDirectory: the script returns nothing and only prints the total. The model returns the total and the outputs. The script's early exit when no file is found (lines 175-177) is the empty list here, with total 0.
- The command-line entry point (lines 204-225) is left out. It is argument parsing and dispatch.
- IEEE double arithmetic is left out: coordinates are exact reals, and NaN and infinite coordinates are not modelled.
- Scenarios.DiameterBandIsInclusive holds over the reals. In doubles, `4.2 - 0.3` evaluates to 3.9000000000000004, so a circle of diameter exactly 3.9 would be ignored by the script.
- HoleProperties.DefaultBands: the diameter band [3.9, 4.5] holds over the reals only. In doubles its lower end is 3.9000000000000004, as for `Scenarios.DiameterBandIsInclusive`.
- HoleProperties.NonRivetsAreOnlyCounted: the band 4.2 ± 0.3 is computed exactly. In doubles its lower end is 3.9000000000000004, as for `Scenarios.DiameterBandIsInclusive`.
- Geometry.DistanceAndDirection: `math.sqrt` is a parameter that is only required to be a non-negative square root. The contract says nothing about rounding of the root or of the divisions.
- HoleProperties.CorrectionFollowsClosestRay: the contract says where a corrected hole lands relative to its nearest edge. It does not claim that the hole ends up 10 mm from the outline. A move of 20 mm towards one edge can bring it nearer to another edge, and the script does not check this.
- The z coordinate of LINE endpoints is ignored, as in the script. The z of a circle's centre is carried through unchanged.
