// Scoring one curve-trace outline (src/challenge/curve_trace.rs): region proximity at five
// anchors and at the issued one, subsampling, and the alignment residual at every window.
module CurveTrace {
  import opened OrderStatistics
  import opened Alignment

  const ANCHORS: seq<Point> :=
    [Point(0.0, 0.0), Point(100.0, 0.0), Point(0.0, 100.0), Point(100.0, 100.0), Point(50.0, 50.0)]
  const PROXIMITY_BAND: real := 25.0
  const ALIGNMENT_WINDOW_SWEEP: seq<nat> := [24, 32, 40, 48]
  const ALIGNMENT_MAX_POINTS: nat := 256

  // The least squared distance from p to a reference point.
  function NearestSquared(p: Point, reference: seq<Point>): (d: real)
    requires reference != []
    ensures d >= 0.0
    ensures exists k :: 0 <= k < |reference| && d == SquaredDistance(p, reference[k])
    ensures forall k | 0 <= k < |reference| :: d <= SquaredDistance(p, reference[k])
  {
    var last := |reference| - 1;
    var d := SquaredDistance(p, reference[last]);
    if last == 0 then d
    else
      var best := NearestSquared(p, reference[..last]);
      if d < best then d else best
  }

  function NearestDistances(root: Root, trace: seq<Point>, reference: seq<Point>): (dists: seq<real>)
    requires reference != []
    ensures |dists| == |trace|
    ensures forall i | 0 <= i < |trace| :: dists[i] == root(NearestSquared(trace[i], reference))
  {
    seq(|trace|, i requires 0 <= i < |trace| => root(NearestSquared(trace[i], reference)))
  }

  method NearestDistance(root: Root, p: Point, reference: seq<Point>) returns (d: Distance)
    ensures reference == [] ==> d == Infinity
    ensures reference != [] ==> d == Finite(root(NearestSquared(p, reference)))
  {
    hide SquaredDistance;
    var best := Infinity;
    for i := 0 to |reference|
      invariant best == if i == 0 then Infinity else Finite(NearestSquared(p, reference[..i]))
    {
      var d2 := SquaredDistance(p, reference[i]);
      assert reference[..i + 1][..i] == reference[..i];
      if best.Infinity? || d2 < best.value {
        best := Finite(d2);
      }
    }
    assert reference[..|reference|] == reference;
    return if best.Infinity? then Infinity else Finite(root(best.value));
  }

  // The in-band fraction is inBand over the number of trace points, the same at every anchor, so
  // fractions compare as their counts do.
  datatype Scores = Scores(inBand: nat, median: real)

  datatype RegionScores = RegionScores(best: Scores, issued: Scores)

  // Points in band and median nearest distance, with the curve translated to one anchor.
  function ScoresAt(root: Root, trace: seq<Point>, base: seq<Point>, anchor: Point): Scores
    requires trace != [] && base != []
  {
    var dists := NearestDistances(root, Shifted(trace, anchor), base);
    Scores(CountLe(dists, PROXIMITY_BAND), Median(dists))
  }

  // The in-band count is the number of points at most 25 units from the curve, the edge included.
  lemma InBandCounts(root: Root, trace: seq<Point>, base: seq<Point>, anchor: Point)
    requires trace != [] && base != []
    ensures var dists := NearestDistances(root, Shifted(trace, anchor), base);
            ScoresAt(root, trace, base, anchor).inBand == |set i | 0 <= i < |dists| && dists[i] <= 25.0|
  {
    CountIsCardinality(NearestDistances(root, Shifted(trace, anchor), base), 25.0);
  }

  lemma {:induction false} CountIsCardinality(s: seq<real>, x: real)
    ensures CountLe(s, x) == |set i | 0 <= i < |s| && s[i] <= x|
  {
    var all := set i | 0 <= i < |s| && s[i] <= x;
    if s == [] {
      assert all == {};
    } else {
      var init, last := s[..|s| - 1], |s| - 1;
      CountIsCardinality(init, x);
      assert s == init + [s[last]];
      CountsOfConcat(init, [s[last]], x);
      var before := set i | 0 <= i < |init| && init[i] <= x;
      assert all == if s[last] <= x then before + {last} else before;
    }
  }

  predicate Better(a: Scores, b: Scores) {
    a.inBand > b.inBand || (a.inBand == b.inBand && a.median < b.median)
  }

  method FractionAt(root: Root, trace: seq<Point>, base: seq<Point>, anchor: Point) returns (scores: Scores)
    requires trace != [] && base != []
    ensures scores == ScoresAt(root, trace, base, anchor)
  {
    hide Median, NearestDistances, Shifted, Shift;
    var dists := new real[|trace|];
    var inBand := 0;
    ghost var spec := NearestDistances(root, Shifted(trace, anchor), base);
    for i := 0 to |trace|
      invariant dists[..i] == spec[..i]
      invariant inBand == CountLe(spec[..i], PROXIMITY_BAND)
    {
      var d := NearestDistance(root, Shift(trace[i], anchor), base);
      dists[i] := d.value;
      if d.value <= PROXIMITY_BAND {
        inBand := inBand + 1;
      }
      assert spec[..i + 1] == spec[..i] + [spec[i]];
      CountsOfConcat(spec[..i], [spec[i]], PROXIMITY_BAND);
    }
    assert spec[..|trace|] == spec;
    assert dists[..] == dists[..|trace|];
    assert dists[..] == spec;
    assert inBand == CountLe(spec, PROXIMITY_BAND);
    var m := MedianInPlace(dists);
    assert m.value == Median(spec);
    scores := Scores(inBand, m.value);
  }

  function AnchorScores(root: Root, trace: seq<Point>, base: seq<Point>): (all: seq<Scores>)
    requires trace != [] && base != []
    ensures |all| == |ANCHORS|
    ensures forall k | 0 <= k < |ANCHORS| :: all[k] == ScoresAt(root, trace, base, ANCHORS[k])
  {
    seq(|ANCHORS|, k requires 0 <= k < |ANCHORS| => ScoresAt(root, trace, base, ANCHORS[k]))
  }

  // score_region: the best anchor is an anchor no other anchor beats; the issued scores are
  // those of the issued anchor, on or off the lattice.
  method ScoreRegion(root: Root, trace: seq<Point>, base: seq<Point>, issued: Point) returns (r: RegionScores)
    requires trace != [] && base != []
    ensures r.best in AnchorScores(root, trace, base)
    ensures forall k | 0 <= k < |ANCHORS| :: AnchorScores(root, trace, base)[k].inBand <= r.best.inBand
    ensures forall k | 0 <= k < |ANCHORS| && AnchorScores(root, trace, base)[k].inBand == r.best.inBand ::
              r.best.median <= AnchorScores(root, trace, base)[k].median
    ensures r.issued == ScoresAt(root, trace, base, issued)
  {
    hide ScoresAt;
    ghost var all := AnchorScores(root, trace, base);
    var best := FractionAt(root, trace, base, ANCHORS[0]);
    var issuedScores, known := best, ANCHORS[0] == issued;
    assert best == all[0];
    for i := 1 to |ANCHORS|
      invariant best in all[..i]
      invariant forall k | 0 <= k < i :: !Better(all[k], best)
      invariant known ==> issuedScores == ScoresAt(root, trace, base, issued)
    {
      var scores := FractionAt(root, trace, base, ANCHORS[i]);
      if ANCHORS[i] == issued {
        issuedScores, known := scores, true;
      }
      assert scores == all[i];
      if Better(scores, best) {
        best := scores;
      }
      assert all[..i + 1] == all[..i] + [all[i]];
    }
    if !known {
      issuedScores := FractionAt(root, trace, base, issued);
    }
    r := RegionScores(best, issuedScores);
  }

  // The indices picked from a trace whose last index is last: strictly increasing, and keeping
  // both endpoints.
  function Picks(last: nat): (picks: seq<nat>)
    requires last >= ALIGNMENT_MAX_POINTS
    ensures |picks| == ALIGNMENT_MAX_POINTS && picks[0] == 0 && picks[|picks| - 1] == last
    ensures forall i | 0 <= i < |picks| :: picks[i] <= last
    ensures forall i, j | 0 <= i < j < |picks| :: picks[i] < picks[j]
  {
    forall i, j | 0 <= i < j < ALIGNMENT_MAX_POINTS
      ensures Pick(i, last) < Pick(j, last) <= last
    {
      PicksAscend(last, i, j);
    }
    var picks := seq(ALIGNMENT_MAX_POINTS, i requires 0 <= i < ALIGNMENT_MAX_POINTS => Pick(i, last));
    assert picks[0] == 0 && picks[255] == last;
    picks
  }

  function Pick(i: nat, last: nat): nat {
    i * last / (ALIGNMENT_MAX_POINTS - 1)
  }

  lemma Scales(a: nat, b: nat, last: nat)
    requires a <= b
    ensures a * last <= b * last
  {
  }

  lemma PicksAscend(last: nat, i: nat, j: nat)
    requires last >= ALIGNMENT_MAX_POINTS && i < j < ALIGNMENT_MAX_POINTS
    ensures Pick(i, last) < Pick(j, last) <= last
  {
    Scales(i + 1, j, last);
    Scales(j, 255, last);
    assert (i + 1) * last == i * last + last;
  }

  // The picks are as even as whole indices allow: every gap is the quotient, or one more.
  lemma PicksAreEven(last: nat, i: nat)
    requires last >= ALIGNMENT_MAX_POINTS && i + 1 < ALIGNMENT_MAX_POINTS
    ensures var gap, even := Picks(last)[i + 1] - Picks(last)[i], last / (ALIGNMENT_MAX_POINTS - 1);
            gap == even || gap == even + 1
  {
    assert (i + 1) * last == i * last + last;
    assert Picks(last)[i] == Pick(i, last) && Picks(last)[i + 1] == Pick(i + 1, last);
  }

  function SubsampleForAlignment(trace: seq<Point>): (picked: seq<Point>)
    ensures |trace| <= ALIGNMENT_MAX_POINTS ==> picked == trace
    ensures |trace| > ALIGNMENT_MAX_POINTS ==> |picked| == ALIGNMENT_MAX_POINTS
    ensures |trace| > ALIGNMENT_MAX_POINTS ==>
              forall i | 0 <= i < |picked| :: picked[i] == trace[Picks(|trace| - 1)[i]]
  {
    if |trace| <= ALIGNMENT_MAX_POINTS then trace
    else
      var picks := Picks(|trace| - 1);
      seq(ALIGNMENT_MAX_POINTS, i requires 0 <= i < ALIGNMENT_MAX_POINTS => trace[picks[i]])
  }

  datatype Report = Empty | Report(region: RegionScores, residuals: seq<Distance>)

  // The terms of score_curve_trace that are compared with one another. base is the curve at the
  // origin; it always has at least one point.
  method ScoreCurveTrace(root: Root, trace: seq<Point>, base: seq<Point>, issued: Point) returns (report: Report)
    requires base != []
    ensures report.Empty? <==> |trace| < 2
    ensures report.Report? ==>
              && report.region.issued == ScoresAt(root, trace, base, issued)
              && |report.residuals| == |ALIGNMENT_WINDOW_SWEEP|
              && (forall w | 0 <= w < |report.residuals| ::
                    && report.residuals[w].Finite?
                    && IsLeastCandidate(root, Shifted(SubsampleForAlignment(trace), issued), base,
                                        ALIGNMENT_WINDOW_SWEEP[w], report.residuals[w].value))
    ensures report.Report? && |trace| <= ALIGNMENT_MAX_POINTS ==>
              forall w | 0 <= w < |report.residuals| :: report.region.issued.median <= report.residuals[w].value
  {
    hide ScoresAt, IsLeastCandidate;
    if |trace| < 2 {
      return Empty;
    }
    var region := ScoreRegion(root, trace, base, issued);
    var aligned := SubsampleForAlignment(trace);
    var residuals: seq<Distance> := [];
    for w := 0 to |ALIGNMENT_WINDOW_SWEEP|
      invariant |residuals| == w
      invariant forall v | 0 <= v < w ::
          && residuals[v].Finite?
          && IsLeastCandidate(root, Shifted(aligned, issued), base, ALIGNMENT_WINDOW_SWEEP[v], residuals[v].value)
      invariant |trace| <= ALIGNMENT_MAX_POINTS ==>
          forall v | 0 <= v < w :: region.issued.median <= residuals[v].value
    {
      var residual := AlignmentResidual(root, aligned, base, issued, ALIGNMENT_WINDOW_SWEEP[w]);
      if |trace| <= ALIGNMENT_MAX_POINTS {
        OrderingPenaltyNonNegative(root, trace, base, issued, ALIGNMENT_WINDOW_SWEEP[w], residual.value);
      }
      residuals := residuals + [residual];
    }
    report := Report(region, residuals);
  }

  // Forcing a trace to be explained as forward motion never brings it closer to the curve.
  lemma {:induction false} WalkDominatesNearest(root: Root, trace: seq<Point>, reference: seq<Point>, cursor: nat,
                                                dir: Direction, window: nat)
    requires reference != []
    ensures forall i | 0 <= i < |trace| ::
              NearestDistances(root, trace, reference)[i] <= Walk(root, trace, reference, cursor, dir, window)[i]
  {
    if trace != [] {
      var s := NearestStep(trace[0], reference, cursor, dir, window);
      var j := Advance(cursor, dir, s, |reference|);
      RootOrder(root, NearestSquared(trace[0], reference), SquaredDistance(trace[0], reference[j]));
      WalkDominatesNearest(root, trace[1..], reference, j, dir, window);
    }
  }

  // The ordering penalty is never negative on a trace that is aligned whole.
  lemma OrderingPenaltyNonNegative(root: Root, trace: seq<Point>, base: seq<Point>, issued: Point, window: nat, v: real)
    requires base != [] && trace != []
    requires IsLeastCandidate(root, Shifted(trace, issued), base, window, v)
    ensures ScoresAt(root, trace, base, issued).median <= v
  {
    hide Median;
    var shifted := Shifted(trace, issued);
    var start, dir :| Swept(start, |base|) && Candidate(root, shifted, base, window, start, dir) == v;
    WalkDominatesNearest(root, shifted, base, start, dir, window);
    MedianMonotone(NearestDistances(root, shifted, base), Walk(root, shifted, base, start, dir, window));
  }
}
