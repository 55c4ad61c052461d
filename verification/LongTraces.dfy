// The ordering penalty compares the median distance of the whole trace with the alignment
// residual of its subsample (src/challenge/curve_trace.rs:146-153, 505-518). The two agree on
// which points they measure exactly when the trace is not subsampled.
module LongTraces {
  import opened OrderStatistics
  import opened Alignment
  import opened CurveTrace
  import opened Following

  // For one curve, issued anchor and window: no trace of this length has a negative penalty.
  ghost predicate PenaltyNeverNegative(root: Root, length: nat, base: seq<Point>, issued: Point, window: nat)
    requires base != []
  {
    forall trace: seq<Point>, v ::
      && |trace| == length && trace != []
      && IsLeastCandidate(root, Shifted(SubsampleForAlignment(trace), issued), base, window, v)
      ==> ScoresAt(root, trace, base, issued).median <= v
  }

  // --- Two points that a curve's first point is nearest to ---

  // Half the way from p to the closest point of the curve on its right, if there is one.
  function Gap(p: Point, base: seq<Point>): (g: real)
    ensures g > 0.0
    ensures forall k | 0 <= k < |base| && base[k].x > p.x :: 2.0 * g <= base[k].x - p.x
  {
    if base == [] then 1.0
    else
      var g := Gap(p, base[1..]);
      if base[0].x > p.x && (base[0].x - p.x) / 2.0 < g then (base[0].x - p.x) / 2.0 else g
  }

  // near is the first point of the curve, and the nearest one to far as well.
  ghost predicate Spread(base: seq<Point>, near: Point, far: Point) {
    && base != [] && near == base[0] && far != near
    && forall k | 0 <= k < |base| :: SquaredDistance(far, near) <= SquaredDistance(far, base[k])
  }

  lemma SquareAtLeast(a: real, g: real)
    requires g > 0.0 && (a >= g || a <= -g)
    ensures Square(a) >= Square(g)
  {
    if a >= g {
      assert (a - g) * (a + g) >= 0.0;
    } else {
      assert (-a - g) * (-a + g) >= 0.0;
    }
  }

  lemma FarPoint(base: seq<Point>) returns (far: Point)
    requires base != []
    ensures Spread(base, base[0], far)
  {
    var p, g := base[0], Gap(base[0], base);
    far := Point(p.x + g, p.y);
    forall k | 0 <= k < |base| ensures SquaredDistance(far, p) <= SquaredDistance(far, base[k]) {
      SquareAtLeast(far.x - base[k].x, g);
      SquareSign(far.y - base[k].y);
      SquareSign(far.y - p.y);
      assert far.x - p.x == g;
      hide Square;
    }
  }

  // Each point of the trace is one of the two.
  predicate OfTwo(trace: seq<Point>, near: Point, far: Point) {
    forall j | 0 <= j < |trace| :: trace[j] == near || trace[j] == far
  }

  function Level(root: Root, near: Point, far: Point): real {
    root(SquaredDistance(far, near))
  }

  lemma Levels(root: Root, near: Point, far: Point)
    requires far != near
    ensures Level(root, near, near) == 0.0 < Level(root, near, far)
  {
    RootOrder(root, SquaredDistance(far, near), SquaredDistance(far, near));
    assert IsRoot(root);
  }

  lemma FirstIsNearest(base: seq<Point>, near: Point, far: Point, p: Point)
    requires Spread(base, near, far) && (p == near || p == far)
    ensures NearestSquared(p, base) == SquaredDistance(p, near)
  {
    hide SquaredDistance;
    var k :| 0 <= k < |base| && NearestSquared(p, base) == SquaredDistance(p, base[k]);
    assert NearestSquared(p, base) <= SquaredDistance(p, base[0]);
  }

  lemma TwoLevelDistances(root: Root, trace: seq<Point>, base: seq<Point>, near: Point, far: Point)
    requires Spread(base, near, far) && OfTwo(trace, near, far)
    ensures var dists := NearestDistances(root, trace, base);
            && |dists| == |trace|
            && (forall j | 0 <= j < |trace| :: dists[j] == if trace[j] == near then 0.0 else Level(root, near, far))
  {
    Levels(root, near, far);
    forall j | 0 <= j < |trace|
      ensures NearestDistances(root, trace, base)[j] == if trace[j] == near then 0.0 else Level(root, near, far)
    {
      FirstIsNearest(base, near, far, trace[j]);
    }
  }

  // From the first point of the curve the greedy walk over such a trace never leaves it.
  lemma StaysAtFirst(base: seq<Point>, near: Point, far: Point, p: Point, window: nat)
    requires Spread(base, near, far) && (p == near || p == far)
    ensures NearestStep(p, base, 0, Forward, window) == 0 && At(p, base, 0, Forward, 0) == SquaredDistance(p, near)
  {
    hide SquaredDistance;
    var s := NearestStep(p, base, 0, Forward, window);
    assert Advance(0, Forward, 0, |base|) == 0;
    assert At(p, base, 0, Forward, s) >= SquaredDistance(p, near);
  }

  lemma {:induction false} WalkStaysAtFirst(
      root: Root, trace: seq<Point>, base: seq<Point>, near: Point, far: Point, window: nat)
    requires Spread(base, near, far) && OfTwo(trace, near, far)
    ensures Walk(root, trace, base, 0, Forward, window) == NearestDistances(root, trace, base)
  {
    if trace != [] {
      StaysAtFirst(base, near, far, trace[0], window);
      FirstIsNearest(base, near, far, trace[0]);
      WalkStaysAtFirst(root, trace[1..], base, near, far, window);
      hide SquaredDistance, NearestStep, NearestSquared, Spread;
      assert Advance(0, Forward, 0, |base|) == 0;
      assert NearestDistances(root, trace, base)[1..] == NearestDistances(root, trace[1..], base);
    }
  }

  // --- A long trace that is near at its first picks only ---

  function Hits(length: nat): nat {
    if length / 2 <= 255 then length / 2 else 255
  }

  function Sampled(length: nat, hits: seq<nat>, near: Point, far: Point): (trace: seq<Point>)
    ensures |trace| == length
    ensures forall j | 0 <= j < length :: trace[j] == if j in hits then near else far
  {
    seq(length, j requires 0 <= j < length => if j in hits then near else far)
  }

  function NearTheFirstPicks(length: nat, near: Point, far: Point): (trace: seq<Point>)
    requires length > ALIGNMENT_MAX_POINTS
    ensures |trace| == length && OfTwo(trace, near, far)
  {
    Sampled(length, Picks(length - 1)[..Hits(length)], near, far)
  }

  lemma {:induction false} NoneAtOrBelow(s: seq<real>, x: real)
    requires forall i | 0 <= i < |s| :: s[i] > x
    ensures CountLe(s, x) == 0
  {
    if s != [] {
      NoneAtOrBelow(s[1..], x);
    }
  }

  // Distances that vanish at the indices in hits only contain |hits| zeros.
  lemma {:induction false} ZerosAreHits(dists: seq<real>, hits: seq<nat>)
    requires forall i, j | 0 <= i < j < |hits| :: hits[i] < hits[j]
    requires forall i | 0 <= i < |hits| :: hits[i] < |dists|
    requires forall j | 0 <= j < |dists| :: dists[j] >= 0.0 && (dists[j] == 0.0 <==> j in hits)
    ensures CountLe(dists, 0.0) == |hits|
  {
    if hits == [] {
      NoneAtOrBelow(dists, 0.0);
    } else {
      var h := hits[|hits| - 1];
      var before, after, earlier := dists[..h], dists[h + 1..], hits[..|hits| - 1];
      assert dists == before + ([dists[h]] + after);
      CountsOfConcat(before, [dists[h]] + after, 0.0);
      CountsOfConcat([dists[h]], after, 0.0);
      NoneAtOrBelow(after, 0.0);
      assert hits == earlier + [h];
      ZerosAreHits(before, earlier);
      assert h in hits;
    }
  }

  // At most half of a long trace is near.
  lemma WholeTraceCount(root: Root, length: nat, base: seq<Point>, near: Point, far: Point)
    requires length > ALIGNMENT_MAX_POINTS && Spread(base, near, far)
    ensures CountLe(NearestDistances(root, NearTheFirstPicks(length, near, far), base), 0.0) == Hits(length)
  {
    hide Picks, SquaredDistance, NearestDistances, Level;
    var trace := NearTheFirstPicks(length, near, far);
    Levels(root, near, far);
    TwoLevelDistances(root, trace, base, near, far);
    hide Spread;
    ZerosAreHits(NearestDistances(root, trace, base), Picks(length - 1)[..Hits(length)]);
  }

  // Pick number i of that trace is near exactly when i is one of the first picks.
  lemma PickedPoint(length: nat, near: Point, far: Point, i: nat)
    requires length > ALIGNMENT_MAX_POINTS && i < ALIGNMENT_MAX_POINTS
    ensures SubsampleForAlignment(NearTheFirstPicks(length, near, far))[i] == if i < Hits(length) then near else far
  {
    hide Picks, SubsampleForAlignment, Sampled;
    var picks, hits := Picks(length - 1), Picks(length - 1)[..Hits(length)];
    assert picks[i] in hits <==> i < Hits(length) by {
      if i < Hits(length) {
        assert hits[i] == picks[i];
      } else {
        assert forall k | 0 <= k < |hits| :: hits[k] == picks[k] < picks[i];
      }
    }
  }

  lemma PickedOfTwo(length: nat, near: Point, far: Point)
    requires length > ALIGNMENT_MAX_POINTS
    ensures OfTwo(SubsampleForAlignment(NearTheFirstPicks(length, near, far)), near, far)
  {
    forall i | 0 <= i < ALIGNMENT_MAX_POINTS
      ensures SubsampleForAlignment(NearTheFirstPicks(length, near, far))[i] in [near, far]
    {
      PickedPoint(length, near, far, i);
    }
  }

  // At least 128 of its 256 picks are near.
  lemma PickedTraceCount(root: Root, length: nat, base: seq<Point>, near: Point, far: Point)
    requires length > ALIGNMENT_MAX_POINTS && Spread(base, near, far)
    ensures var picked := SubsampleForAlignment(NearTheFirstPicks(length, near, far));
            CountLe(NearestDistances(root, picked, base), 0.0) == Hits(length)
  {
    hide Picks, NearTheFirstPicks, SubsampleForAlignment, SquaredDistance, NearestDistances, Level;
    var picked := SubsampleForAlignment(NearTheFirstPicks(length, near, far));
    forall i | 0 <= i < |picked|
      ensures picked[i] == if i < Hits(length) then near else far
    {
      PickedPoint(length, near, far, i);
    }
    Levels(root, near, far);
    TwoLevelDistances(root, picked, base, near, far);
    hide Spread;
    var first := seq(Hits(length), i => i);
    forall i | 0 <= i < |picked|
      ensures i in first <==> i < Hits(length)
    {
      assert i < Hits(length) ==> first[i] == i;
    }
    ZerosAreHits(NearestDistances(root, picked, base), first);
  }

  // Over any curve, the subsample's median distance is below the whole trace's.
  lemma LongTraceMedians(root: Root, length: nat, base: seq<Point>, near: Point, far: Point)
    requires length > ALIGNMENT_MAX_POINTS && Spread(base, near, far)
    ensures var trace := NearTheFirstPicks(length, near, far);
            Median(NearestDistances(root, SubsampleForAlignment(trace), base))
                < Median(NearestDistances(root, trace, base))
  {
    hide Picks, SubsampleForAlignment, NearTheFirstPicks, SquaredDistance, NearestDistances, Level, Median;
    var trace := NearTheFirstPicks(length, near, far);
    var whole, picked := NearestDistances(root, trace, base),
        NearestDistances(root, SubsampleForAlignment(trace), base);
    Levels(root, near, far);
    PickedOfTwo(length, near, far);
    TwoLevelDistances(root, trace, base, near, far);
    TwoLevelDistances(root, SubsampleForAlignment(trace), base, near, far);
    WholeTraceCount(root, length, base, near, far);
    PickedTraceCount(root, length, base, near, far);
    hide Spread, OfTwo;
    TwoLevelMedian(whole, Level(root, near, far));
    TwoLevelMedian(picked, Level(root, near, far));
  }

  lemma TwoLevelMedian(s: seq<real>, far: real)
    requires s != [] && far > 0.0
    requires forall i | 0 <= i < |s| :: s[i] == 0.0 || s[i] == far
    ensures var zeros := CountLe(s, 0.0);
            Median(s) == if |s| / 2 < zeros then 0.0
                         else if |s| % 2 == 0 && |s| / 2 == zeros then far / 2.0
                         else far
  {
    TwoLevelNth(s, |s| / 2, far);
    if |s| % 2 == 0 {
      TwoLevelNth(s, |s| / 2 - 1, far);
    }
  }

  // A sequence of zeros and fars in sorted order: the zeros come first.
  lemma TwoLevelNth(s: seq<real>, k: nat, far: real)
    requires k < |s| && far > 0.0
    requires forall i | 0 <= i < |s| :: s[i] == 0.0 || s[i] == far
    ensures Nth(s, k) == if k < CountLe(s, 0.0) then 0.0 else far
  {
    NthWithin(s, k, 0.0, far);
    var x := Nth(s, k);
    if 0.0 < x && k < CountLe(s, 0.0) {
      CountLeBelowCountLt(s, 0.0, x);
    } else if x < far && k >= CountLe(s, 0.0) {
      TwoLevelCounts(s, x, far);
    }
  }

  lemma {:induction false} TwoLevelCounts(s: seq<real>, x: real, far: real)
    requires 0.0 <= x < far
    requires forall i | 0 <= i < |s| :: s[i] == 0.0 || s[i] == far
    ensures CountLe(s, x) == CountLe(s, 0.0)
  {
    if s != [] {
      TwoLevelCounts(s[1..], x, far);
    }
  }

  // --- Main result ---

  // For every curve, anchor and window, the penalty is guaranteed nonnegative for exactly the
  // lengths that are not subsampled.
  lemma PenaltyNeverNegativeIffNotSubsampled(root: Root, length: nat, base: seq<Point>, issued: Point, window: nat)
    requires length >= 2 && base != []
    ensures PenaltyNeverNegative(root, length, base, issued, window) <==> length <= ALIGNMENT_MAX_POINTS
  {
    hide ScoresAt, IsLeastCandidate;
    if length <= ALIGNMENT_MAX_POINTS {
      forall trace: seq<Point>, v |
        && |trace| == length && trace != []
        && IsLeastCandidate(root, Shifted(SubsampleForAlignment(trace), issued), base, window, v)
        ensures ScoresAt(root, trace, base, issued).median <= v
      {
        OrderingPenaltyNonNegative(root, trace, base, issued, window, v);
      }
    } else {
      var trace, v := NegativePenalty(root, length, base, issued, window);
    }
  }

  // A trace with a negative penalty: near the displayed curve's first point at its first picks, and
  // a little off it elsewhere.
  lemma NegativePenalty(root: Root, length: nat, base: seq<Point>, issued: Point, window: nat)
    returns (trace: seq<Point>, v: real)
    requires length > ALIGNMENT_MAX_POINTS && base != []
    ensures |trace| == length && trace != []
    ensures IsLeastCandidate(root, Shifted(SubsampleForAlignment(trace), issued), base, window, v)
    ensures v < ScoresAt(root, trace, base, issued).median
  {
    var near := base[0];
    var far := FarPoint(base);
    var local := NearTheFirstPicks(length, near, far);
    trace := seq(length, j requires 0 <= j < length => Translate(local[j], issued));
    hide NearTheFirstPicks, Picks, Median, NearestDistances, Walk;
    assert Shifted(trace, issued) == local;
    assert Shifted(SubsampleForAlignment(trace), issued) == SubsampleForAlignment(local);
    hide SubsampleForAlignment, Shifted, Translate;
    var picked := SubsampleForAlignment(local);
    v := LeastCandidate(root, picked, base, window);
    assert Swept(0, |base|);
    assert v <= Candidate(root, picked, base, window, 0, Forward);
    PickedOfTwo(length, near, far);
    WalkStaysAtFirst(root, picked, base, near, far, window);
    LongTraceMedians(root, length, base, near, far);
  }
}
