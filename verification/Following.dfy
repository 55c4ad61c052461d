// What the alignment residual promises about a trace that follows the curve, and about traces
// too long to be aligned whole (src/challenge/curve_trace.rs:350-419).
module Following {
  import opened OrderStatistics
  import opened Alignment
  import opened CurveTrace

  predicate Distinct(reference: seq<Point>) {
    forall i, j | 0 <= i < j < |reference| :: reference[i] != reference[j]
  }

  // b is reached from a by at most window indices in one direction.
  predicate Reaches(a: nat, b: nat, dir: Direction, window: nat, n: nat)
    requires n > 0
  {
    exists k | 0 <= k <= window :: Advance(a, dir, k, n) == b
  }

  // The trace visits these curve indices, pausing or advancing by at most window per sample.
  predicate Follows(trace: seq<Point>, reference: seq<Point>, visited: seq<nat>, dir: Direction, window: nat) {
    && |visited| == |trace|
    && (forall i | 0 <= i < |visited| :: visited[i] < |reference| && trace[i] == reference[visited[i]])
    && (forall i | 0 < i < |visited| :: Reaches(visited[i - 1], visited[i], dir, window, |reference|))
  }

  lemma ZeroStepHitsIndex(p: Point, reference: seq<Point>, cursor: nat, dir: Direction, window: nat, index: nat)
    requires Distinct(reference) && index < |reference| && p == reference[index]
    ensures var s := NearestStep(p, reference, cursor, dir, window);
            At(p, reference, cursor, dir, s) == 0.0 <==> Advance(cursor, dir, s, |reference|) == index
    ensures Reaches(cursor, index, dir, window, |reference|) <==>
            At(p, reference, cursor, dir, NearestStep(p, reference, cursor, dir, window)) == 0.0
  {
    var s := NearestStep(p, reference, cursor, dir, window);
    if Reaches(cursor, index, dir, window, |reference|) {
      var k :| 0 <= k <= window && Advance(cursor, dir, k, |reference|) == index;
      assert At(p, reference, cursor, dir, s) <= At(p, reference, cursor, dir, k) == 0.0;
    }
  }

  lemma {:induction false} FollowedWalkIsZero(root: Root, trace: seq<Point>, reference: seq<Point>, visited: seq<nat>,
                                              cursor: nat, dir: Direction, window: nat)
    requires reference != [] && Distinct(reference) && Follows(trace, reference, visited, dir, window)
    requires trace != [] ==> Reaches(cursor, visited[0], dir, window, |reference|)
    ensures forall i | 0 <= i < |trace| :: Walk(root, trace, reference, cursor, dir, window)[i] == 0.0
  {
    if trace != [] {
      ZeroStepHitsIndex(trace[0], reference, cursor, dir, window, visited[0]);
      RootOrder(root, 0.0, 0.0);
      FollowedWalkIsZero(root, trace[1..], reference, visited[1..], visited[0], dir, window);
    }
  }

  lemma WrapsToIndex(index: nat, n: nat)
    requires index < n
    ensures index % n == index && (0 - (n - index)) % n == index
  {
    var r := (index - n) % n;
    assert index - n == n * ((index - n) / n) + r;
    assert (index - n) / n == -1;
  }

  lemma StrideNeighbours(index: nat)
    ensures (index - index % 4) % 4 == 0 && (index + 4 - index % 4) % 4 == 0
  {
  }

  // Sweeping every fourth index is ample: some swept start reaches any index within 3 steps.
  lemma SweptStartNearby(index: nat, dir: Direction, n: nat) returns (start: nat)
    requires index < n
    ensures Swept(start, n) && Reaches(start, index, dir, 3, n)
  {
    var offset := index % 4;
    StrideNeighbours(index);
    WrapsToIndex(index, n);
    if dir.Forward? || offset == 0 {
      start := index - offset;
      assert Advance(start, dir, offset, n) == index;
    } else if index + 4 - offset < n {
      start := index + 4 - offset;
      assert Advance(start, dir, 4 - offset, n) == index;
    } else {
      start := 0;
      assert Advance(start, dir, n - index, n) == index;
    }
  }

  lemma CandidateNonNegative(root: Root, trace: seq<Point>, reference: seq<Point>, window: nat, start: nat,
      dir: Direction)
    requires reference != [] && trace != []
    ensures Candidate(root, trace, reference, window, start, dir) >= 0.0
  {
    WalkDominatesNearest(root, trace, reference, start, dir, window);
    var nearest, walk := NearestDistances(root, trace, reference), Walk(root, trace, reference, start, dir, window);
    forall i | 0 <= i < |trace|
      ensures nearest[i] >= 0.0
    {
      RootOrder(root, 0.0, NearestSquared(trace[i], reference));
      RootOrder(root, NearestSquared(trace[i], reference), NearestSquared(trace[i], reference));
    }
    MedianMonotone(nearest, walk);
    var hi := MaxOf(nearest);
    MedianWithin(nearest, 0.0, hi);
  }

  function MaxOf(s: seq<real>): (m: real)
    ensures forall i | 0 <= i < |s| :: s[i] <= m
  {
    if s == [] then 0.0
    else
      var rest := MaxOf(s[..|s| - 1]);
      if s[|s| - 1] > rest then s[|s| - 1] else rest
  }

  // Following the curve from any index, in either direction, costs nothing.
  lemma FollowedTraceHasZeroResidual(root: Root, trace: seq<Point>, reference: seq<Point>, visited: seq<nat>,
                                     dir: Direction, window: nat, v: real)
    requires trace != [] && reference != [] && Distinct(reference) && window >= 3
    requires Follows(trace, reference, visited, dir, window)
    requires IsLeastCandidate(root, trace, reference, window, v)
    ensures v == 0.0
  {
    hide Median;
    var start := SweptStartNearby(visited[0], dir, |reference|);
    FollowedWalkIsZero(root, trace, reference, visited, start, dir, window);
    MedianWithin(Walk(root, trace, reference, start, dir, window), 0.0, 0.0);
    assert v <= Candidate(root, trace, reference, window, start, dir);
    var s, d :| Swept(s, |reference|) && Candidate(root, trace, reference, window, s, d) == v;
    CandidateNonNegative(root, trace, reference, window, s, d);
  }

  function Translate(p: Point, offset: Point): Point {
    Point(p.x + offset.x, p.y + offset.y)
  }

  // A trace that follows the curve where it is displayed, at the issued anchor, costs nothing.
  lemma FollowingTheDisplayedCurveIsFree(root: Root, trace: seq<Point>, reference: seq<Point>, issued: Point,
                                         visited: seq<nat>, dir: Direction, window: nat, v: real)
    requires trace != [] && reference != [] && Distinct(reference) && window >= 3
    requires |visited| == |trace|
    requires forall i | 0 <= i < |visited| ::
               visited[i] < |reference| && trace[i] == Translate(reference[visited[i]], issued)
    requires forall i | 0 < i < |visited| :: Reaches(visited[i - 1], visited[i], dir, window, |reference|)
    requires IsLeastCandidate(root, Shifted(trace, issued), reference, window, v)
    ensures v == 0.0
  {
    hide IsLeastCandidate, Reaches, Distinct;
    forall i | 0 <= i < |trace| ensures Shifted(trace, issued)[i] == reference[visited[i]] {
      assert trace[i] == Translate(reference[visited[i]], issued);
    }
    FollowedTraceHasZeroResidual(root, Shifted(trace, issued), reference, visited, dir, window, v);
  }


  ghost predicate FollowingIsFree(root: Root, window: nat) {
    forall trace, reference, visited, dir, v ::
      && trace != [] && reference != [] && Distinct(reference)
      && Follows(trace, reference, visited, dir, window)
      && IsLeastCandidate(root, trace, reference, window, v)
      ==> v == 0.0
  }

  // Eight curve points and a trace from index 3 to index min(4, 3 + window), missed by every
  // candidate when the window is narrower than the gap between swept starts.
  const LINE: seq<Point> := seq(8, i => Point(i as real, 0.0))

  lemma NarrowWindowMisses(root: Root, window: nat, start: nat, dir: Direction)
    requires window < 3 && Swept(start, 8)
    ensures var last := if window == 0 then 3 else 4;
            Candidate(root, [LINE[3], LINE[last]], LINE, window, start, dir) > 0.0
  {
    var last := if window == 0 then 3 else 4;
    var s := NearestStep(LINE[3], LINE, start, dir, window);
    var next := Advance(start, dir, s, 8);
    var d := At(LINE[3], LINE, start, dir, s);
    var d' := At(LINE[last], LINE, next, dir, NearestStep(LINE[last], LINE, next, dir, window));
    assert d > 0.0 || d' > 0.0 by {
      ZeroStepHitsIndex(LINE[3], LINE, start, dir, window, 3);
      ZeroStepHitsIndex(LINE[last], LINE, next, dir, window, last);
      NotBothReached(start, dir, window, last);
    }
    WalkOfTwo(root, LINE[3], LINE[last], LINE, start, dir, window);
    MedianOfTwo(root(d), root(d'));
    RootOrder(root, d, d);
    RootOrder(root, d', d');
  }

  lemma NotBothReached(start: nat, dir: Direction, window: nat, last: nat)
    requires window < 3 && Swept(start, 8) && last == (if window == 0 then 3 else 4)
    ensures !(Reaches(start, 3, dir, window, 8) && Reaches(3, last, dir, window, 8))
  {
    assert start == 0 || start == 4;
  }

  lemma WalkOfTwo(root: Root, p: Point, q: Point, reference: seq<Point>, start: nat, dir: Direction, window: nat)
    requires reference != []
    ensures var s := NearestStep(p, reference, start, dir, window);
            var next := Advance(start, dir, s, |reference|);
            var s' := NearestStep(q, reference, next, dir, window);
            Walk(root, [p, q], reference, start, dir, window)
            == [root(At(p, reference, start, dir, s)), root(At(q, reference, next, dir, s'))]
  {
    var s := NearestStep(p, reference, start, dir, window);
    var next := Advance(start, dir, s, |reference|);
    assert [p, q][1..] == [q] && [q][1..] == [];
    assert Walk(root, [], reference, Advance(next, dir, NearestStep(q, reference, next, dir, window), |reference|),
        dir, window) == [];
  }

  lemma CountsOfTwo(a: real, b: real, x: real)
    ensures CountLe([a, b], x) == (if a <= x then 1 else 0) + (if b <= x then 1 else 0)
    ensures CountLt([a, b], x) == (if a < x then 1 else 0) + (if b < x then 1 else 0)
  {
    assert [a, b] == [a] + [b];
    CountsOfConcat([a], [b], x);
  }

  lemma MedianOfTwo(a: real, b: real)
    ensures Median([a, b]) == (a + b) / 2.0
  {
    var lo, hi := if a <= b then a else b, if a <= b then b else a;
    CountsOfTwo(a, b, lo);
    CountsOfTwo(a, b, hi);
    RankIsUnique([a, b], 0, Nth([a, b], 0), lo);
    RankIsUnique([a, b], 1, Nth([a, b], 1), hi);
  }

  // A following trace always scores 0 exactly when the window spans the gap between swept starts.
  lemma FollowingIsFreeIffWindowSpansStride(root: Root, window: nat)
    ensures FollowingIsFree(root, window) <==> window >= ALIGNMENT_START_STRIDE - 1
  {
    if window >= 3 {
      forall trace, reference, visited, dir, v |
        && trace != [] && reference != [] && Distinct(reference)
        && Follows(trace, reference, visited, dir, window)
        && IsLeastCandidate(root, trace, reference, window, v)
        ensures v == 0.0
      {
        FollowedTraceHasZeroResidual(root, trace, reference, visited, dir, window, v);
      }
    } else {
      var last := if window == 0 then 3 else 4;
      var trace, visited := [LINE[3], LINE[last]], [3, last];
      assert Advance(3, Forward, last - 3, 8) == last;
      assert Follows(trace, LINE, visited, Forward, window);
      var v := LeastCandidate(root, trace, LINE, window);
      var s, d :| Swept(s, 8) && Candidate(root, trace, LINE, window, s, d) == v;
      NarrowWindowMisses(root, window, s, d);
    }
  }

  // The least candidate score exists: there are finitely many swept starts.
  lemma LeastCandidate(root: Root, trace: seq<Point>, reference: seq<Point>, window: nat) returns (v: real)
    requires trace != [] && reference != []
    ensures IsLeastCandidate(root, trace, reference, window, v)
  {
    hide Candidate;
    var best := Infinity;
    var start := 0;
    while start < |reference|
      invariant start % ALIGNMENT_START_STRIDE == 0
      invariant BestSeen(root, trace, reference, window, start, 0, best)
    {
      var forward := Candidate(root, trace, reference, window, start, Forward);
      var better := if AtMost(best, forward) then best else Finite(forward);
      BestSeenStep(root, trace, reference, window, start, 0, best, Forward, better);
      var backward := Candidate(root, trace, reference, window, start, Backward);
      best := if AtMost(better, backward) then better else Finite(backward);
      BestSeenStep(root, trace, reference, window, start, 1, better, Backward, best);
      BestSeenNextStart(root, trace, reference, window, start, best);
      NextOnStride(start);
      start := start + ALIGNMENT_START_STRIDE;
    }
    BestSeenOfAll(root, trace, reference, window, start, best);
    v := best.value;
  }
}
