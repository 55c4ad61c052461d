// The alignment search of src/challenge/curve_trace.rs: every fourth start index in both
// directions, a greedy windowed walk over the cyclic curve, early abandonment of a candidate
// that cannot win, and the median residual of the best candidate.
module Alignment {
  import opened OrderStatistics

  datatype Point = Point(x: real, y: real)

  datatype Direction = Forward | Backward

  const ALIGNMENT_START_STRIDE: nat := 4

  // What the search needs of the square root on nonnegative reals.
  ghost predicate IsRoot(f: real -> real) {
    && f(0.0) == 0.0
    && forall a, b | 0.0 <= a < b :: f(a) < f(b)
  }

  type Root = f: real -> real | IsRoot(f) witness (a: real) => a

  lemma RootOrder(root: Root, a: real, b: real)
    requires 0.0 <= a <= b
    ensures 0.0 <= root(a) <= root(b)
    ensures a > 0.0 ==> root(a) > 0.0
  {
    assert IsRoot(root);
  }

  function Square(a: real): real {
    a * a
  }

  lemma SquareSign(a: real)
    ensures Square(a) >= 0.0
    ensures a != 0.0 ==> Square(a) > 0.0
    ensures a == 0.0 ==> Square(a) == 0.0
  {
    if a != 0.0 {
      calc {
        Square(a);
      ==
        a * a;
      >
        0.0;
      }
    } else {
      calc {
        Square(a);
      ==
        a * a;
      ==
        0.0;
      }
    }
  }

  function SquaredDistance(p: Point, q: Point): (d: real)
    ensures d >= 0.0
    ensures p == q ==> d == 0.0
    ensures p != q ==> d > 0.0
  {
    SquareSign(p.x - q.x);
    SquareSign(p.y - q.y);
    Square(p.x - q.x) + Square(p.y - q.y)
  }

  // It is the Euclidean one: the square of the difference where the points share a coordinate, the
  // same for both coordinates, and additive over the corner between the points.
  lemma SquaredDistanceIsEuclidean(p: Point, q: Point)
    ensures p.y == q.y ==> SquaredDistance(p, q) == (p.x - q.x) * (p.x - q.x)
    ensures SquaredDistance(p, q) == SquaredDistance(Point(p.y, p.x), Point(q.y, q.x))
    ensures var corner := Point(q.x, p.y);
            SquaredDistance(p, q) == SquaredDistance(p, corner) + SquaredDistance(corner, q)
    ensures SquaredDistance(p, q) == SquaredDistance(q, p)
  {
    assert Square(p.x - q.x) == Square(q.x - p.x);
    assert Square(p.y - q.y) == Square(q.y - p.y);
  }

  // The index reached from cursor after k steps, wrapped as rem_euclid does.
  function Advance(cursor: int, dir: Direction, k: nat, n: nat): (j: nat)
    requires n > 0
    ensures j < n
  {
    if dir.Forward? then (cursor + k) % n else (cursor - k) % n
  }

  // A step goes one index on, or one back, around the end; k steps are k single ones.
  lemma AdvanceStepByStep(cursor: nat, dir: Direction, k: nat, n: nat)
    requires cursor < n
    ensures Advance(cursor, dir, 0, n) == cursor
    ensures Advance(cursor, Forward, 1, n) == if cursor == n - 1 then 0 else cursor + 1
    ensures Advance(cursor, Backward, 1, n) == if cursor == 0 then n - 1 else cursor - 1
    ensures Advance(cursor, dir, k + 1, n) == Advance(Advance(cursor, dir, k, n), dir, 1, n)
  {
    ModOfSmall(cursor, n);
    ModOfSmall(n - 1, n);
    if dir.Forward? {
      ModStep(cursor + k, 1, n);
    } else {
      ModStep(cursor - k, -1, n);
    }
    if cursor == n - 1 {
      ModUnique(cursor + 1, 1, 0, n);
    } else {
      ModOfSmall(cursor + 1, n);
    }
    if cursor == 0 {
      ModUnique(-1, -1, n - 1, n);
    } else {
      ModOfSmall(cursor - 1, n);
    }
  }

  lemma ModUnique(a: int, q: int, r: int, n: nat)
    requires 0 <= r < n && a == q * n + r
    ensures a % n == r
  {
    var d := a / n - q;
    assert a == (a / n) * n + a % n;
    assert d * n == r - a % n;
    assert d == 0;
  }

  lemma ModOfSmall(r: int, n: nat)
    requires 0 <= r < n
    ensures r % n == r
  {
    ModUnique(r, 0, r, n);
  }

  lemma ModStep(a: int, b: int, n: nat)
    requires n > 0
    ensures (a + b) % n == (a % n + b) % n
  {
    var c := a % n + b;
    assert a + b == (a / n) * n + c && c == (c / n) * n + c % n;
    assert (a / n) * n + (c / n) * n == (a / n + c / n) * n;
    ModUnique(a + b, a / n + c / n, c % n, n);
  }

  // The first step within reach whose reference point is nearest to p.
  function NearestStep(p: Point, reference: seq<Point>, cursor: nat, dir: Direction, reach: nat): (s: nat)
    requires reference != []
    ensures s <= reach
    ensures forall k | 0 <= k <= reach :: At(p, reference, cursor, dir, s) <= At(p, reference, cursor, dir, k)
    ensures forall k | 0 <= k < s :: At(p, reference, cursor, dir, s) < At(p, reference, cursor, dir, k)
  {
    if reach == 0 then 0
    else
      var s := NearestStep(p, reference, cursor, dir, reach - 1);
      if At(p, reference, cursor, dir, reach) < At(p, reference, cursor, dir, s) then reach else s
  }

  function At(p: Point, reference: seq<Point>, cursor: nat, dir: Direction, k: nat): (d: real)
    requires reference != []
    ensures d >= 0.0
  {
    SquaredDistance(p, reference[Advance(cursor, dir, k, |reference|)])
  }

  // The full greedy walk, without abandonment: one residual per trace point.
  function Walk(root: Root, trace: seq<Point>, reference: seq<Point>, cursor: nat, dir: Direction, window: nat)
    : (residuals: seq<real>)
    requires reference != []
    ensures |residuals| == |trace|
  {
    if trace == [] then []
    else
      var s := NearestStep(trace[0], reference, cursor, dir, window);
      [root(At(trace[0], reference, cursor, dir, s))] +
      Walk(root, trace[1..], reference, Advance(cursor, dir, s, |reference|), dir, window)
  }

  // The score of one candidate of the sweep.
  function Candidate(root: Root, trace: seq<Point>, reference: seq<Point>, window: nat, start: nat,
      dir: Direction): real
    requires reference != [] && trace != []
  {
    Median(Walk(root, trace, reference, start, dir, window))
  }

  predicate Swept(start: nat, n: nat) {
    start < n && start % ALIGNMENT_START_STRIDE == 0
  }

  // v is the least candidate score over every swept start and both directions.
  ghost predicate IsLeastCandidate(root: Root, trace: seq<Point>, reference: seq<Point>, window: nat, v: real)
    requires reference != [] && trace != []
  {
    && (exists start, dir :: Swept(start, |reference|) && Candidate(root, trace, reference, window, start, dir) == v)
    && (forall start, dir :: Swept(start, |reference|) ==> v <= Candidate(root, trace, reference, window, start, dir))
  }

  function Shift(p: Point, offset: Point): Point {
    Point(p.x - offset.x, p.y - offset.y)
  }

  function Shifted(trace: seq<Point>, offset: Point): (s: seq<Point>)
    ensures |s| == |trace|
    ensures forall i | 0 <= i < |trace| :: s[i] == Shift(trace[i], offset)
  {
    seq(|trace|, i requires 0 <= i < |trace| => Shift(trace[i], offset))
  }

  method SearchWindow(p: Point, reference: seq<Point>, cursor: nat, dir: Direction, window: nat)
    returns (bestDistance: real, bestIndex: nat)
    requires cursor < |reference|
    ensures var s := NearestStep(p, reference, cursor, dir, window);
            bestDistance == At(p, reference, cursor, dir, s) && bestIndex == Advance(cursor, dir, s, |reference|)
  {
    hide SquaredDistance, Advance;
    var best := Infinity;
    bestDistance, bestIndex := 0.0, cursor;
    ghost var s := 0;
    for step := 0 to window + 1
      invariant best == if step == 0 then Infinity else Finite(bestDistance)
      invariant step > 0 ==> s == NearestStep(p, reference, cursor, dir, step - 1)
      invariant step > 0 ==> bestDistance == At(p, reference, cursor, dir, s)
      invariant step > 0 ==> bestIndex == Advance(cursor, dir, s, |reference|)
    {
      var j := Advance(cursor, dir, step, |reference|);
      var d := SquaredDistance(p, reference[j]);
      if best.Infinity? || d < best.value {
        best := Finite(d);
        bestDistance, bestIndex, s := d, j, step;
      }
    }
  }

  predicate Above(d: real, best: Distance) {
    best.Finite? && d > best.value
  }

  // Where the cursor stands before point i of the walk.
  function CursorAt(trace: seq<Point>, reference: seq<Point>, start: nat, dir: Direction, window: nat, i: nat): (c: nat)
    requires start < |reference| && i <= |trace|
    ensures c < |reference|
  {
    if i == 0 then start
    else
      var c := CursorAt(trace, reference, start, dir, window, i - 1);
      Advance(c, dir, NearestStep(trace[i - 1], reference, c, dir, window), |reference|)
  }

  lemma {:induction false} CursorOfTail(
      trace: seq<Point>, reference: seq<Point>, start: nat, dir: Direction, window: nat, i: nat)
    requires start < |reference| && i < |trace|
    ensures CursorAt(trace, reference, start, dir, window, i + 1)
            == CursorAt(trace[1..], reference, CursorAt(trace, reference, start, dir, window, 1), dir, window, i)
  {
    hide Advance, NearestStep;
    if i > 0 {
      CursorOfTail(trace, reference, start, dir, window, i - 1);
      assert trace[1..][i - 1] == trace[i];
    }
  }

  // Point i of the walk is measured from there.
  lemma {:induction false} WalkAt(
      root: Root, trace: seq<Point>, reference: seq<Point>, start: nat, dir: Direction, window: nat, i: nat)
    requires start < |reference| && i < |trace|
    ensures var c := CursorAt(trace, reference, start, dir, window, i);
            Walk(root, trace, reference, start, dir, window)[i]
            == root(At(trace[i], reference, c, dir, NearestStep(trace[i], reference, c, dir, window)))
  {
    hide Advance, NearestStep, At;
    if i > 0 {
      var next := CursorAt(trace, reference, start, dir, window, 1);
      WalkAt(root, trace[1..], reference, next, dir, window, i - 1);
      CursorOfTail(trace, reference, start, dir, window, i - 1);
      assert next == Advance(start, dir, NearestStep(trace[0], reference, start, dir, window), |reference|);
    }
  }

  // One point of the walk: its residual, and where the cursor goes.
  method TakeStep(root: Root, trace: seq<Point>, i: nat, reference: seq<Point>, start: nat, cursor: nat, dir: Direction,
                  window: nat) returns (d: real, next: nat)
    requires start < |reference| && i < |trace| && cursor == CursorAt(trace, reference, start, dir, window, i)
    ensures next == CursorAt(trace, reference, start, dir, window, i + 1)
    ensures d == Walk(root, trace, reference, start, dir, window)[i]
  {
    WalkAt(root, trace, reference, start, dir, window, i);
    hide At, NearestStep, Walk;
    var d2, index := SearchWindow(trace[i], reference, cursor, dir, window);
    return root(d2), index;
  }

  // One pass of the sweep. It is abandoned only when the full walk's median is above best.
  method ScanTrace(root: Root, trace: seq<Point>, reference: seq<Point>, start: nat, dir: Direction, window: nat,
                   best: Distance, residuals: array<real>) returns (abandoned: bool)
    requires start < |reference| && residuals.Length == |trace| > 0
    modifies residuals
    ensures !abandoned ==> residuals[..] == Walk(root, trace, reference, start, dir, window)
    ensures abandoned ==> Above(Candidate(root, trace, reference, window, start, dir), best)
  {
    var half := |trace| / 2;
    var cursor: nat, exceeding: nat := start, 0;
    ghost var full := Walk(root, trace, reference, start, dir, window);
    assert Counted(full, 0, best) == 0 && cursor == CursorAt(trace, reference, start, dir, window, 0);
    hide *;
    for i := 0 to |trace|
      invariant cursor == CursorAt(trace, reference, start, dir, window, i)
      invariant Recorded(residuals[..], full, i)
      invariant exceeding == Counted(full, i, best)
    {
      var d, next := TakeStep(root, trace, i, reference, start, cursor, dir, window);
      CountedSteps(full, i, best);
      if Above(d, best) {
        exceeding := exceeding + 1;
        if exceeding > half {
          Decided(full, i + 1, best);
          return true;
        }
      }
      Record(residuals, i, d, full);
      cursor := next;
    }
    AllRecorded(residuals[..], full);
    return false;
  }

  // The buffer holds the walk's first i residuals.
  ghost predicate Recorded(residuals: seq<real>, full: seq<real>, i: nat) {
    |residuals| == |full| && i <= |full| && residuals[..i] == full[..i]
  }

  lemma AllRecorded(residuals: seq<real>, full: seq<real>)
    requires Recorded(residuals, full, |full|)
    ensures residuals == full
  {
    assert residuals[..|full|] == residuals && full[..|full|] == full;
  }

  // The next residual goes behind the ones already recorded.
  method Record(residuals: array<real>, i: nat, d: real, ghost full: seq<real>)
    requires i < |full| && Recorded(residuals[..], full, i) && d == full[i]
    modifies residuals
    ensures Recorded(residuals[..], full, i + 1)
  {
    ghost var was := residuals[..];
    residuals[i] := d;
    assert residuals[..] == was[i := d];
    assert full[..i + 1] == full[..i] + [d];
    assert residuals[..][..i + 1] == was[..i] + [d];
  }

  // The residuals above the best score so far among the first i.
  ghost function Counted(full: seq<real>, i: nat, best: Distance): nat
    requires i <= |full|
  {
    if best.Finite? then Exceeding(full[..i], best.value) else 0
  }

  lemma CountedSteps(full: seq<real>, i: nat, best: Distance)
    requires i < |full|
    ensures Counted(full, i + 1, best) == Counted(full, i, best) + (if Above(full[i], best) then 1 else 0)
  {
    if best.Finite? {
      ExceedingSteps(full, i, best.value);
    }
  }

  lemma Decided(full: seq<real>, i: nat, best: Distance)
    requires i <= |full| && Counted(full, i, best) > |full| / 2
    ensures Above(Median(full), best)
  {
    AbandonmentIsExact(full, i, best.value);
  }

  lemma ExceedingSteps(s: seq<real>, i: nat, b: real)
    requires i < |s|
    ensures Exceeding(s[..i + 1], b) == Exceeding(s[..i], b) + (if s[i] > b then 1 else 0)
  {
    assert s[..i + 1] == s[..i] + [s[i]];
    CountsOfConcat(s[..i], [s[i]], b);
  }

  // A prefix of the walk with too many large residuals already decides the whole candidate.
  lemma AbandonmentIsExact(s: seq<real>, i: nat, b: real)
    requires s != [] && i <= |s| && Exceeding(s[..i], b) > |s| / 2
    ensures Median(s) > b
  {
    assert s == s[..i] + s[i..];
    CountsOfConcat(s[..i], s[i..], b);
    CountBounds(s[i..], b);
    MajorityAboveForcesMedian(s, b);
  }

  predicate AtMost(best: Distance, v: real) {
    best.Finite? && best.value <= v
  }

  // The candidates scored before direction number k of start.
  predicate Seen(s: nat, d: Direction, start: nat, k: nat) {
    s < start || (s == start && k > if d.Forward? then 0 else 1)
  }

  ghost predicate BestSeen(root: Root, trace: seq<Point>, reference: seq<Point>, window: nat, start: nat, k: nat,
                           best: Distance)
    requires reference != [] && trace != []
  {
    && (best.Infinity? ==> start == k == 0)
    && (best.Finite? ==>
          exists s, d :: Swept(s, |reference|) && Candidate(root, trace, reference, window, s, d) == best.value)
    && (forall s, d | Swept(s, |reference|) && Seen(s, d, start, k) ::
          AtMost(best, Candidate(root, trace, reference, window, s, d)))
  }

  // Scoring one more candidate: keep the old best when the new score does not beat it.
  lemma BestSeenStep(root: Root, trace: seq<Point>, reference: seq<Point>, window: nat, start: nat, k: nat,
                     best: Distance, dir: Direction, best': Distance)
    requires reference != [] && trace != []
    requires BestSeen(root, trace, reference, window, start, k, best)
    requires Swept(start, |reference|) && k < 2 && dir == (if k == 0 then Forward else Backward)
    requires var score := Candidate(root, trace, reference, window, start, dir);
             best' == if AtMost(best, score) then best else Finite(score)
    ensures BestSeen(root, trace, reference, window, start, k + 1, best')
  {
    hide Candidate;
    var score := Candidate(root, trace, reference, window, start, dir);
    forall s, d | Swept(s, |reference|) && Seen(s, d, start, k + 1)
      ensures AtMost(best', Candidate(root, trace, reference, window, s, d))
    {
      if !Seen(s, d, start, k) {
        assert s == start && d == dir;
      }
    }
  }

  lemma SweptGap(s: nat, start: nat)
    requires s % ALIGNMENT_START_STRIDE == start % ALIGNMENT_START_STRIDE == 0
    requires s < start + ALIGNMENT_START_STRIDE
    ensures s <= start
  {
  }

  lemma NextOnStride(start: nat)
    requires start % ALIGNMENT_START_STRIDE == 0
    ensures (start + ALIGNMENT_START_STRIDE) % ALIGNMENT_START_STRIDE == 0
  {
  }

  lemma BestSeenNextStart(root: Root, trace: seq<Point>, reference: seq<Point>, window: nat, start: nat, best: Distance)
    requires reference != [] && trace != [] && start % ALIGNMENT_START_STRIDE == 0
    requires BestSeen(root, trace, reference, window, start, 2, best)
    ensures BestSeen(root, trace, reference, window, start + ALIGNMENT_START_STRIDE, 0, best)
  {
    hide Candidate;
    var next := start + ALIGNMENT_START_STRIDE;
    forall s, d | Swept(s, |reference|) && Seen(s, d, next, 0)
      ensures AtMost(best, Candidate(root, trace, reference, window, s, d))
    {
      SweptGap(s, start);
    }
  }

  lemma BestSeenOfAll(root: Root, trace: seq<Point>, reference: seq<Point>, window: nat, start: nat, best: Distance)
    requires reference != [] && trace != [] && start >= |reference|
    requires BestSeen(root, trace, reference, window, start, 0, best)
    ensures best.Finite? && IsLeastCandidate(root, trace, reference, window, best.value)
  {
    hide Candidate;
    forall s, d | Swept(s, |reference|)
      ensures AtMost(best, Candidate(root, trace, reference, window, s, d))
    {
      assert Seen(s, d, start, 0);
    }
  }

  // One candidate of the sweep: scan, then take the median unless the scan was abandoned.
  method ScoreCandidate(root: Root, trace: seq<Point>, reference: seq<Point>, start: nat, dir: Direction, window: nat,
                        best: Distance, residuals: array<real>) returns (best': Distance)
    requires start < |reference| && residuals.Length == |trace| > 0
    modifies residuals
    ensures var score := Candidate(root, trace, reference, window, start, dir);
            best' == if AtMost(best, score) then best else Finite(score)
  {
    hide Median, Walk;
    best' := best;
    var abandoned := ScanTrace(root, trace, reference, start, dir, window, best, residuals);
    if !abandoned {
      var med := MedianInPlace(residuals);
      if best.Infinity? || med.value < best.value {
        best' := med;
      }
    }
  }

  // alignment_residual. Pruning is exact: the result is the least median over all full walks.
  method AlignmentResidual(root: Root, trace: seq<Point>, reference: seq<Point>, offset: Point, window: nat)
    returns (best: Distance)
    ensures best.Infinity? <==> reference == [] || trace == []
    ensures best.Finite? ==> IsLeastCandidate(root, Shifted(trace, offset), reference, window, best.value)
  {
    hide Candidate, IsLeastCandidate;
    best := Infinity;
    if reference == [] || trace == [] {
      return;
    }
    var shifted := Shifted(trace, offset);
    var residuals := new real[|trace|];
    var start := 0;
    while start < |reference|
      invariant start % ALIGNMENT_START_STRIDE == 0
      invariant BestSeen(root, shifted, reference, window, start, 0, best)
    {
      for k := 0 to 2
        invariant BestSeen(root, shifted, reference, window, start, k, best)
      {
        var dir := if k == 0 then Forward else Backward;
        var best' := ScoreCandidate(root, shifted, reference, start, dir, window, best, residuals);
        BestSeenStep(root, shifted, reference, window, start, k, best, dir, best');
        best := best';
      }
      BestSeenNextStart(root, shifted, reference, window, start, best);
      NextOnStride(start);
      start := start + ALIGNMENT_START_STRIDE;
    }
    BestSeenOfAll(root, shifted, reference, window, start, best);
  }
}
