// Instants and durations in nanoseconds, with the saturating differences of std::time.
module Clock {
  const SECOND: nat := 1_000_000_000

  // Instant::duration_since and Instant::elapsed: zero when start lies in the future.
  function Since(now: nat, start: nat): nat {
    if now >= start then now - start else 0
  }

  function SaturatingSub(a: nat, b: nat): nat {
    if a >= b then a - b else 0
  }

  // Duration::as_secs.
  function AsSecs(d: nat): nat {
    d / SECOND
  }

  lemma AsSecsAtMost(d: nat, secs: nat)
    ensures AsSecs(d) <= secs <==> d < (secs + 1) * SECOND
    ensures AsSecs(d) < secs <==> d < secs * SECOND
  {
  }

  // A store call and the clock reading it acts on; a run is a sequence of them.
  datatype Call<+Op> = Call(now: nat, op: Op)

  predicate ClockNeverRunsBack<Op>(start: nat, run: seq<Call<Op>>)
    decreases run
  {
    run != [] ==> start <= run[0].now && ClockNeverRunsBack(run[0].now, run[1..])
  }

  predicate Timed<Op>(run: seq<Call<Op>>) {
    forall i, j | 0 <= i <= j < |run| :: run[i].now <= run[j].now
  }

  function Without<Op>(run: seq<Call<Op>>, drops: Op -> bool): seq<Call<Op>> {
    if run == [] then [] else (if drops(run[0].op) then [] else [run[0]]) + Without(run[1..], drops)
  }
}
