// Order statistics of a sequence of reals, and the in-place median used by curve-trace scoring
// (src/challenge/curve_trace.rs). Ranks are described by counts, so every fact about the median
// follows from facts about how many elements lie at or below a bound.
module OrderStatistics {

  // An f64 result that may still be f64::INFINITY.
  datatype Distance = Infinity | Finite(value: real)

  function CountLe(s: seq<real>, x: real): nat {
    if s == [] then 0 else (if s[0] <= x then 1 else 0) + CountLe(s[1..], x)
  }

  function CountLt(s: seq<real>, x: real): nat {
    if s == [] then 0 else (if s[0] < x then 1 else 0) + CountLt(s[1..], x)
  }

  lemma {:induction false} CountsOfConcat(s: seq<real>, t: seq<real>, x: real)
    ensures CountLe(s + t, x) == CountLe(s, x) + CountLe(t, x)
    ensures CountLt(s + t, x) == CountLt(s, x) + CountLt(t, x)
  {
    if s == [] {
      assert s + t == t;
    } else {
      assert (s + t)[1..] == s[1..] + t;
      CountsOfConcat(s[1..], t, x);
    }
  }

  lemma {:induction false} CountBounds(s: seq<real>, x: real)
    ensures CountLt(s, x) <= CountLe(s, x) <= |s|
    ensures x in s ==> CountLt(s, x) < CountLe(s, x)
  {
    if s != [] {
      CountBounds(s[1..], x);
    }
  }

  lemma {:induction false} AllAtOrBelow(s: seq<real>, x: real)
    requires forall i | 0 <= i < |s| :: s[i] <= x
    ensures CountLe(s, x) == |s|
  {
    if s != [] {
      AllAtOrBelow(s[1..], x);
    }
  }

  lemma {:induction false} AllAtOrAbove(s: seq<real>, x: real)
    requires forall i | 0 <= i < |s| :: x <= s[i]
    ensures CountLt(s, x) == 0
  {
    if s != [] {
      AllAtOrAbove(s[1..], x);
    }
  }

  lemma {:induction false} CountLeBelowCountLt(s: seq<real>, x: real, y: real)
    requires x < y
    ensures CountLe(s, x) <= CountLt(s, y)
  {
    if s != [] {
      CountLeBelowCountLt(s[1..], x, y);
    }
  }

  function Without(t: seq<real>, k: nat): seq<real>
    requires k < |t|
  {
    t[..k] + t[k + 1..]
  }

  lemma WithoutMultiset(t: seq<real>, k: nat)
    requires k < |t|
    ensures multiset(Without(t, k)) == multiset(t) - multiset{t[k]}
  {
    assert t == t[..k] + [t[k]] + t[k + 1..];
  }

  lemma WithoutCounts(t: seq<real>, k: nat, x: real)
    requires k < |t|
    ensures CountLe(t, x) == CountLe(Without(t, k), x) + CountLe([t[k]], x)
    ensures CountLt(t, x) == CountLt(Without(t, k), x) + CountLt([t[k]], x)
  {
    assert t == t[..k] + ([t[k]] + t[k + 1..]);
    CountsOfConcat(t[..k], [t[k]] + t[k + 1..], x);
    CountsOfConcat([t[k]], t[k + 1..], x);
    CountsOfConcat(t[..k], t[k + 1..], x);
  }

  lemma {:induction false} CountsDependOnMultiset(s: seq<real>, t: seq<real>, x: real)
    requires multiset(s) == multiset(t)
    ensures CountLe(s, x) == CountLe(t, x)
    ensures CountLt(s, x) == CountLt(t, x)
  {
    if s == [] {
      assert |t| == |multiset(t)| == 0;
    } else {
      assert s[0] in multiset(t);
      var k :| 0 <= k < |t| && t[k] == s[0];
      WithoutMultiset(t, k);
      WithoutMultiset(s, 0);
      assert Without(s, 0) == s[1..];
      CountsDependOnMultiset(s[1..], Without(t, k), x);
      WithoutCounts(t, k, x);
    }
  }

  // x is the element at index k of s once s is sorted.
  predicate HasRank(s: seq<real>, k: nat, x: real) {
    CountLt(s, x) <= k < CountLe(s, x)
  }

  lemma RankIsUnique(s: seq<real>, k: nat, x: real, y: real)
    requires HasRank(s, k, x) && HasRank(s, k, y)
    ensures x == y
  {
    if x < y {
      CountLeBelowCountLt(s, x, y);
    } else if y < x {
      CountLeBelowCountLt(s, y, x);
    }
  }

  predicate Ascending(s: seq<real>) {
    forall i, j | 0 <= i < j < |s| :: s[i] <= s[j]
  }

  function Insert(x: real, s: seq<real>): seq<real> {
    if s == [] || x <= s[0] then [x] + s else [s[0]] + Insert(x, s[1..])
  }

  function Sorted(s: seq<real>): seq<real> {
    if s == [] then [] else Insert(s[0], Sorted(s[1..]))
  }

  lemma {:induction false} InsertIsSorted(x: real, s: seq<real>)
    requires Ascending(s)
    ensures Ascending(Insert(x, s))
    ensures multiset(Insert(x, s)) == multiset(s) + multiset{x}
  {
    if s != [] {
      assert s == [s[0]] + s[1..];
      if x > s[0] {
        InsertIsSorted(x, s[1..]);
        PrependKeepsAscending(s[0], Insert(x, s[1..]), x, s[1..]);
      }
    }
  }

  lemma PrependKeepsAscending(v: real, rest: seq<real>, x: real, tail: seq<real>)
    requires Ascending(rest) && multiset(rest) == multiset(tail) + multiset{x}
    requires v < x && forall i | 0 <= i < |tail| :: v <= tail[i]
    ensures Ascending([v] + rest)
  {
    forall i | 0 <= i < |rest|
      ensures v <= rest[i]
    {
      assert rest[i] in multiset(rest);
      assert rest[i] == x || rest[i] in tail;
    }
  }

  lemma {:induction false} SortedIsSorted(s: seq<real>)
    ensures Ascending(Sorted(s))
    ensures multiset(Sorted(s)) == multiset(s)
    ensures |Sorted(s)| == |s|
  {
    if s != [] {
      SortedIsSorted(s[1..]);
      InsertIsSorted(s[0], Sorted(s[1..]));
      WithoutMultiset(s, 0);
      assert Without(s, 0) == s[1..];
      assert s[0] in multiset(s);
    }
    assert |Sorted(s)| == |multiset(Sorted(s))| == |multiset(s)|;
  }

  // The element that ends at index k of a sequence split around it has rank k.
  lemma PartitionRank(s: seq<real>, k: nat)
    requires k < |s|
    requires forall i | 0 <= i < k :: s[i] <= s[k]
    requires forall i | k < i < |s| :: s[k] <= s[i]
    ensures HasRank(s, k, s[k])
  {
    var left, right, x := s[..k], s[k..], s[k];
    assert s == left + right;
    CountsOfConcat(left, right, x);
    CountBounds(left, x);
    CountBounds(right, x);
    AllAtOrBelow(left, x);
    AllAtOrAbove(right, x);
    assert right[0] == x;
  }

  function Nth(s: seq<real>, k: nat): (x: real)
    requires k < |s|
    ensures HasRank(s, k, x)
  {
    SortedIsSorted(s);
    PartitionRank(Sorted(s), k);
    CountsDependOnMultiset(s, Sorted(s), Sorted(s)[k]);
    Sorted(s)[k]
  }

  // The median of the sorted sequence: the middle element, or the mean of the two middle ones.
  function Median(s: seq<real>): real
    requires s != []
  {
    if |s| % 2 == 1 then Nth(s, |s| / 2) else (Nth(s, |s| / 2 - 1) + Nth(s, |s| / 2)) / 2.0
  }

  lemma MedianDependsOnMultiset(s: seq<real>, t: seq<real>)
    requires s != [] && multiset(s) == multiset(t)
    ensures |s| == |t| && Median(s) == Median(t)
  {
    assert |s| == |multiset(s)| == |multiset(t)| == |t|;
    forall k | 0 <= k < |s|
      ensures Nth(s, k) == Nth(t, k)
    {
      CountsDependOnMultiset(s, t, Nth(t, k));
      RankIsUnique(s, k, Nth(s, k), Nth(t, k));
    }
  }

  lemma {:induction false} CountLeAntitone(s: seq<real>, t: seq<real>, x: real)
    requires |s| == |t|
    requires forall i | 0 <= i < |s| :: s[i] <= t[i]
    ensures CountLe(t, x) <= CountLe(s, x)
  {
    if s != [] {
      CountLeAntitone(s[1..], t[1..], x);
    }
  }

  lemma NthMonotone(s: seq<real>, t: seq<real>, k: nat)
    requires |s| == |t| && k < |s|
    requires forall i | 0 <= i < |s| :: s[i] <= t[i]
    ensures Nth(s, k) <= Nth(t, k)
  {
    var x, y := Nth(s, k), Nth(t, k);
    if y < x {
      CountLeAntitone(s, t, y);
      CountLeBelowCountLt(s, y, x);
    }
  }

  // Raising residuals one by one never lowers the median.
  lemma MedianMonotone(s: seq<real>, t: seq<real>)
    requires |s| == |t| > 0
    requires forall i | 0 <= i < |s| :: s[i] <= t[i]
    ensures Median(s) <= Median(t)
  {
    NthMonotone(s, t, |s| / 2);
    if |s| % 2 == 0 {
      NthMonotone(s, t, |s| / 2 - 1);
    }
  }

  lemma NthWithin(s: seq<real>, k: nat, lo: real, hi: real)
    requires k < |s|
    requires forall i | 0 <= i < |s| :: lo <= s[i] <= hi
    ensures lo <= Nth(s, k) <= hi
  {
    var x := Nth(s, k);
    if x < lo {
      CountLeBelowCountLt(s, x, lo);
      AllAtOrAbove(s, lo);
    } else if hi < x {
      CountLeBelowCountLt(s, hi, x);
      AllAtOrBelow(s, hi);
    }
  }

  lemma MedianWithin(s: seq<real>, lo: real, hi: real)
    requires s != []
    requires forall i | 0 <= i < |s| :: lo <= s[i] <= hi
    ensures lo <= Median(s) <= hi
  {
    NthWithin(s, |s| / 2, lo, hi);
    if |s| % 2 == 0 {
      NthWithin(s, |s| / 2 - 1, lo, hi);
    }
  }

  // In ascending order the median is the middle element, or as far from one of the two middle
  // elements as from the other.
  lemma MedianOfAscending(s: seq<real>)
    requires s != [] && Ascending(s)
    ensures |s| % 2 == 1 ==> Median(s) == s[|s| / 2]
    ensures |s| % 2 == 0 ==> Median(s) - s[|s| / 2 - 1] == s[|s| / 2] - Median(s)
  {
    NthOfAscending(s, |s| / 2);
    if |s| % 2 == 0 {
      NthOfAscending(s, |s| / 2 - 1);
    }
  }

  lemma NthOfAscending(s: seq<real>, k: nat)
    requires k < |s| && Ascending(s)
    ensures Nth(s, k) == s[k]
  {
    PartitionRank(s, k);
    RankIsUnique(s, k, Nth(s, k), s[k]);
  }

  function Negated(s: seq<real>): (t: seq<real>)
    ensures |t| == |s| && forall i | 0 <= i < |s| :: t[i] == -s[i]
  {
    seq(|s|, i requires 0 <= i < |s| => -s[i])
  }

  lemma {:induction false} NegatedCounts(s: seq<real>, x: real)
    ensures CountLt(Negated(s), -x) == |s| - CountLe(s, x)
    ensures CountLe(Negated(s), -x) == |s| - CountLt(s, x)
  {
    if s != [] {
      NegatedCounts(s[1..], x);
      assert Negated(s)[1..] == Negated(s[1..]);
    }
  }

  lemma NthOfNegated(s: seq<real>, k: nat)
    requires k < |s|
    ensures Nth(Negated(s), k) == -Nth(s, |s| - 1 - k)
  {
    var x := Nth(s, |s| - 1 - k);
    NegatedCounts(s, x);
    RankIsUnique(Negated(s), k, Nth(Negated(s), k), -x);
  }

  // The median favours neither side: turning the signs of all elements turns its sign.
  lemma MedianOfNegated(s: seq<real>)
    requires s != []
    ensures Median(Negated(s)) == -Median(s)
  {
    NthOfNegated(s, |s| / 2);
    if |s| % 2 == 0 {
      NthOfNegated(s, |s| / 2 - 1);
    }
  }

  // How many elements exceed b: the counter kept by the pruned search.
  function Exceeding(s: seq<real>, b: real): nat {
    CountBounds(s, b);
    |s| - CountLe(s, b)
  }

  lemma NthExceeds(s: seq<real>, k: nat, b: real)
    requires k < |s| && CountLe(s, b) <= k
    ensures Nth(s, k) > b
  {
    var x := Nth(s, k);
    if x < b {
      CountLeBelowCountLt(s, x, b);
      CountBounds(s, b);
    }
  }

  // More than floor(n / 2) elements above b force the median above b, for odd and even n.
  lemma MajorityAboveForcesMedian(s: seq<real>, b: real)
    requires s != [] && Exceeding(s, b) > |s| / 2
    ensures Median(s) > b
  {
    NthExceeds(s, |s| / 2, b);
    if |s| % 2 == 0 {
      NthExceeds(s, |s| / 2 - 1, b);
    }
  }

  // The bound floor(n / 2) cannot be lowered: exactly n / 2 elements above b leave room for a
  // median at or below b, so a pass abandoned one element sooner could have been the best.
  lemma HalfAboveDoesNotForceMedian(m: nat, b: real)
    requires m > 0
    ensures exists s: seq<real> :: |s| == 2 * m && Exceeding(s, b) == m && Median(s) <= b
  {
    var low, high := seq(m, _ => b - 1.0), seq(m, _ => b + 1.0);
    var s := low + high;
    CountsOfConcat(low, high, b);
    AllAtOrBelow(low, b);
    AllAtOrAbove(high, b + 1.0);
    CountLeBelowCountLt(high, b, b + 1.0);
    PartitionRank(s, m - 1);
    PartitionRank(s, m);
    RankIsUnique(s, m - 1, Nth(s, m - 1), s[m - 1]);
    RankIsUnique(s, m, Nth(s, m), s[m]);
    assert |s| == 2 * m && Exceeding(s, b) == m && Median(s) <= b;
  }

  method Swap(xs: array<real>, i: nat, j: nat)
    requires i <= j < xs.Length
    modifies xs
    ensures multiset(xs[..]) == multiset(old(xs[..]))
    ensures xs[i] == old(xs[j]) && xs[j] == old(xs[i])
    ensures forall k | 0 <= k < xs.Length && k != i && k != j :: xs[k] == old(xs[k])
  {
    xs[i], xs[j] := xs[j], xs[i];
  }

  method LeastFrom(xs: array<real>, i: nat) returns (least: nat)
    requires i < xs.Length
    ensures i <= least < xs.Length
    ensures forall q | i <= q < xs.Length :: xs[least] <= xs[q]
  {
    least := i;
    for j := i + 1 to xs.Length
      invariant i <= least < xs.Length
      invariant forall q | i <= q < j :: xs[least] <= xs[q]
    {
      if xs[j] < xs[least] {
        least := j;
      }
    }
  }

  // Stands for the standard library's select_nth_unstable_by: only the contract is used, and it
  // is the documented one. The element of rank k ends at index k between the smaller and the
  // larger ones.
  method SelectNth(xs: array<real>, k: nat)
    requires k < xs.Length
    modifies xs
    ensures multiset(xs[..]) == multiset(old(xs[..]))
    ensures forall i | 0 <= i < k :: xs[i] <= xs[k]
    ensures forall i | k < i < xs.Length :: xs[k] <= xs[i]
  {
    for i := 0 to k + 1
      invariant multiset(xs[..]) == multiset(old(xs[..]))
      invariant forall p, q | 0 <= p < i && p < q < xs.Length :: xs[p] <= xs[q]
    {
      var least := LeastFrom(xs, i);
      Swap(xs, i, least);
    }
  }

  // The maximum of a nonempty left partition is the element of rank k - 1.
  lemma LeftMaximumRank(s: seq<real>, k: nat, lower: real)
    requires 0 < k < |s|
    requires forall i | k < i < |s| :: s[k] <= s[i]
    requires forall i | 0 <= i < k :: s[i] <= s[k] && s[i] <= lower
    requires lower in s[..k]
    ensures HasRank(s, k - 1, lower)
  {
    var left, right := s[..k], s[k..];
    assert s == left + right;
    CountsOfConcat(left, right, lower);
    CountBounds(left, lower);
    AllAtOrBelow(left, lower);
    AllAtOrAbove(right, lower);
  }

  // median: reorders xs and returns the median of its contents, infinity when it is empty.
  method MedianInPlace(xs: array<real>) returns (m: Distance)
    modifies xs
    ensures multiset(xs[..]) == multiset(old(xs[..]))
    ensures xs.Length == 0 ==> m == Infinity
    ensures xs.Length > 0 ==> m == Finite(Median(old(xs[..])))
  {
    hide Nth;
    if xs.Length == 0 {
      return Infinity;
    }
    var mid := xs.Length / 2;
    SelectNth(xs, mid);
    var upper := xs[mid];
    PartitionRank(xs[..], mid);
    RankIsUnique(xs[..], mid, Nth(xs[..], mid), upper);
    MedianDependsOnMultiset(xs[..], old(xs[..]));
    if xs.Length % 2 == 1 {
      return Finite(upper);
    }
    var lower := xs[0];
    for i := 1 to mid
      invariant lower in xs[..mid]
      invariant forall p | 0 <= p < i :: xs[p] <= lower
    {
      if xs[i] > lower {
        assert xs[i] in xs[..mid];
        lower := xs[i];
      }
    }
    LeftMaximumRank(xs[..], mid, lower);
    RankIsUnique(xs[..], mid - 1, Nth(xs[..], mid - 1), lower);
    return Finite((lower + upper) / 2.0);
  }
}
