// The nearest-rank percentile of scripts/benchmark_openai_advisor_presets.py, with
// the percentile as an exact fraction in (0, 1].
module NearestRank {

  function Insert(x: int, sorted: seq<int>): seq<int> {
    if sorted == [] || x <= sorted[0] then [x] + sorted else [sorted[0]] + Insert(x, sorted[1..])
  }

  function Sorted(values: seq<int>): seq<int> {
    if values == [] then [] else Insert(values[0], Sorted(values[1..]))
  }

  // The number of samples not above a bound.
  function CountUpTo(values: seq<int>, bound: int): nat {
    if values == [] then 0 else (if values[0] <= bound then 1 else 0) + CountUpTo(values[1..], bound)
  }

  ghost predicate IsSorted(values: seq<int>) {
    forall i, j :: 0 <= i < j < |values| ==> values[i] <= values[j]
  }

  lemma {:induction false} InsertKeeps(x: int, sorted: seq<int>, bound: int)
    ensures CountUpTo(Insert(x, sorted), bound) == CountUpTo(sorted, bound) + if x <= bound then 1 else 0
    ensures |Insert(x, sorted)| == |sorted| + 1
  {
    if sorted != [] && sorted[0] < x { InsertKeeps(x, sorted[1..], bound); }
  }

  lemma {:induction false} InsertLeast(x: int, sorted: seq<int>)
    requires IsSorted(sorted)
    ensures IsSorted(Insert(x, sorted))
    ensures Insert(x, sorted)[0] == if sorted == [] || x <= sorted[0] then x else sorted[0]
  {
    if sorted != [] && sorted[0] < x {
      InsertLeast(x, sorted[1..]);
      var rest := Insert(x, sorted[1..]);
      assert sorted[0] <= rest[0];
      assert forall i :: 0 < i < |rest| ==> rest[0] <= rest[i];
    }
  }

  lemma {:induction false} SortedKeeps(values: seq<int>, bound: int)
    ensures IsSorted(Sorted(values)) && |Sorted(values)| == |values|
    ensures CountUpTo(Sorted(values), bound) == CountUpTo(values, bound)
  {
    if values != [] {
      SortedKeeps(values[1..], bound);
      InsertLeast(values[0], Sorted(values[1..]));
      InsertKeeps(values[0], Sorted(values[1..]), bound);
    }
  }

  // In a sorted list, entry k has k + 1 entries up to it and at most k below it.
  lemma {:induction false} CountInSorted(sorted: seq<int>, k: nat)
    requires IsSorted(sorted) && k < |sorted|
    ensures CountUpTo(sorted, sorted[k]) >= k + 1
    ensures CountUpTo(sorted, sorted[k] - 1) <= k
  {
    if k > 0 {
      CountInSorted(sorted[1..], k - 1);
    } else {
      NothingBelow(sorted, sorted[0] - 1);
    }
  }

  lemma {:induction false} NothingBelow(values: seq<int>, bound: int)
    requires forall i :: 0 <= i < |values| ==> bound < values[i]
    ensures CountUpTo(values, bound) == 0
  {
    if values != [] { NothingBelow(values[1..], bound); }
  }

  lemma {:induction false} CountGrows(values: seq<int>, a: int, b: int)
    requires a <= b
    ensures CountUpTo(values, a) <= CountUpTo(values, b)
  {
    if values != [] { CountGrows(values[1..], a, b); }
  }

  // ---- Ranks ----

  // The least m with m * b >= a.
  function CeilDiv(a: nat, b: nat): (m: nat)
    requires b > 0
  {
    (a + b - 1) / b
  }

  lemma CeilDivBounds(a: nat, b: nat)
    requires b > 0
    ensures CeilDiv(a, b) * b >= a && (CeilDiv(a, b) > 0 ==> (CeilDiv(a, b) - 1) * b < a)
  {
    var m := CeilDiv(a, b);
    assert a + b - 1 == m * b + (a + b - 1) % b;
    assert (m - 1) * b == m * b - b;
  }

  // The percentile p / q of n samples is the sample of this rank, counted from 1.
  function Rank(n: nat, p: nat, q: nat): nat
    requires q > 0
  {
    CeilDiv(n * p, q)
  }

  lemma RankInRange(n: nat, p: nat, q: nat)
    requires 0 < n && 0 < p <= q
    ensures 1 <= Rank(n, p, q) <= n
  {
    CeilDivBounds(n * p, q);
    var m := Rank(n, p, q);
    Scale(n, p, q);
    assert n * p > 0 by { Scale(n, 1, p); }
    if m > n { Scale(q, n, m - 1); }
  }

  lemma Scale(k: nat, a: nat, b: nat)
    requires a <= b
    ensures k * a <= k * b && a * k <= b * k
  {
  }

  function Percentile(values: seq<int>, p: nat, q: nat): int
    requires values != [] && 0 < p <= q
  {
    SortedKeeps(values, 0);
    RankInRange(|values|, p, q);
    Sorted(values)[Rank(|values|, p, q) - 1]
  }

  // The percentile is the one value with at least `Rank` samples up to it and
  // fewer than `Rank` below it.
  ghost predicate HasRank(values: seq<int>, rank: nat, x: int) {
    CountUpTo(values, x - 1) < rank <= CountUpTo(values, x)
  }

  lemma PercentileHasRank(values: seq<int>, p: nat, q: nat)
    requires values != [] && 0 < p <= q
    ensures HasRank(values, Rank(|values|, p, q), Percentile(values, p, q))
  {
    RankInRange(|values|, p, q);
    var x := Percentile(values, p, q);
    SortedKeeps(values, x);
    SortedKeeps(values, x - 1);
    CountInSorted(Sorted(values), Rank(|values|, p, q) - 1);
  }

  // At least |values| * p / q samples are up to the percentile, and fewer are below it.
  ghost predicate IsPercentile(values: seq<int>, p: nat, q: nat, x: int) {
    CountUpTo(values, x - 1) * q < |values| * p <= CountUpTo(values, x) * q
  }

  // Fewer than ceil(a / b) is less than a / b, and so many at least is at least that.
  lemma CeilDivSeparates(a: nat, b: nat, low: nat, high: nat)
    requires b > 0 && low < CeilDiv(a, b) <= high
    ensures low * b < a <= high * b
  {
    CeilDivBounds(a, b);
    Scale(b, low, CeilDiv(a, b) - 1);
    Scale(b, CeilDiv(a, b), high);
  }

  lemma PercentileIsBetween(values: seq<int>, p: nat, q: nat)
    requires values != [] && 0 < p <= q
    ensures IsPercentile(values, p, q, Percentile(values, p, q))
  {
    var x := Percentile(values, p, q);
    PercentileHasRank(values, p, q);
    CeilDivSeparates(|values| * p, q, CountUpTo(values, x - 1), CountUpTo(values, x));
  }

  // Only one value lies there.
  lemma PercentileIsUnique(values: seq<int>, p: nat, q: nat, x: int, y: int)
    requires 0 < q && IsPercentile(values, p, q, x) && IsPercentile(values, p, q, y)
    ensures x == y
  {
    if x < y {
      CountGrows(values, x, y - 1);
      Scale(q, CountUpTo(values, x), CountUpTo(values, y - 1));
    } else if y < x {
      CountGrows(values, y, x - 1);
      Scale(q, CountUpTo(values, y), CountUpTo(values, x - 1));
    }
  }

  ghost function Positions(values: seq<int>, bound: int): set<nat> {
    set i | 0 <= i < |values| && values[i] <= bound
  }

  lemma OneMorePosition(values: seq<int>, last: int, bound: int)
    ensures |Positions(values + [last], bound)| == |Positions(values, bound)| + if last <= bound then 1 else 0
  {
    var before, after := Positions(values, bound), Positions(values + [last], bound);
    assert |values| !in before;
    assert after == before + if last <= bound then {|values|} else {};
  }

  // Counting is over the positions of the list.
  lemma {:induction false} CountIsOfPositions(values: seq<int>, bound: int)
    ensures CountUpTo(values, bound) == |Positions(values, bound)|
  {
    if values == [] {
      assert Positions(values, bound) == {};
    } else {
      var last, rest := values[|values| - 1], values[..|values| - 1];
      assert values == rest + [last];
      CountIsOfPositions(rest, bound);
      CountConcat(rest, [last], bound);
      OneMorePosition(rest, last, bound);
    }
  }

  lemma RankOrders(values: seq<int>, m: nat, n: nat, x: int, y: int)
    requires m <= n && HasRank(values, m, x) && HasRank(values, n, y)
    ensures x <= y && (m == n ==> x == y)
  {
    if y < x { CountGrows(values, y, x - 1); }
    if m == n && x < y { CountGrows(values, x, y - 1); }
  }

  // A larger percentile is no smaller a sample.
  lemma PercentileMonotone(values: seq<int>, p: nat, q: nat, r: nat, s: nat)
    requires values != [] && 0 < p <= q && 0 < r <= s && p * s <= r * q
    ensures Percentile(values, p, q) <= Percentile(values, r, s)
  {
    PercentileHasRank(values, p, q);
    PercentileHasRank(values, r, s);
    RankMonotone(|values|, p, q, r, s);
    RankOrders(values, Rank(|values|, p, q), Rank(|values|, r, s), Percentile(values, p, q), Percentile(values, r, s));
  }

  lemma CeilDivLeast(a: nat, b: nat, m: nat)
    requires b > 0 && a <= m * b
    ensures CeilDiv(a, b) <= m
  {
    CeilDivBounds(a, b);
    if CeilDiv(a, b) > 0 {
      Cancel(CeilDiv(a, b) - 1, m, b);
    }
  }

  lemma Cancel(x: nat, y: nat, k: nat)
    requires x * k < y * k
    ensures x < y
  {
  }

  lemma CancelFactor(x: nat, y: nat, k: nat)
    requires 0 < k && x * k <= y * k
    ensures x <= y
  {
  }

  // The rank for the larger percentile reaches the smaller percentile too.
  lemma RankReaches(n: nat, p: nat, q: nat, r: nat, s: nat, b: nat)
    requires 0 < q && 0 < s && p * s <= r * q && b == Rank(n, r, s)
    ensures (n * p) * s <= (b * q) * s
  {
    CeilDivBounds(n * r, s);
    calc {
      (n * p) * s;
    ==  { Reorder(n, p, s); }
      n * (p * s);
    <=  { Scale(n, p * s, r * q); }
      n * (r * q);
    ==  { Reorder(n, r, q); }
      (n * r) * q;
    <=  { Scale(q, n * r, b * s); }
      (b * s) * q;
    ==  { Reorder(b, s, q); }
      (b * q) * s;
    }
  }

  lemma RankMonotone(n: nat, p: nat, q: nat, r: nat, s: nat)
    requires 0 < q && 0 < s && p * s <= r * q
    ensures Rank(n, p, q) <= Rank(n, r, s)
  {
    var b := Rank(n, r, s);
    RankReaches(n, p, q, r, s, b);
    CancelFactor(n * p, b * q, s);
    CeilDivLeast(n * p, q, b);
  }

  lemma Reorder(x: nat, y: nat, z: nat)
    ensures x * (y * z) == (x * y) * z == (x * z) * y
  {
  }

  lemma {:induction false} SameCounts(values: seq<int>, others: seq<int>, bound: int)
    requires multiset(values) == multiset(others)
    ensures CountUpTo(values, bound) == CountUpTo(others, bound)
  {
    if values == [] {
      assert |others| == |multiset(others)| == |multiset(values)| == 0;
    } else {
      assert values[0] in multiset(others);
      var k :| 0 <= k < |others| && others[k] == values[0];
      RemoveOne(values, others, k);
      SameCounts(values[1..], others[..k] + others[k + 1..], bound);
      CountWithout(others, k, bound);
    }
  }

  lemma RemoveOne(values: seq<int>, others: seq<int>, k: nat)
    requires values != [] && k < |others| && others[k] == values[0] && multiset(values) == multiset(others)
    ensures multiset(values[1..]) == multiset(others[..k] + others[k + 1..])
  {
    var x, front, back, rest := values[0], multiset(others[..k]), multiset(others[k + 1..]), multiset(values[1..]);
    assert values == [x] + values[1..] && others == others[..k] + [x] + others[k + 1..];
    assert multiset(values) == multiset{x} + rest && multiset(others) == front + multiset{x} + back;
    forall v ensures rest[v] == (front + back)[v] {
      assert multiset(values)[v] == multiset(others)[v];
    }
    assert rest == front + back;
  }

  lemma CountWithout(others: seq<int>, k: nat, bound: int)
    requires k < |others|
    ensures CountUpTo(others, bound)
         == CountUpTo(others[..k] + others[k + 1..], bound) + if others[k] <= bound then 1 else 0
  {
    assert others == others[..k] + [others[k]] + others[k + 1..];
    CountConcat(others[..k], others[k + 1..], bound);
    CountConcat(others[..k] + [others[k]], others[k + 1..], bound);
    CountConcat(others[..k], [others[k]], bound);
  }

  lemma {:induction false} CountConcat(a: seq<int>, b: seq<int>, bound: int)
    ensures CountUpTo(a + b, bound) == CountUpTo(a, bound) + CountUpTo(b, bound)
  {
    if a == [] {
      assert a + b == b;
    } else {
      assert (a + b)[1..] == a[1..] + b;
      CountConcat(a[1..], b, bound);
    }
  }

  // The order of the samples does not matter.
  lemma PercentileIsOrderFree(values: seq<int>, others: seq<int>, p: nat, q: nat)
    requires values != [] && others != [] && 0 < p <= q && multiset(values) == multiset(others)
    ensures Percentile(values, p, q) == Percentile(others, p, q)
  {
    assert |values| == |multiset(values)| && |others| == |multiset(others)|;
    var rank, x, y := Rank(|values|, p, q), Percentile(values, p, q), Percentile(others, p, q);
    PercentileHasRank(values, p, q);
    PercentileHasRank(others, p, q);
    SameCounts(values, others, y);
    SameCounts(values, others, y - 1);
    RankOrders(values, rank, rank, x, y);
  }
}
