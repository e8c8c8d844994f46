// Closed forms for the pair denominator and the number of feasible tuples when
// exactly two axes restrict each other, and the nine axes of
// tests/test_acceptance_option_pairs.py as an instance.
module OptionCounts {
  import opened Sequences
  import opened OptionPairs

  // Axes `p` and `q` (p < q) restrict each other by `allowed`; the rest are free.
  ghost predicate Restricts(axes: Axes, p: nat, q: nat) {
    p < q < |axes| && ValidAxes(axes)
  }

  function Compatible(allowed: (string, string) -> bool, p: nat, q: nat): seq<string> -> bool {
    values => p < |values| && q < |values| && allowed(values[p], values[q])
  }

  // Python's `any` over a list of values.
  predicate Any(values: seq<string>, ok: string -> bool) {
    values != [] && (ok(values[0]) || Any(values[1..], ok))
  }

  lemma {:induction false} AnyWitness(values: seq<string>, ok: string -> bool) returns (value: string)
    ensures Any(values, ok) ==> value in values && ok(value)
    ensures !Any(values, ok) ==> forall v <- values :: !ok(v)
  {
    value := "";
    if values != [] {
      if ok(values[0]) { value := values[0]; } else { value := AnyWitness(values[1..], ok); }
    }
  }

  // Every value of the two restricted axes occurs in some allowed combination.
  ghost predicate EveryValueHasPartner(axes: Axes, p: nat, q: nat, allowed: (string, string) -> bool)
    requires p < |axes| && q < |axes|
  {
    && (forall x <- axes[p] :: Any(axes[q], y => allowed(x, y)))
    && (forall y <- axes[q] :: Any(axes[p], x => allowed(x, y)))
  }

  ghost function Excluded(axes: Axes, p: nat, q: nat, allowed: (string, string) -> bool): set<Pair>
    requires p < |axes| && q < |axes|
  {
    set x, y | x in axes[p] && y in axes[q] && !allowed(x, y) :: Pair(p, x, q, y)
  }

  ghost function Denominator(axes: Axes, p: nat, q: nat, allowed: (string, string) -> bool): set<Pair> {
    Covered(Candidates(axes, Compatible(allowed, p, q)))
  }

  lemma PairIsCovered(tuples: seq<seq<string>>, pair: Pair)
    ensures pair in Covered(tuples) <==> exists t <- tuples :: pair in Pairs(t)
  {
    if t :| t in tuples && pair in Pairs(t) {
      CandidateIsCovered(tuples, t);
    }
    if pair in Covered(tuples) {
      var i :| 0 <= i < |tuples| && pair in Coverage(tuples)[i];
      assert tuples[i] in tuples;
    }
  }

  // A pair is in the denominator iff some feasible tuple shows it.
  lemma DenominatorContains(axes: Axes, p: nat, q: nat, allowed: (string, string) -> bool, pair: Pair)
    requires Restricts(axes, p, q)
    ensures pair in Denominator(axes, p, q, allowed) <==>
      exists t :: InProduct(axes, t) && allowed(t[p], t[q]) && pair in Pairs(t)
  {
    var candidates := Candidates(axes, Compatible(allowed, p, q));
    PairIsCovered(candidates, pair);
    forall t: seq<string>
      ensures t in candidates <==> InProduct(axes, t) && allowed(t[p], t[q])
    {
      CandidatesContain(axes, Compatible(allowed, p, q), t);
    }
  }

  ghost function FirstValues(axes: Axes): (values: seq<string>)
    requires ValidAxes(axes)
    ensures InProduct(axes, values)
  {
    seq(|axes|, k requires 0 <= k < |axes| => axes[k][0])
  }

  lemma InProductUpdate(axes: Axes, values: seq<string>, k: nat, value: string)
    requires InProduct(axes, values) && k < |axes| && value in axes[k]
    ensures InProduct(axes, values[k := value])
  {
  }

  // A feasible tuple that takes `x` on axis `i` and `y` on axis `j`.
  lemma Witness(axes: Axes, p: nat, q: nat, allowed: (string, string) -> bool, i: nat, x: string, j: nat, y: string)
    returns (tuple: seq<string>)
    requires Restricts(axes, p, q) && EveryValueHasPartner(axes, p, q, allowed)
    requires i < j < |axes| && x in axes[i] && y in axes[j]
    requires i == p && j == q ==> allowed(x, y)
    ensures InProduct(axes, tuple) && allowed(tuple[p], tuple[q]) && tuple[i] == x && tuple[j] == y
  {
    var start := FirstValues(axes);
    InProductUpdate(axes, start, i, x);
    InProductUpdate(axes, start[i := x], j, y);
    tuple := start[i := x][j := y];
    if i == p && j == q {
    } else if i == q || j == q {
      var y' := tuple[q];
      assert y' in axes[q];
      var z := AnyWitness(axes[p], v => allowed(v, y'));
      InProductUpdate(axes, tuple, p, z);
      tuple := tuple[p := z];
    } else {
      var x' := tuple[p];
      assert x' in axes[p];
      var z := AnyWitness(axes[q], v => allowed(x', v));
      InProductUpdate(axes, tuple, q, z);
      tuple := tuple[q := z];
    }
  }

  // With at least three axes the denominator is all cross-axis pairs minus the
  // excluded ones exactly when every restricted value has a partner.
  lemma DenominatorClosedForm(axes: Axes, p: nat, q: nat, allowed: (string, string) -> bool)
    requires Restricts(axes, p, q) && |axes| >= 3
    ensures Denominator(axes, p, q, allowed) == CrossPairs(axes) - Excluded(axes, p, q, allowed)
       <==> EveryValueHasPartner(axes, p, q, allowed)
  {
    if EveryValueHasPartner(axes, p, q, allowed) {
      DenominatorIsClosedForm(axes, p, q, allowed);
    } else if x :| x in axes[p] && !Any(axes[q], y => allowed(x, y)) {
      var _ := AnyWitness(axes[q], y => allowed(x, y));
      LonelyValueIsMissing(axes, p, q, allowed, p, x);
    } else {
      var y :| y in axes[q] && !Any(axes[p], x => allowed(x, y));
      var _ := AnyWitness(axes[p], x => allowed(x, y));
      LonelyValueIsMissing(axes, p, q, allowed, q, y);
    }
  }

  lemma DenominatorIsClosedForm(axes: Axes, p: nat, q: nat, allowed: (string, string) -> bool)
    requires Restricts(axes, p, q) && EveryValueHasPartner(axes, p, q, allowed)
    ensures Denominator(axes, p, q, allowed) == CrossPairs(axes) - Excluded(axes, p, q, allowed)
  {
    var all, excluded := CrossPairs(axes), Excluded(axes, p, q, allowed);
    forall pair | pair in Denominator(axes, p, q, allowed) ensures pair in all && pair !in excluded {
      DenominatorContains(axes, p, q, allowed, pair);
    }
    forall pair | pair in all && pair !in excluded ensures pair in Denominator(axes, p, q, allowed) {
      var Pair(i, x, j, y) := pair;
      var t := Witness(axes, p, q, allowed, i, x, j, y);
      assert pair in Pairs(t);
      DenominatorContains(axes, p, q, allowed, pair);
    }
  }

  lemma LonelyValueIsMissing(axes: Axes, p: nat, q: nat, allowed: (string, string) -> bool, k: nat, x: string)
    requires Restricts(axes, p, q) && |axes| >= 3 && (k == p || k == q) && x in axes[k]
    requires k == p ==> forall y <- axes[q] :: !allowed(x, y)
    requires k == q ==> forall y <- axes[p] :: !allowed(y, x)
    ensures Denominator(axes, p, q, allowed) != CrossPairs(axes) - Excluded(axes, p, q, allowed)
  {
    var free := if p != 0 && q != 0 then 0 else if p != 1 && q != 1 then 1 else 2;
    var z := axes[free][0];
    var pair := if k < free then Pair(k, x, free, z) else Pair(free, z, k, x);
    assert pair in CrossPairs(axes) - Excluded(axes, p, q, allowed);
    DenominatorContains(axes, p, q, allowed, pair);
  }

  // ---- Sizes ----

  ghost function SizeProduct(axes: Axes): nat {
    if axes == [] then 1 else |axes[0]| * SizeProduct(axes[1..])
  }

  // The number of values for which `ok` holds, and of allowed combinations.
  ghost function CountOk(values: seq<string>, ok: string -> bool): nat {
    if values == [] then 0 else (if ok(values[0]) then 1 else 0) + CountOk(values[1..], ok)
  }

  ghost function CountAllowed(left: seq<string>, right: seq<string>, allowed: (string, string) -> bool): nat {
    if left == [] then 0
    else CountOk(right, y => allowed(left[0], y)) + CountAllowed(left[1..], right, allowed)
  }

  function One(ok: string -> bool, k: nat): seq<string> -> bool {
    values => k < |values| && ok(values[k])
  }

  lemma {:induction false} FilterConcat(keep: seq<string> -> bool, a: seq<seq<string>>, b: seq<seq<string>>)
    ensures |Filter(keep, a + b)| == |Filter(keep, a)| + |Filter(keep, b)|
  {
    if a == [] {
      assert a + b == b;
    } else {
      assert (a + b)[1..] == a[1..] + b;
      FilterConcat(keep, a[1..], b);
    }
  }

  function Prepend(head: string, tails: seq<seq<string>>): seq<seq<string>> {
    seq(|tails|, i requires 0 <= i < |tails| => [head] + tails[i])
  }

  // Filtering tuples that all begin with `head` is filtering their tails.
  lemma {:induction false} FilterTails(
    keep: seq<string> -> bool, head: string, keepTail: seq<string> -> bool,
    tails: seq<seq<string>>)
    requires forall i :: 0 <= i < |tails| ==> keep([head] + tails[i]) == keepTail(tails[i])
    ensures |Filter(keep, Prepend(head, tails))| == |Filter(keepTail, tails)|
  {
    if tails != [] {
      assert Prepend(head, tails)[1..] == Prepend(head, tails[1..]);
      FilterTails(keep, head, keepTail, tails[1..]);
    }
  }

  lemma {:induction false} FilterAgrees(keep: seq<string> -> bool, other: seq<string> -> bool, tuples: seq<seq<string>>)
    requires forall i :: 0 <= i < |tuples| ==> keep(tuples[i]) == other(tuples[i])
    ensures Filter(keep, tuples) == Filter(other, tuples)
  {
    if tuples != [] { FilterAgrees(keep, other, tuples[1..]); }
  }

  lemma {:induction false} FilterAll(keep: seq<string> -> bool, tuples: seq<seq<string>>, verdict: bool)
    requires forall i :: 0 <= i < |tuples| ==> keep(tuples[i]) == verdict
    ensures |Filter(keep, tuples)| == if verdict then |tuples| else 0
  {
    if tuples != [] { FilterAll(keep, tuples[1..], verdict); }
  }

  lemma PrependEachStep(keep: seq<string> -> bool, values: seq<string>, tails: seq<seq<string>>)
    requires values != []
    ensures |Filter(keep, PrependEach(values, tails))|
         == |Filter(keep, Prepend(values[0], tails))| + |Filter(keep, PrependEach(values[1..], tails))|
  {
    FilterConcat(keep, Prepend(values[0], tails), PrependEach(values[1..], tails));
    assert PrependEach(values, tails) == Prepend(values[0], tails) + PrependEach(values[1..], tails);
  }

  // The first axis does not matter to `keep`.
  lemma {:induction false} CountFreeAxis(
    keep: seq<string> -> bool, keepTail: seq<string> -> bool, values: seq<string>,
    tails: seq<seq<string>>)
    requires forall v, i :: 0 <= i < |tails| ==> keep([v] + tails[i]) == keepTail(tails[i])
    ensures |Filter(keep, PrependEach(values, tails))| == |values| * |Filter(keepTail, tails)|
  {
    if values != [] {
      PrependEachStep(keep, values, tails);
      FilterTails(keep, values[0], keepTail, tails);
      CountFreeAxis(keep, keepTail, values[1..], tails);
      Distribute(1, |values[1..]|, |Filter(keepTail, tails)|);
    }
  }

  lemma {:induction false} ProductSize(axes: Axes)
    ensures |Product(axes)| == SizeProduct(axes)
  {
    if axes != [] {
      ProductSize(axes[1..]);
      var tails := Product(axes[1..]);
      CountFreeAxis(values => true, values => true, axes[0], tails);
      FilterAll(values => true, Product(axes), true);
      FilterAll(values => true, tails, true);
    }
  }

  lemma {:induction false} CountFirstAxis(ok: string -> bool, values: seq<string>, tails: seq<seq<string>>)
    ensures |Filter(One(ok, 0), PrependEach(values, tails))| == CountOk(values, ok) * |tails|
  {
    if values != [] {
      var keep := One(ok, 0);
      PrependEachStep(keep, values, tails);
      FilterAll(keep, Prepend(values[0], tails), ok(values[0]));
      CountFirstAxis(ok, values[1..], tails);
      Distribute(if ok(values[0]) then 1 else 0, CountOk(values[1..], ok), |tails|);
    }
  }

  function Without(axes: Axes, k: nat): Axes
    requires k < |axes|
  {
    axes[..k] + axes[k + 1..]
  }

  lemma WithoutLater(axes: Axes, k: nat)
    requires 0 < k < |axes|
    ensures SizeProduct(Without(axes, k)) == |axes[0]| * SizeProduct(Without(axes[1..], k - 1))
  {
    assert Without(axes, k)[1..] == Without(axes[1..], k - 1);
  }

  lemma WithoutBothLater(axes: Axes, p: nat, q: nat)
    requires 0 < p < q < |axes|
    ensures SizeProduct(Without(Without(axes, q), p))
         == |axes[0]| * SizeProduct(Without(Without(axes[1..], q - 1), p - 1))
  {
    WithoutLater(Without(axes, q), p);
    assert Without(axes, q)[1..] == Without(axes[1..], q - 1);
  }

  lemma Exchange(a: nat, b: nat, c: nat)
    ensures a * (b * c) == b * (a * c)
  {
  }

  // Restricting one axis.
  lemma {:induction false} CountOneAxis(axes: Axes, k: nat, ok: string -> bool)
    requires k < |axes|
    ensures |Filter(One(ok, k), Product(axes))| == CountOk(axes[k], ok) * SizeProduct(Without(axes, k))
  {
    var tails := Product(axes[1..]);
    if k == 0 {
      CountFirstAxis(ok, axes[0], tails);
      ProductSize(axes[1..]);
      assert Without(axes, 0) == axes[1..];
    } else {
      CountOneAxis(axes[1..], k - 1, ok);
      CountFreeAxis(One(ok, k), One(ok, k - 1), axes[0], tails);
      WithoutLater(axes, k);
      Exchange(|axes[0]|, CountOk(axes[k], ok), SizeProduct(Without(axes[1..], k - 1)));
    }
  }

  // The first axis restricts axis `k` of the tails.
  lemma {:induction false} CountAgainstTails(values: seq<string>, axes: Axes, k: nat, allowed: (string, string) -> bool)
    requires k < |axes|
    ensures |Filter(Compatible(allowed, 0, k + 1), PrependEach(values, Product(axes)))|
         == CountAllowed(values, axes[k], allowed) * SizeProduct(Without(axes, k))
  {
    if values != [] {
      var keep, ok := Compatible(allowed, 0, k + 1), y => allowed(values[0], y);
      PrependEachStep(keep, values, Product(axes));
      FilterTails(keep, values[0], One(ok, k), Product(axes));
      CountOneAxis(axes, k, ok);
      CountAgainstTails(values[1..], axes, k, allowed);
      Distribute(CountOk(axes[k], ok), CountAllowed(values[1..], axes[k], allowed), SizeProduct(Without(axes, k)));
    }
  }

  // The feasible count is the number of allowed combinations of the two
  // restricted axes times the product of the other axis sizes.
  lemma {:induction false} FeasibleCount(axes: Axes, p: nat, q: nat, allowed: (string, string) -> bool)
    requires p < q < |axes|
    ensures |Candidates(axes, Compatible(allowed, p, q))|
         == CountAllowed(axes[p], axes[q], allowed) * SizeProduct(Without(Without(axes, q), p))
  {
    if p == 0 {
      CountAgainstTails(axes[0], axes[1..], q - 1, allowed);
      assert Without(Without(axes, q), 0) == Without(axes[1..], q - 1);
    } else {
      FeasibleCount(axes[1..], p - 1, q - 1, allowed);
      FeasibleLater(axes, p, q, allowed);
    }
  }

  lemma {:induction false} FeasibleLater(axes: Axes, p: nat, q: nat, allowed: (string, string) -> bool)
    requires 0 < p < q < |axes|
    requires |Candidates(axes[1..], Compatible(allowed, p - 1, q - 1))|
          == CountAllowed(axes[p], axes[q], allowed) * SizeProduct(Without(Without(axes[1..], q - 1), p - 1))
    ensures |Candidates(axes, Compatible(allowed, p, q))|
         == CountAllowed(axes[p], axes[q], allowed) * SizeProduct(Without(Without(axes, q), p))
  {
    CountFreeAxis(Compatible(allowed, p, q), Compatible(allowed, p - 1, q - 1), axes[0], Product(axes[1..]));
    WithoutBothLater(axes, p, q);
    Exchange(|axes[0]|, CountAllowed(axes[p], axes[q], allowed),
      SizeProduct(Without(Without(axes[1..], q - 1), p - 1)));
  }

  // ---- The size of the denominator ----

  ghost function AllowedPairs(
    i: nat, left: seq<string>, j: nat, right: seq<string>,
    allowed: (string, string) -> bool): set<Pair> {
    set x, y | x in left && y in right && allowed(x, y) :: Pair(i, x, j, y)
  }

  ghost function AllowedRowPairs(i: nat, x: string, j: nat, right: seq<string>, ok: string -> bool): set<Pair> {
    set y | y in right && ok(y) :: Pair(i, x, j, y)
  }

  lemma {:induction false} CountRow(i: nat, x: string, j: nat, right: seq<string>, ok: string -> bool)
    requires Distinct(right)
    ensures |AllowedRowPairs(i, x, j, right, ok)| == CountOk(right, ok)
  {
    if right == [] {
      assert AllowedRowPairs(i, x, j, right, ok) == {};
    } else {
      CountRow(i, x, j, right[1..], ok);
      RowStep(i, x, j, right, ok);
    }
  }

  lemma RowStep(i: nat, x: string, j: nat, right: seq<string>, ok: string -> bool)
    requires right != [] && Distinct(right)
    ensures |AllowedRowPairs(i, x, j, right, ok)|
         == (if ok(right[0]) then 1 else 0) + |AllowedRowPairs(i, x, j, right[1..], ok)|
  {
    var rest, first := AllowedRowPairs(i, x, j, right[1..], ok), Pair(i, x, j, right[0]);
    assert right == [right[0]] + right[1..];
    assert AllowedRowPairs(i, x, j, right, ok) == if ok(right[0]) then {first} + rest else rest;
    assert first !in rest;
  }

  lemma {:induction false} CountTable(
    i: nat, left: seq<string>, j: nat, right: seq<string>, allowed: (string, string) -> bool)
    requires Distinct(left) && Distinct(right)
    ensures |AllowedPairs(i, left, j, right, allowed)| == CountAllowed(left, right, allowed)
  {
    if left == [] {
      assert AllowedPairs(i, left, j, right, allowed) == {};
    } else {
      var ok := y => allowed(left[0], y);
      CountRow(i, left[0], j, right, ok);
      CountTable(i, left[1..], j, right, allowed);
      assert left == [left[0]] + left[1..];
      var row, rest := AllowedRowPairs(i, left[0], j, right, ok), AllowedPairs(i, left[1..], j, right, allowed);
      assert AllowedPairs(i, left, j, right, allowed) == row + rest && row !! rest;
    }
  }

  lemma ExcludedSize(axes: Axes, p: nat, q: nat, allowed: (string, string) -> bool)
    requires Restricts(axes, p, q)
    ensures |Excluded(axes, p, q, allowed)| + CountAllowed(axes[p], axes[q], allowed) == |axes[p]| * |axes[q]|
  {
    var all, some := PairsBetween(p, axes[p], q, axes[q]), AllowedPairs(p, axes[p], q, axes[q], allowed);
    ManyToMany(p, axes[p], q, axes[q]);
    CountTable(p, axes[p], q, axes[q], allowed);
    assert all == some + Excluded(axes, p, q, allowed);
  }

  // The number of feasible pairs, from the axis sizes alone.
  lemma DenominatorSize(axes: Axes, p: nat, q: nat, allowed: (string, string) -> bool)
    requires Restricts(axes, p, q) && EveryValueHasPartner(axes, p, q, allowed)
    ensures |Denominator(axes, p, q, allowed)| + |axes[p]| * |axes[q]|
         == SumOfProducts(axes) + CountAllowed(axes[p], axes[q], allowed)
  {
    var all, excluded := CrossPairs(axes), Excluded(axes, p, q, allowed);
    DenominatorIsClosedForm(axes, p, q, allowed);
    CountCrossPairs(axes);
    ExcludedSize(axes, p, q, allowed);
    assert excluded <= all;
    assert all == (all - excluded) + excluded;
  }

  // The covering array over axes of which two restrict each other: the counts it
  // returns have closed forms, besides all that holds for any compatibility rule.
  method RestrictedCoveringArray(axes: Axes, p: nat, q: nat, allowed: (string, string) -> bool)
    returns (selected: seq<seq<string>>, denominator: set<Pair>, feasibleCount: nat)
    requires Restricts(axes, p, q)
    ensures feasibleCount == CountAllowed(axes[p], axes[q], allowed) * SizeProduct(Without(Without(axes, q), p))
    ensures |axes| >= 3 ==>
      (denominator == CrossPairs(axes) - Excluded(axes, p, q, allowed) <==> EveryValueHasPartner(axes, p, q, allowed))
    ensures EveryValueHasPartner(axes, p, q, allowed) ==>
      |denominator| + |axes[p]| * |axes[q]| == SumOfProducts(axes) + CountAllowed(axes[p], axes[q], allowed)
    ensures Covered(selected) == denominator
    ensures EveryValueHasPartner(axes, p, q, allowed) ==>
      forall i, j :: 0 <= i < j < |axes| && (i, j) != (p, q) ==> |axes[i]| * |axes[j]| <= |selected|
    ensures IsGreedySelection(Candidates(axes, Compatible(allowed, p, q)), selected)
    ensures ChoosesFirst(axes, Candidates(axes, Compatible(allowed, p, q)), selected)
    ensures IsNearlyOptimal(Candidates(axes, Compatible(allowed, p, q)), selected, ChooseTwo(|axes|))
  {
    selected, denominator, feasibleCount := CoveringArray(axes, Compatible(allowed, p, q));
    FeasibleCount(axes, p, q, allowed);
    if |axes| >= 3 {
      DenominatorClosedForm(axes, p, q, allowed);
    }
    if EveryValueHasPartner(axes, p, q, allowed) {
      DenominatorSize(axes, p, q, allowed);
      forall i, j | 0 <= i < j < |axes| && (i, j) != (p, q) ensures |axes[i]| * |axes[j]| <= |selected| {
        FamilyIsAsLong(axes, p, q, allowed, selected, i, j);
      }
    }
  }

  // ---- How short a covering family can be ----

  // All pairs between two axes that do not restrict each other are feasible.
  lemma PairsOfFreeAxes(axes: Axes, p: nat, q: nat, allowed: (string, string) -> bool, i: nat, j: nat)
    requires Restricts(axes, p, q) && EveryValueHasPartner(axes, p, q, allowed)
    requires i < j < |axes| && (i, j) != (p, q)
    ensures |Between(Denominator(axes, p, q, allowed), i, j)| == |axes[i]| * |axes[j]|
  {
    DenominatorIsClosedForm(axes, p, q, allowed);
    assert Between(Denominator(axes, p, q, allowed), i, j) == PairsBetween(i, axes[i], j, axes[j]);
    ManyToMany(i, axes[i], j, axes[j]);
  }

  lemma FamilyIsAsLong(
    axes: Axes, p: nat, q: nat, allowed: (string, string) -> bool, family: seq<seq<string>>, i: nat, j: nat)
    requires Restricts(axes, p, q) && EveryValueHasPartner(axes, p, q, allowed)
    requires Denominator(axes, p, q, allowed) <= Covered(family)
    requires i < j < |axes| && (i, j) != (p, q)
    ensures |axes[i]| * |axes[j]| <= |family|
  {
    PairsOfFreeAxes(axes, p, q, allowed, i, j);
    CoveringIsNotTooShort(Denominator(axes, p, q, allowed), family, i, j);
  }

  // ---- The nine axes of the acceptance test ----

  const FAMILIES := ["synthetic_identifier", "masked_patterns", "numeric", "decimal_range",
                     "numeric_shape", "boolean", "date_range", "datetime_range", "categorical", "string_pattern"]
  const NATIVES := ["none", "formula", "temporal", "conditional_required", "aggregate_mapping"]
  const AXES: Axes := [
    ["csv", "json", "parquet", "sql"],
    ["valid", "edge", "load_test", "mixed", "negative"],
    FAMILIES,
    ["en_US", "ru_RU"],
    ["saved_3", "override_7"],
    ["saved_7", "override_19"],
    ["all_on", "optional_off"],
    ["embedded", "external_json"],
    NATIVES]
  const MODE := 1
  const FAMILY := 2
  const NATIVE := 8
  const NUMERIC := {"numeric", "decimal_range", "numeric_shape"}
  const TEMPORAL := {"date_range", "datetime_range"}
  const TEXT := {"synthetic_identifier", "masked_patterns", "categorical", "string_pattern"}

  predicate FamilyAllowsNative(family: string, native: string) {
    && (native != "formula" || family in NUMERIC)
    && (native != "temporal" || family in TEMPORAL)
    && (native != "conditional_required" || family in TEXT)
  }

  lemma {:induction false} CountOkAgrees(values: seq<string>, ok: string -> bool, other: string -> bool)
    requires forall v :: ok(v) == other(v)
    ensures CountOk(values, ok) == CountOk(values, other)
  {
    if values != [] { CountOkAgrees(values[1..], ok, other); }
  }

  // Two natives suit every family; a third one suits all but "boolean".
  lemma NativesOf(family: string)
    requires family in FAMILIES
    ensures CountOk(NATIVES, native => FamilyAllowsNative(family, native)) == if family == "boolean" then 2 else 3
  {
    var ok := (native: string) => FamilyAllowsNative(family, native);
    assert CountOk(NATIVES[5..], ok) == 0;
    assert CountOk(NATIVES[4..], ok) == 1 by { assert NATIVES[4..][1..] == NATIVES[5..]; }
    assert NATIVES[3..][1..] == NATIVES[4..] && NATIVES[2..][1..] == NATIVES[3..];
    assert NATIVES[1..][1..] == NATIVES[2..] && NATIVES[0..][1..] == NATIVES[1..];
    assert NATIVES[0..] == NATIVES;
  }

  lemma OnlyFifthIsBoolean(k: nat)
    requires k < |FAMILIES|
    ensures FAMILIES[k] == "boolean" <==> k == 5
  {
  }

  lemma AllowedRow(k: nat)
    requires k < |FAMILIES|
    ensures CountAllowed(FAMILIES[k..], NATIVES, FamilyAllowsNative)
         == (if k == 5 then 2 else 3) + CountAllowed(FAMILIES[k + 1..], NATIVES, FamilyAllowsNative)
  {
    var left := FAMILIES[k..];
    assert left[1..] == FAMILIES[k + 1..] && left[0] == FAMILIES[k];
    NativesOf(FAMILIES[k]);
    OnlyFifthIsBoolean(k);
    CountOkAgrees(NATIVES, y => FamilyAllowsNative(left[0], y), native => FamilyAllowsNative(FAMILIES[k], native));
  }

  lemma {:induction false} AllowedFamilies(k: nat)
    requires k <= |FAMILIES|
    ensures CountAllowed(FAMILIES[k..], NATIVES, FamilyAllowsNative) == 3 * (|FAMILIES| - k) - (if k <= 5 then 1 else 0)
    decreases |FAMILIES| - k
  {
    if k < |FAMILIES| {
      AllowedFamilies(k + 1);
      AllowedRow(k);
    }
  }

  lemma NineAxesAreValid()
    ensures Restricts(AXES, FAMILY, NATIVE)
  {
  }

  lemma {:induction false} AnyAt(values: seq<string>, ok: string -> bool, k: nat)
    requires k < |values| && ok(values[k])
    ensures Any(values, ok)
  {
    if k > 0 { AnyAt(values[1..], ok, k - 1); }
  }

  lemma FamilyFor(native: string) returns (k: nat)
    ensures k < |FAMILIES| && FamilyAllowsNative(FAMILIES[k], native)
  {
    k := if native == "temporal" then 6 else if native == "conditional_required" then 0 else 2;
  }

  lemma SomeNative(family: string)
    ensures Any(NATIVES, y => FamilyAllowsNative(family, y))
  {
    assert FamilyAllowsNative(family, NATIVES[0]);
    AnyAt(NATIVES, y => FamilyAllowsNative(family, y), 0);
  }

  lemma SomeFamily(native: string)
    ensures Any(FAMILIES, x => FamilyAllowsNative(x, native))
  {
    var k := FamilyFor(native);
    AnyAt(FAMILIES, x => FamilyAllowsNative(x, native), k);
  }

  lemma NineAxesHavePartners()
    ensures EveryValueHasPartner(AXES, FAMILY, NATIVE, FamilyAllowsNative)
  {
    forall x | x in FAMILIES ensures Any(NATIVES, y => FamilyAllowsNative(x, y)) {
      SomeNative(x);
    }
    forall y | y in NATIVES ensures Any(FAMILIES, x => FamilyAllowsNative(x, y)) {
      SomeFamily(y);
    }
    assert AXES[FAMILY] == FAMILIES && AXES[NATIVE] == NATIVES by { NineAxesSizes(); }
  }

  // The two counts the acceptance test asserts, from the general closed forms.
  lemma NineAxesFeasible()
    ensures |Candidates(AXES, Compatible(FamilyAllowsNative, FAMILY, NATIVE))| == 18560
  {
    FeasibleCount(AXES, FAMILY, NATIVE, FamilyAllowsNative);
    NineAxesAllowed();
    FreeAxesSize();
  }

  lemma NineAxesDenominator()
    ensures |Denominator(AXES, FAMILY, NATIVE, FamilyAllowsNative)| == 464
  {
    NineAxesAreValid();
    NineAxesHavePartners();
    NineAxesProduct();
    NineAxesAllowed();
    NineAxesProducts();
    DenominatorFrom(AXES, FAMILY, NATIVE, FamilyAllowsNative, 50, 485, 29);
  }

  lemma DenominatorFrom(
    axes: Axes, p: nat, q: nat, allowed: (string, string) -> bool, product: nat, sum: nat, count: nat)
    requires Restricts(axes, p, q) && EveryValueHasPartner(axes, p, q, allowed)
    requires |axes[p]| * |axes[q]| == product && SumOfProducts(axes) == sum
    requires CountAllowed(axes[p], axes[q], allowed) == count
    ensures |Denominator(axes, p, q, allowed)| + product == sum + count
  {
    DenominatorSize(axes, p, q, allowed);
  }

  lemma NineAxesProduct()
    ensures |AXES[FAMILY]| * |AXES[NATIVE]| == 50
  {
    NineAxesSizes();
  }

  // No family of fewer than 50 combinations covers the denominator.
  lemma NineAxesNeedFifty(family: seq<seq<string>>)
    requires Denominator(AXES, FAMILY, NATIVE, FamilyAllowsNative) <= Covered(family)
    ensures |family| >= 50
  {
    NineAxesAreValid();
    NineAxesHavePartners();
    FamilyIsAsLong(AXES, FAMILY, NATIVE, FamilyAllowsNative, family, MODE, FAMILY);
    assert |AXES[MODE]| * |AXES[FAMILY]| == 50;
  }

  lemma NineAxesAllowed()
    ensures CountAllowed(AXES[FAMILY], AXES[NATIVE], FamilyAllowsNative) == 29
  {
    assert AXES[FAMILY] == FAMILIES[0..] && AXES[NATIVE] == NATIVES;
    assert CountAllowed(FAMILIES[0..], NATIVES, FamilyAllowsNative) == 29 by { AllowedFamilies(0); }
  }

  lemma NineAxesSizes()
    ensures |AXES| == 9 && AXES[FAMILY] == FAMILIES && AXES[NATIVE] == NATIVES
    ensures |FAMILIES| == 10 && |NATIVES| == 5
  {
  }

  lemma FreeAxesSize()
    ensures SizeProduct(Without(Without(AXES, NATIVE), FAMILY)) == 640
  {
    var free := Without(Without(AXES, NATIVE), FAMILY);
    assert free == [AXES[0], AXES[1], AXES[3], AXES[4], AXES[5], AXES[6], AXES[7]];
    assert SizeProduct(free[7..]) == 1;
    assert free[6..][1..] == free[7..] && SizeProduct(free[6..]) == 2;
    assert free[5..][1..] == free[6..] && SizeProduct(free[5..]) == 4;
    assert free[4..][1..] == free[5..] && SizeProduct(free[4..]) == 8;
    assert free[3..][1..] == free[4..] && SizeProduct(free[3..]) == 16;
    assert free[2..][1..] == free[3..] && SizeProduct(free[2..]) == 32;
    assert free[1..][1..] == free[2..] && SizeProduct(free[1..]) == 160;
    assert free[0..] == free;
  }

  lemma SumStep(n: nat)
    requires n < |AXES|
    ensures Total(AXES[..n + 1]) == Total(AXES[..n]) + |AXES[n]|
    ensures SumOfProducts(AXES[..n + 1]) == SumOfProducts(AXES[..n]) + Total(AXES[..n]) * |AXES[n]|
  {
    assert AXES[..n + 1][..n] == AXES[..n];
  }

  lemma FirstFiveAxes()
    ensures Total(AXES[..5]) == 23 && SumOfProducts(AXES[..5]) == 190
  {
    assert Total(AXES[..0]) == 0 && SumOfProducts(AXES[..0]) == 0;
    SumStep(0); SumStep(1); SumStep(2); SumStep(3); SumStep(4);
  }

  lemma NineAxesProducts()
    ensures SumOfProducts(AXES) == 485
  {
    FirstFiveAxes();
    SumStep(5); SumStep(6); SumStep(7); SumStep(8);
    assert AXES[..9] == AXES;
  }
}
