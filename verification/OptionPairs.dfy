// The pairwise covering array of tests/test_acceptance_option_pairs.py: option
// tuples over named axes, the value pairs they cover, and the greedy selection.
module OptionPairs {
  import opened Sequences
  import opened GreedyCover

  type Axes = seq<seq<string>>

  // Value `leftValue` of axis `left` together with `rightValue` of axis `right`.
  datatype Pair = Pair(left: nat, leftValue: string, right: nat, rightValue: string)

  // ---- Tuples, pairs and candidates ----

  function PrependEach(values: seq<string>, tails: seq<seq<string>>): seq<seq<string>> {
    if values == [] then []
    else seq(|tails|, i requires 0 <= i < |tails| => [values[0]] + tails[i]) + PrependEach(values[1..], tails)
  }

  // itertools.product: the last axis varies fastest.
  function Product(axes: Axes): seq<seq<string>> {
    if axes == [] then [[]] else PrependEach(axes[0], Product(axes[1..]))
  }

  function Filter(keep: seq<string> -> bool, tuples: seq<seq<string>>): seq<seq<string>> {
    if tuples == [] then []
    else (if keep(tuples[0]) then [tuples[0]] else []) + Filter(keep, tuples[1..])
  }

  function Candidates(axes: Axes, compatible: seq<string> -> bool): seq<seq<string>> {
    Filter(compatible, Product(axes))
  }

  function Pairs(values: seq<string>): set<Pair> {
    set i, j | 0 <= i < j < |values| :: Pair(i, values[i], j, values[j])
  }

  function Coverage(tuples: seq<seq<string>>): seq<set<Pair>> {
    seq(|tuples|, i requires 0 <= i < |tuples| => Pairs(tuples[i]))
  }

  function Covered(tuples: seq<seq<string>>): set<Pair> {
    Union(Coverage(tuples))
  }

  ghost predicate InProduct(axes: Axes, values: seq<string>) {
    |values| == |axes| && forall k :: 0 <= k < |axes| ==> values[k] in axes[k]
  }

  lemma {:induction false} PrependEachContains(values: seq<string>, tails: seq<seq<string>>, tuple: seq<string>)
    ensures tuple in PrependEach(values, tails) <==> tuple != [] && tuple[0] in values && tuple[1..] in tails
  {
    if values != [] {
      PrependEachContains(values[1..], tails, tuple);
      var head := seq(|tails|, i requires 0 <= i < |tails| => [values[0]] + tails[i]);
      if tuple != [] && tuple[0] == values[0] && tuple[1..] in tails {
        var i :| 0 <= i < |tails| && tails[i] == tuple[1..];
        assert head[i] == tuple;
      }
      assert tuple in head ==> tuple != [] && tuple[0] == values[0] && tuple[1..] in tails;
    }
  }

  // The product holds exactly the tuples that take one value from each axis.
  lemma {:induction false} ProductContains(axes: Axes, tuple: seq<string>)
    ensures tuple in Product(axes) <==> InProduct(axes, tuple)
  {
    if axes == [] {
      assert tuple in Product(axes) <==> tuple == [];
    } else {
      PrependEachContains(axes[0], Product(axes[1..]), tuple);
      if tuple != [] {
        ProductContains(axes[1..], tuple[1..]);
        if InProduct(axes[1..], tuple[1..]) && tuple[0] in axes[0] {
          forall k | 0 <= k < |axes| ensures tuple[k] in axes[k] {
            if k > 0 { assert tuple[1..][k - 1] in axes[1..][k - 1]; }
          }
        }
        if InProduct(axes, tuple) {
          forall k | 0 <= k < |axes[1..]| ensures tuple[1..][k] in axes[1..][k] {
            assert tuple[k + 1] in axes[k + 1];
          }
        }
      }
    }
  }

  lemma {:induction false} FilterContains(keep: seq<string> -> bool, tuples: seq<seq<string>>, tuple: seq<string>)
    ensures tuple in Filter(keep, tuples) <==> tuple in tuples && keep(tuple)
  {
    if tuples != [] { FilterContains(keep, tuples[1..], tuple); }
  }

  lemma CandidatesContain(axes: Axes, compatible: seq<string> -> bool, tuple: seq<string>)
    ensures tuple in Candidates(axes, compatible) <==> InProduct(axes, tuple) && compatible(tuple)
  {
    FilterContains(compatible, Product(axes), tuple);
    ProductContains(axes, tuple);
  }

  // ---- The order of the product ----

  // `a` comes before `b`: on the first axis where they differ it has the earlier value.
  ghost predicate Before(axes: Axes, a: seq<string>, b: seq<string>) {
    |a| == |axes| == |b| && exists k :: 0 <= k < |axes| && DiffersFirst(axes[k], a, b, k)
  }

  ghost predicate DiffersFirst(values: seq<string>, a: seq<string>, b: seq<string>, k: nat)
    requires k < |a| && k < |b|
  {
    a[..k] == b[..k] && ComesFirst(values, a[k], b[k])
  }

  ghost predicate ComesFirst(values: seq<string>, x: string, y: string) {
    exists p, q :: 0 <= p < q < |values| && values[p] == x && values[q] == y
  }

  // Without repeated values no two tuples come before each other.
  lemma BeforeIsStrict(axes: Axes, a: seq<string>, b: seq<string>)
    requires forall k :: 0 <= k < |axes| ==> Distinct(axes[k])
    requires Before(axes, a, b)
    ensures a != b && !Before(axes, b, a)
  {
    var k :| 0 <= k < |axes| && DiffersFirst(axes[k], a, b, k);
    assert a[k] != b[k];
    forall l | 0 <= l < |axes| && DiffersFirst(axes[l], b, a, l) ensures l == k {
      FirstDifference(a, b, k, l);
    }
  }

  lemma FirstDifference(a: seq<string>, b: seq<string>, k: nat, l: nat)
    requires k < |a| == |b| && l < |a| && a[..k] == b[..k] && a[..l] == b[..l] && a[k] != b[k]
    ensures l <= k && (a[l] != b[l] ==> l == k)
  {
    assert forall i :: 0 <= i < l ==> a[..l][i] == a[i] && b[..l][i] == b[i];
    assert forall i :: 0 <= i < k ==> a[..k][i] == a[i] && b[..k][i] == b[i];
  }

  ghost predicate InOrder(axes: Axes, tuples: seq<seq<string>>) {
    forall x, y :: 0 <= x < y < |tuples| ==> Before(axes, tuples[x], tuples[y])
  }

  // Position i * |tails| + j holds value i with tail j.
  lemma {:induction false} PrependEachAt(values: seq<string>, tails: seq<seq<string>>, i: nat, j: nat)
    requires i < |values| && j < |tails|
    ensures |PrependEach(values, tails)| == |values| * |tails|
    ensures i * |tails| + j < |values| * |tails|
    ensures PrependEach(values, tails)[i * |tails| + j] == [values[i]] + tails[j]
  {
    PrependEachSize(values, tails);
    PrependEachSize(values[1..], tails);
    RowFits(i, j, |values|, |tails|);
    if i > 0 {
      PrependEachAt(values[1..], tails, i - 1, j);
      Distribute(i - 1, 1, |tails|);
      assert (i - 1) * |tails| + j == (i * |tails| + j) - |tails|;
    }
  }

  lemma {:induction false} PrependEachSize(values: seq<string>, tails: seq<seq<string>>)
    ensures |PrependEach(values, tails)| == |values| * |tails|
  {
    if values != [] {
      PrependEachSize(values[1..], tails);
      Distribute(1, |values| - 1, |tails|);
    }
  }

  lemma RowFits(i: nat, j: nat, rows: nat, width: nat)
    requires i < rows && j < width
    ensures i * width + j < rows * width
  {
    Distribute(i, 1, width);
    Distribute(i + 1, rows - (i + 1), width);
  }

  lemma BeforeInTail(axes: Axes, value: string, a: seq<string>, b: seq<string>)
    requires axes != [] && Before(axes[1..], a, b)
    ensures Before(axes, [value] + a, [value] + b)
  {
    var k :| 0 <= k < |axes[1..]| && DiffersFirst(axes[1..][k], a, b, k);
    var x, y := [value] + a, [value] + b;
    assert x[..k + 1] == [value] + a[..k] && y[..k + 1] == [value] + b[..k];
    assert DiffersFirst(axes[k + 1], x, y, k + 1);
  }

  lemma {:induction false} PrependEachInOrder(
    axes: Axes, values: seq<string>, start: nat, tails: seq<seq<string>>)
    requires axes != [] && start <= |axes[0]| && values == axes[0][start..]
    requires InOrder(axes[1..], tails) && forall t <- tails :: |t| == |axes| - 1
    ensures InOrder(axes, PrependEach(values, tails))
    ensures forall t <- PrependEach(values, tails) :: |t| == |axes| && t[0] in values
    decreases |values|
  {
    if values != [] {
      var head := seq(|tails|, i requires 0 <= i < |tails| => [values[0]] + tails[i]);
      var rest := PrependEach(values[1..], tails);
      PrependEachInOrder(axes, values[1..], start + 1, tails);
      forall x, y | 0 <= x < y < |head| ensures Before(axes, head[x], head[y]) {
        BeforeInTail(axes, values[0], tails[x], tails[y]);
      }
      forall a, b | a in head && b in rest ensures Before(axes, a, b) {
        assert a[0] == values[0] && b[0] in values[1..];
        FirstComesFirst(axes[0], start, b[0]);
        assert DiffersFirst(axes[0], a, b, 0);
      }
      AppendInOrder(axes, head, rest);
    }
  }

  lemma FirstComesFirst(values: seq<string>, start: nat, later: string)
    requires start < |values| && later in values[start + 1..]
    ensures ComesFirst(values, values[start], later)
  {
    var q :| 0 <= q < |values[start + 1..]| && values[start + 1..][q] == later;
    assert values[start + 1 + q] == later;
  }

  lemma AppendInOrder(axes: Axes, a: seq<seq<string>>, b: seq<seq<string>>)
    requires InOrder(axes, a) && InOrder(axes, b)
    requires forall s, t :: s in a && t in b ==> Before(axes, s, t)
    ensures InOrder(axes, a + b)
  {
    var both := a + b;
    forall x, y | 0 <= x < y < |both| ensures Before(axes, both[x], both[y]) {
      if x < |a| <= y { assert both[x] in a && both[y] in b; }
    }
  }

  // Of two tuples the product lists the one first that has the earlier value on
  // the first axis where they differ.
  lemma {:induction false} ProductInOrder(axes: Axes)
    ensures InOrder(axes, Product(axes)) && forall t <- Product(axes) :: |t| == |axes|
  {
    if axes != [] {
      ProductInOrder(axes[1..]);
      assert axes[0][0..] == axes[0];
      PrependEachInOrder(axes, axes[0], 0, Product(axes[1..]));
    }
  }

  // Filtering keeps the order.
  lemma {:induction false} FilterInOrder(axes: Axes, keep: seq<string> -> bool, tuples: seq<seq<string>>)
    requires InOrder(axes, tuples)
    ensures InOrder(axes, Filter(keep, tuples))
  {
    if tuples != [] {
      var rest := tuples[1..];
      assert forall x :: 0 <= x < |rest| ==> rest[x] == tuples[x + 1];
      FilterInOrder(axes, keep, rest);
      if keep(tuples[0]) {
        forall s, t | s in [tuples[0]] && t in Filter(keep, rest) ensures Before(axes, s, t) {
          FilterContains(keep, rest, t);
          var x :| 0 <= x < |rest| && rest[x] == t;
          assert Before(axes, tuples[0], tuples[x + 1]);
        }
        AppendInOrder(axes, [tuples[0]], Filter(keep, rest));
      }
    }
  }

  lemma CandidatesInOrder(axes: Axes, compatible: seq<string> -> bool)
    ensures InOrder(axes, Candidates(axes, compatible))
  {
    ProductInOrder(axes);
    FilterInOrder(axes, compatible, Product(axes));
  }

  // ---- The greedy selection ----

  ghost function NewlyCovered(selected: seq<seq<string>>, i: nat): set<Pair>
    requires i < |selected|
  {
    Pairs(selected[i]) - Covered(selected[..i])
  }

  // Choice `i` is the earliest of the candidates that cover most new pairs.
  ghost predicate IsGreedyChoice(candidates: seq<seq<string>>, selected: seq<seq<string>>, i: nat)
    requires i < |selected|
  {
    && NewlyCovered(selected, i) != {}
    && (forall c <- candidates :: |Pairs(c) - Covered(selected[..i])| <= |NewlyCovered(selected, i)|)
    && exists p :: 0 <= p < |candidates| && IsPickedAt(candidates, selected, i, p)
  }

  ghost predicate IsPickedAt(candidates: seq<seq<string>>, selected: seq<seq<string>>, i: nat, p: nat)
    requires i < |selected| && p < |candidates|
  {
    candidates[p] == selected[i] && IsEarliest(candidates, selected, i, p)
  }

  // Among the tuples that would cover as many new pairs, each choice comes first.
  ghost predicate ChoosesFirst(axes: Axes, candidates: seq<seq<string>>, selected: seq<seq<string>>) {
    forall i, c :: 0 <= i < |selected| && c in candidates && c != selected[i] && IsTie(selected, i, c) ==>
      Before(axes, selected[i], c)
  }

  ghost predicate IsTie(selected: seq<seq<string>>, i: nat, c: seq<string>)
    requires i < |selected|
  {
    |Pairs(c) - Covered(selected[..i])| == |NewlyCovered(selected, i)|
  }

  ghost predicate IsEarliest(candidates: seq<seq<string>>, selected: seq<seq<string>>, i: nat, p: nat)
    requires i < |selected| && p <= |candidates|
  {
    forall c <- candidates[..p] :: |Pairs(c) - Covered(selected[..i])| < |NewlyCovered(selected, i)|
  }

  function ChooseTwo(n: nat): nat {
    n * (n - 1) / 2
  }

  // `picks` are the indices whose candidates make up `selected`.
  ghost predicate Selects(candidates: seq<seq<string>>, selected: seq<seq<string>>, picks: seq<nat>) {
    && InRange(Coverage(candidates), picks)
    && |selected| == |picks|
    && forall i :: 0 <= i < |picks| ==> selected[i] == candidates[picks[i]]
  }

  lemma LeftIsUncovered(
    candidates: seq<seq<string>>, selected: seq<seq<string>>, picks: seq<nat>, target: set<Pair>, n: nat)
    requires Selects(candidates, selected, picks) && n <= |picks|
    ensures Left(Coverage(candidates), target, picks[..n]) == target - Covered(selected[..n])
  {
    var coverage := Coverage(candidates);
    forall x: Pair
      ensures x in Covered(selected[..n]) <==> exists k :: 0 <= k < n && x in coverage[picks[..n][k]]
    {
      assert forall k :: 0 <= k < n ==> Coverage(selected[..n])[k] == coverage[picks[..n][k]];
    }
  }

  lemma CandidateIsCovered(candidates: seq<seq<string>>, tuple: seq<string>)
    requires tuple in candidates
    ensures Pairs(tuple) <= Covered(candidates) && Pairs(tuple) in Coverage(candidates)
  {
    var k :| 0 <= k < |candidates| && candidates[k] == tuple;
    assert Coverage(candidates)[k] == Pairs(tuple);
  }

  // The gain the loop compares is the number of newly covered pairs.
  lemma GainIsNewPairs(
    candidates: seq<seq<string>>, selected: seq<seq<string>>, picks: seq<nat>, n: nat, tuple: seq<string>)
    requires Selects(candidates, selected, picks) && n <= |picks| && tuple in candidates
    ensures Gain(Pairs(tuple), Left(Coverage(candidates), Covered(candidates), picks[..n]))
         == |Pairs(tuple) - Covered(selected[..n])|
  {
    LeftIsUncovered(candidates, selected, picks, Covered(candidates), n);
    CandidateIsCovered(candidates, tuple);
    assert Pairs(tuple) * (Covered(candidates) - Covered(selected[..n])) == Pairs(tuple) - Covered(selected[..n]);
  }

  // What the comparison of gains says about the candidate at position `q`.
  lemma GainsCompare(candidates: seq<seq<string>>, selected: seq<seq<string>>, picks: seq<nat>, i: nat, q: nat)
    requires Selects(candidates, selected, picks) && i < |picks| && q < |candidates|
    requires IsGreedyPick(Coverage(candidates), Covered(candidates), picks, i)
    ensures |Pairs(candidates[q]) - Covered(selected[..i])| <= |NewlyCovered(selected, i)|
    ensures q < picks[i] ==> |Pairs(candidates[q]) - Covered(selected[..i])| < |NewlyCovered(selected, i)|
    ensures NewlyCovered(selected, i) != {}
  {
    GainIsNewPairs(candidates, selected, picks, i, selected[i]);
    GainIsNewPairs(candidates, selected, picks, i, candidates[q]);
    assert Coverage(candidates)[q] == Pairs(candidates[q]);
    assert Coverage(candidates)[picks[i]] == Pairs(selected[i]);
  }

  lemma GreedyChoices(candidates: seq<seq<string>>, selected: seq<seq<string>>, picks: seq<nat>, i: nat)
    requires Selects(candidates, selected, picks) && i < |picks|
    requires IsGreedyPick(Coverage(candidates), Covered(candidates), picks, i)
    ensures IsGreedyChoice(candidates, selected, i)
  {
    var p := picks[i];
    GainsCompare(candidates, selected, picks, i, p);
    forall c | c in candidates ensures |Pairs(c) - Covered(selected[..i])| <= |NewlyCovered(selected, i)| {
      var q :| 0 <= q < |candidates| && candidates[q] == c;
      GainsCompare(candidates, selected, picks, i, q);
    }
    forall c | c in candidates[..p] ensures |Pairs(c) - Covered(selected[..i])| < |NewlyCovered(selected, i)| {
      var q :| 0 <= q < p && candidates[q] == c;
      GainsCompare(candidates, selected, picks, i, q);
    }
    assert IsPickedAt(candidates, selected, i, p);
  }

  // A later choice is another tuple and covers no more new pairs.
  ghost predicate InGreedyOrder(selected: seq<seq<string>>, i: nat, j: nat)
    requires i < |selected| && j < |selected|
  {
    selected[i] != selected[j] && |NewlyCovered(selected, j)| <= |NewlyCovered(selected, i)|
  }

  lemma GreedyOrder(candidates: seq<seq<string>>, selected: seq<seq<string>>, picks: seq<nat>, i: nat, j: nat)
    requires Selects(candidates, selected, picks) && i < j < |picks|
    requires IsGreedyPick(Coverage(candidates), Covered(candidates), picks, i)
    requires IsGreedyPick(Coverage(candidates), Covered(candidates), picks, j)
    ensures InGreedyOrder(selected, i, j)
  {
    GainsNeverIncrease(Coverage(candidates), Covered(candidates), picks, i, j);
    GainIsNewPairs(candidates, selected, picks, i, selected[i]);
    GainIsNewPairs(candidates, selected, picks, j, selected[j]);
    ChoicesDiffer(selected, i, j);
  }

  lemma ChoicesDiffer(selected: seq<seq<string>>, i: nat, j: nat)
    requires i < j < |selected| && |NewlyCovered(selected, j)| > 0
    ensures selected[i] != selected[j]
  {
    var x :| x in NewlyCovered(selected, j);
    assert Coverage(selected[..j])[i] == Pairs(selected[i]);
    assert x !in Pairs(selected[i]);
  }

  lemma NearlyOptimal(candidates: seq<seq<string>>, width: nat, family: seq<seq<string>>)
    requires forall k :: 0 <= k < |candidates| ==> |Coverage(candidates)[k]| <= width
    requires (forall t <- family :: t in candidates) && Covered(candidates) <= Covered(family)
    ensures AtMostTimes(|Greedy(Coverage(candidates), Covered(candidates))|, Harmonic(width), |family|)
  {
    var coverage, some := Coverage(candidates), Coverage(family);
    forall k | 0 <= k < |some| ensures some[k] in coverage {
      CandidateIsCovered(candidates, family[k]);
    }
    GreedyIsNearlyOptimal(coverage, Covered(candidates), some, width);
  }

  lemma NotTooShort(candidates: seq<seq<string>>, width: nat)
    requires forall k :: 0 <= k < |candidates| ==> |Coverage(candidates)[k]| <= width
    ensures |Covered(candidates)| <= width * |Greedy(Coverage(candidates), Covered(candidates))|
  {
    SelectionIsNotTooShort(Coverage(candidates), Covered(candidates), width);
    TimesIsNatProduct(|Greedy(Coverage(candidates), Covered(candidates))|, width);
  }

  lemma WidthOfCandidates(candidates: seq<seq<string>>, axisCount: nat)
    requires forall t <- candidates :: |t| == axisCount
    ensures forall k :: 0 <= k < |candidates| ==> |Coverage(candidates)[k]| <= ChooseTwo(axisCount)
  {
    forall k | 0 <= k < |candidates| ensures |Coverage(candidates)[k]| <= ChooseTwo(axisCount) {
      assert candidates[k] in candidates;
      PairsPerTuple(candidates[k]);
    }
  }

  lemma SelectionCoversAll(candidates: seq<seq<string>>, selected: seq<seq<string>>, picks: seq<nat>)
    requires Selects(candidates, selected, picks)
    requires Left(Coverage(candidates), Covered(candidates), picks) == {}
    ensures Covered(selected) == Covered(candidates)
  {
    assert picks[..|picks|] == picks && selected[..|picks|] == selected;
    LeftIsUncovered(candidates, selected, picks, Covered(candidates), |picks|);
    forall x | x in Covered(candidates) ensures x in Covered(selected) {
      assert x !in Covered(candidates) - Covered(selected);
    }
    forall x | x in Covered(selected) ensures x in Covered(candidates) {
      var i :| 0 <= i < |selected| && x in Coverage(selected)[i];
      assert Coverage(candidates)[picks[i]] == Coverage(selected)[i];
    }
  }

  // What is neither there nor before comes later.
  lemma LaterInOrder(axes: Axes, tuples: seq<seq<string>>, p: nat, c: seq<string>)
    requires InOrder(axes, tuples) && p < |tuples| && c in tuples && c !in tuples[..p] && c != tuples[p]
    ensures Before(axes, tuples[p], c)
  {
    var q :| 0 <= q < |tuples| && tuples[q] == c;
    assert forall x :: 0 <= x < p ==> tuples[..p][x] == tuples[x];
    assert p < q;
  }

  lemma TieIsNotEarlier(candidates: seq<seq<string>>, selected: seq<seq<string>>, i: nat, c: seq<string>, p: nat)
    requires i < |selected| && p < |candidates| && IsPickedAt(candidates, selected, i, p) && IsTie(selected, i, c)
    ensures c !in candidates[..p]
  {
  }

  lemma TieComesLater(
    axes: Axes, candidates: seq<seq<string>>, selected: seq<seq<string>>, i: nat, c: seq<string>)
    requires InOrder(axes, candidates) && i < |selected| && IsGreedyChoice(candidates, selected, i)
    requires c in candidates && c != selected[i] && IsTie(selected, i, c)
    ensures Before(axes, selected[i], c)
  {
    var p :| 0 <= p < |candidates| && IsPickedAt(candidates, selected, i, p);
    TieIsNotEarlier(candidates, selected, i, c, p);
    LaterInOrder(axes, candidates, p, c);
  }

  lemma ChoicesComeFirst(axes: Axes, candidates: seq<seq<string>>, selected: seq<seq<string>>)
    requires InOrder(axes, candidates) && forall i :: 0 <= i < |selected| ==> IsGreedyChoice(candidates, selected, i)
    ensures ChoosesFirst(axes, candidates, selected)
  {
    forall i, c | 0 <= i < |selected| && c in candidates && c != selected[i] && IsTie(selected, i, c)
      ensures Before(axes, selected[i], c)
    {
      TieComesLater(axes, candidates, selected, i, c);
    }
  }

  // The whole selection loop's result, read off the indices it picked.
  ghost predicate IsGreedySelection(candidates: seq<seq<string>>, selected: seq<seq<string>>) {
    && Covered(selected) == Covered(candidates)
    && (forall i :: 0 <= i < |selected| ==> IsGreedyChoice(candidates, selected, i))
    && (forall i, j :: 0 <= i < j < |selected| ==> InGreedyOrder(selected, i, j))
  }

  lemma PicksAreGreedy(candidates: seq<seq<string>>, selected: seq<seq<string>>, picks: seq<nat>)
    requires Selects(candidates, selected, picks)
    requires forall i :: 0 <= i < |picks| ==> IsGreedyPick(Coverage(candidates), Covered(candidates), picks, i)
    ensures forall i :: 0 <= i < |selected| ==> IsGreedyChoice(candidates, selected, i)
    ensures forall i, j :: 0 <= i < j < |selected| ==> InGreedyOrder(selected, i, j)
  {
    forall i | 0 <= i < |selected| ensures IsGreedyChoice(candidates, selected, i) {
      GreedyChoices(candidates, selected, picks, i);
    }
    forall i, j | 0 <= i < j < |selected| ensures InGreedyOrder(selected, i, j) {
      GreedyOrder(candidates, selected, picks, i, j);
    }
  }

  lemma SelectionIsGreedy(candidates: seq<seq<string>>, selected: seq<seq<string>>, picks: seq<nat>)
    requires Selects(candidates, selected, picks)
    requires picks == Greedy(Coverage(candidates), Covered(candidates))
    ensures IsGreedySelection(candidates, selected)
  {
    GreedyPicks(Coverage(candidates), Covered(candidates));
    PicksAreGreedy(candidates, selected, picks);
    SelectionCoversAll(candidates, selected, picks);
  }

  // The pairs between two given axes.
  ghost function Between(pairs: set<Pair>, i: nat, j: nat): set<Pair> {
    set p | p in pairs && p.left == i && p.right == j
  }

  // A tuple covers at most one pair between any two axes.
  lemma {:induction false} TupleHasOneBetween(tuple: seq<string>, i: nat, j: nat)
    ensures |Between(Pairs(tuple), i, j)| <= 1
  {
    var some := Between(Pairs(tuple), i, j);
    if i < j < |tuple| {
      var only := {Pair(i, tuple[i], j, tuple[j])};
      assert some <= only;
      SubsetSize(some, only);
    } else {
      assert some == {};
    }
  }

  // So a family is no shorter than the number of pairs it covers between two axes.
  lemma {:induction false} FamilyIsNotTooShort(family: seq<seq<string>>, i: nat, j: nat)
    ensures |Between(Covered(family), i, j)| <= |family|
  {
    if family == [] {
      assert Between(Covered(family), i, j) == {};
    } else {
      var last, rest := family[|family| - 1], family[..|family| - 1];
      FamilyIsNotTooShort(rest, i, j);
      TupleHasOneBetween(last, i, j);
      CoveredByLast(rest, last);
      assert family == rest + [last];
      assert Between(Covered(family), i, j) == Between(Covered(rest), i, j) + Between(Pairs(last), i, j);
    }
  }

  lemma CoveredByLast(rest: seq<seq<string>>, last: seq<string>)
    ensures Covered(rest + [last]) == Covered(rest) + Pairs(last)
  {
    assert Coverage(rest + [last]) == Coverage(rest) + [Pairs(last)];
    var all := Coverage(rest) + [Pairs(last)];
    forall x ensures x in Union(all) <==> x in Union(Coverage(rest)) || x in Pairs(last) {
      if x in Union(Coverage(rest)) {
        var k :| 0 <= k < |Coverage(rest)| && x in Coverage(rest)[k];
        assert x in all[k];
      }
      if x in Pairs(last) { assert x in all[|rest|]; }
    }
  }

  // Whatever else covers the pairs needs one tuple for every pair between two axes.
  lemma CoveringIsNotTooShort(target: set<Pair>, family: seq<seq<string>>, i: nat, j: nat)
    requires target <= Covered(family)
    ensures |Between(target, i, j)| <= |family|
  {
    FamilyIsNotTooShort(family, i, j);
    SubsetSize(Between(target, i, j), Between(Covered(family), i, j));
  }

  // No selection that covers the same pairs is shorter than |selected| / H(width),
  // and none has fewer tuples than there are pairs between two axes.
  ghost predicate IsNearlyOptimal(candidates: seq<seq<string>>, selected: seq<seq<string>>, width: nat) {
    && |Covered(candidates)| <= width * |selected|
    && (forall i: nat, j: nat :: |Between(Covered(candidates), i, j)| <= |selected|)
    && forall family: seq<seq<string>> ::
         (forall t <- family :: t in candidates) && Covered(candidates) <= Covered(family)
         ==> AtMostTimes(|selected|, Harmonic(width), |family|)
  }

  lemma SelectionIsNearlyOptimal(candidates: seq<seq<string>>, selected: seq<seq<string>>, width: nat)
    requires forall k :: 0 <= k < |candidates| ==> |Coverage(candidates)[k]| <= width
    requires |selected| == |Greedy(Coverage(candidates), Covered(candidates))|
    requires Covered(candidates) <= Covered(selected)
    ensures IsNearlyOptimal(candidates, selected, width)
  {
    NotTooShort(candidates, width);
    forall i: nat, j: nat ensures |Between(Covered(candidates), i, j)| <= |selected| {
      CoveringIsNotTooShort(Covered(candidates), selected, i, j);
    }
    forall family: seq<seq<string>> | (forall t <- family :: t in candidates) && Covered(candidates) <= Covered(family)
      ensures AtMostTimes(|selected|, Harmonic(width), |family|)
    {
      NearlyOptimal(candidates, width, family);
    }
  }

  lemma CandidatesAreNearlyOptimal(axes: Axes, compatible: seq<string> -> bool, selected: seq<seq<string>>)
    requires |selected| == |Greedy(Coverage(Candidates(axes, compatible)), Covered(Candidates(axes, compatible)))|
    requires Covered(Candidates(axes, compatible)) <= Covered(selected)
    ensures IsNearlyOptimal(Candidates(axes, compatible), selected, ChooseTwo(|axes|))
  {
    var candidates := Candidates(axes, compatible);
    forall t | t in candidates ensures |t| == |axes| { CandidatesContain(axes, compatible, t); }
    WidthOfCandidates(candidates, |axes|);
    SelectionIsNearlyOptimal(candidates, selected, ChooseTwo(|axes|));
  }

  lemma SelectOneMore(candidates: seq<seq<string>>, selected: seq<seq<string>>, picks: seq<nat>, best: nat)
    requires Selects(candidates, selected, picks) && best < |candidates|
    ensures Selects(candidates, selected + [candidates[best]], picks + [best])
  {
  }

  // The loop keeps taking the best candidate until every pair that some
  // candidate covers is covered. `k` axes give ChooseTwo(k) pairs a tuple, so no
  // subfamily of the candidates that covers the same pairs is shorter than the
  // selection divided by H(ChooseTwo(k)).
  method CoveringArray(axes: Axes, compatible: seq<string> -> bool)
    returns (selected: seq<seq<string>>, denominator: set<Pair>, feasibleCount: nat)
    ensures feasibleCount == |Candidates(axes, compatible)|
    ensures denominator == Covered(Candidates(axes, compatible))
    ensures IsGreedySelection(Candidates(axes, compatible), selected)
    ensures ChoosesFirst(axes, Candidates(axes, compatible), selected)
    ensures IsNearlyOptimal(Candidates(axes, compatible), selected, ChooseTwo(|axes|))
  {
    var candidates := Candidates(axes, compatible);
    var coverage := Coverage(candidates);
    denominator := Union(coverage);
    var uncovered := denominator;
    selected := [];
    ghost var picks, run := [], Greedy(coverage, denominator);
    while uncovered != {}
      invariant uncovered <= denominator
      invariant Selects(candidates, selected, picks)
      invariant IsSplit(run, picks, Greedy(coverage, uncovered))
      decreases |uncovered|
    {
      LoopStep(coverage, uncovered, picks, run);
      var best := Best(coverage, uncovered);
      assert Gain(coverage[best], uncovered) > 0;
      SelectOneMore(candidates, selected, picks, best);
      selected := selected + [candidates[best]];
      picks := picks + [best];
      uncovered := uncovered - coverage[best];
    }
    feasibleCount := |candidates|;
    SelectionIsRight(axes, compatible, selected, picks);
  }

  lemma SelectionIsRight(axes: Axes, compatible: seq<string> -> bool, selected: seq<seq<string>>, picks: seq<nat>)
    requires Selects(Candidates(axes, compatible), selected, picks)
    requires picks == Greedy(Coverage(Candidates(axes, compatible)), Covered(Candidates(axes, compatible)))
    ensures IsGreedySelection(Candidates(axes, compatible), selected)
    ensures ChoosesFirst(axes, Candidates(axes, compatible), selected)
    ensures IsNearlyOptimal(Candidates(axes, compatible), selected, ChooseTwo(|axes|))
  {
    SelectionIsGreedy(Candidates(axes, compatible), selected, picks);
    CandidatesInOrder(axes, compatible);
    ChoicesComeFirst(axes, Candidates(axes, compatible), selected);
    CandidatesAreNearlyOptimal(axes, compatible, selected);
  }

  // ---- How many pairs and tuples there are ----

  // All value pairs of two different axes.
  ghost function CrossPairs(axes: Axes): set<Pair> {
    set i, j, x, y | 0 <= i < j < |axes| && x in axes[i] && y in axes[j] :: Pair(i, x, j, y)
  }

  ghost function Total(axes: Axes): nat {
    if axes == [] then 0 else Total(axes[..|axes| - 1]) + |axes[|axes| - 1]|
  }

  // The sum over all i < j of |axes[i]| * |axes[j]|.
  ghost function SumOfProducts(axes: Axes): nat {
    if axes == [] then 0
    else
      var last := |axes| - 1;
      SumOfProducts(axes[..last]) + Total(axes[..last]) * |axes[last]|
  }

  ghost predicate ValidAxes(axes: Axes) {
    forall k :: 0 <= k < |axes| ==> Distinct(axes[k]) && axes[k] != []
  }

  ghost function PairsBetween(i: nat, left: seq<string>, j: nat, right: seq<string>): set<Pair> {
    set x, y | x in left && y in right :: Pair(i, x, j, y)
  }

  lemma {:induction false} OneToMany(i: nat, x: string, j: nat, right: seq<string>)
    requires Distinct(right)
    ensures |PairsBetween(i, [x], j, right)| == |right|
  {
    if right == [] {
      assert PairsBetween(i, [x], j, right) == {};
    } else {
      var last := |right| - 1;
      OneToMany(i, x, j, right[..last]);
      assert right == right[..last] + [right[last]];
      assert PairsBetween(i, [x], j, right) == PairsBetween(i, [x], j, right[..last]) + {Pair(i, x, j, right[last])};
    }
  }

  lemma {:induction false} ManyToMany(i: nat, left: seq<string>, j: nat, right: seq<string>)
    requires Distinct(left) && Distinct(right)
    ensures |PairsBetween(i, left, j, right)| == |left| * |right|
  {
    if left == [] {
      assert PairsBetween(i, left, j, right) == {};
    } else {
      var last := |left| - 1;
      ManyToMany(i, left[..last], j, right);
      OneToMany(i, left[last], j, right);
      assert left == left[..last] + [left[last]];
      var low, high := PairsBetween(i, left[..last], j, right), PairsBetween(i, [left[last]], j, right);
      assert PairsBetween(i, left, j, right) == low + high && low !! high;
      Distribute(last, 1, |right|);
    }
  }

  lemma Distribute(a: nat, b: nat, c: nat)
    ensures (a + b) * c == a * c + b * c
  {
  }

  ghost function PairsInto(axes: Axes, j: nat, right: seq<string>): set<Pair> {
    set i, x, y | 0 <= i < |axes| && x in axes[i] && y in right :: Pair(i, x, j, y)
  }

  lemma PairsIntoLast(axes: Axes, j: nat, right: seq<string>)
    requires axes != []
    ensures |PairsInto(axes, j, right)| ==
      |PairsInto(axes[..|axes| - 1], j, right)| + |PairsBetween(|axes| - 1, axes[|axes| - 1], j, right)|
  {
    var last := |axes| - 1;
    var low, high := PairsInto(axes[..last], j, right), PairsBetween(last, axes[last], j, right);
    assert PairsInto(axes, j, right) == low + high && low !! high;
  }

  lemma {:induction false} CountPairsInto(axes: Axes, j: nat, right: seq<string>)
    requires ValidAxes(axes) && Distinct(right)
    ensures |PairsInto(axes, j, right)| == Total(axes) * |right|
  {
    if axes == [] {
      assert PairsInto(axes, j, right) == {};
    } else {
      var last := |axes| - 1;
      CountPairsInto(axes[..last], j, right);
      ManyToMany(last, axes[last], j, right);
      PairsIntoLast(axes, j, right);
      Distribute(Total(axes[..last]), |axes[last]|, |right|);
    }
  }

  lemma {:induction false} CountCrossPairs(axes: Axes)
    requires ValidAxes(axes)
    ensures |CrossPairs(axes)| == SumOfProducts(axes)
  {
    if axes == [] {
      assert CrossPairs(axes) == {};
    } else {
      var last := |axes| - 1;
      CountCrossPairs(axes[..last]);
      CountPairsInto(axes[..last], last, axes[last]);
      CrossPairsLast(axes);
    }
  }

  lemma CrossPairsLast(axes: Axes)
    requires axes != []
    ensures |CrossPairs(axes)| ==
      |CrossPairs(axes[..|axes| - 1])| + |PairsInto(axes[..|axes| - 1], |axes| - 1, axes[|axes| - 1])|
  {
    var last := |axes| - 1;
    var low, high := CrossPairs(axes[..last]), PairsInto(axes[..last], last, axes[last]);
    assert CrossPairs(axes) == low + high && low !! high;
  }

  // Each tuple over k axes covers exactly ChooseTwo(k) pairs.
  lemma PairsPerTuple(values: seq<string>)
    ensures |Pairs(values)| == ChooseTwo(|values|)
  {
    var axes := seq(|values|, i requires 0 <= i < |values| => [values[i]]);
    CountCrossPairs(axes);
    SingletonProducts(axes);
    assert Pairs(values) == CrossPairs(axes);
  }

  lemma {:induction false} SingletonProducts(axes: Axes)
    requires forall k :: 0 <= k < |axes| ==> |axes[k]| == 1
    ensures Total(axes) == |axes| && SumOfProducts(axes) == ChooseTwo(|axes|)
  {
    if axes != [] { SingletonProducts(axes[..|axes| - 1]); }
  }
}
