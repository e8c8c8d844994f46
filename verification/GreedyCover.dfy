// The greedy set-cover loop of tests/test_acceptance_option_pairs.py, for an
// arbitrary family of finite sets: what the loop selects, and how far that
// selection can be from the smallest possible one.
module GreedyCover {

  function Union<T>(sets: seq<set<T>>): set<T> {
    set i, x | 0 <= i < |sets| && x in sets[i] :: x
  }

  // The key of Python's `max(range(n), key=...)`.
  function Gain<T>(candidate: set<T>, uncovered: set<T>): nat {
    |candidate * uncovered|
  }

  // The earliest candidate of greatest gain.
  ghost predicate IsBest<T>(coverage: seq<set<T>>, uncovered: set<T>, best: nat) {
    && best < |coverage|
    && (forall j :: 0 <= j < |coverage| ==> Gain(coverage[j], uncovered) <= Gain(coverage[best], uncovered))
    && (forall j :: 0 <= j < best ==> Gain(coverage[j], uncovered) < Gain(coverage[best], uncovered))
  }

  function Best<T>(coverage: seq<set<T>>, uncovered: set<T>): (best: nat)
    requires coverage != []
    ensures IsBest(coverage, uncovered, best)
  {
    var last := |coverage| - 1;
    if last == 0 then 0
    else
      var b := Best(coverage[..last], uncovered);
      if Gain(coverage[b], uncovered) < Gain(coverage[last], uncovered) then last else b
  }

  // The assertion inside the loop: while anything is uncovered, the best
  // candidate covers some of it.
  lemma BestMakesProgress<T>(coverage: seq<set<T>>, uncovered: set<T>)
    requires uncovered <= Union(coverage) && uncovered != {}
    ensures coverage != []
    ensures Gain(coverage[Best(coverage, uncovered)], uncovered) > 0
    ensures |uncovered - coverage[Best(coverage, uncovered)]|
         == |uncovered| - Gain(coverage[Best(coverage, uncovered)], uncovered)
  {
    var x :| x in uncovered;
    var i :| 0 <= i < |coverage| && x in coverage[i];
    assert x in coverage[i] * uncovered;
    assert Gain(coverage[i], uncovered) > 0;
    Shrinks(uncovered, coverage[Best(coverage, uncovered)]);
  }

  // The indices the loop appends to `selected` from the state `uncovered` on.
  ghost function Greedy<T>(coverage: seq<set<T>>, uncovered: set<T>): seq<nat>
    requires uncovered <= Union(coverage)
    decreases |uncovered|
  {
    if uncovered == {} then []
    else
      BestMakesProgress(coverage, uncovered);
      var best := Best(coverage, uncovered);
      [best] + Greedy(coverage, uncovered - coverage[best])
  }

  // One unfolding of `Greedy`.
  lemma GreedyStep<T>(coverage: seq<set<T>>, uncovered: set<T>) returns (best: nat, rest: set<T>)
    requires uncovered <= Union(coverage) && uncovered != {}
    ensures coverage != [] && best == Best(coverage, uncovered) && rest == uncovered - coverage[best]
    ensures Gain(coverage[best], uncovered) > 0 && |rest| == |uncovered| - Gain(coverage[best], uncovered)
    ensures Greedy(coverage, uncovered) == [best] + Greedy(coverage, rest)
  {
    BestMakesProgress(coverage, uncovered);
    best := Best(coverage, uncovered);
    rest := uncovered - coverage[best];
  }

  lemma Shrinks<T>(uncovered: set<T>, chosen: set<T>)
    ensures |uncovered - chosen| == |uncovered| - |chosen * uncovered|
  {
    assert uncovered == (uncovered - chosen) + (chosen * uncovered);
  }

  ghost predicate InRange<T>(coverage: seq<set<T>>, picks: seq<nat>) {
    forall k :: 0 <= k < |picks| ==> picks[k] < |coverage|
  }

  // What is still uncovered after the picks in `picks`.
  ghost function Left<T>(coverage: seq<set<T>>, uncovered: set<T>, picks: seq<nat>): set<T>
    requires InRange(coverage, picks)
  {
    uncovered - (set k, x | 0 <= k < |picks| && x in coverage[picks[k]] :: x)
  }

  lemma LeftAfterFirst<T>(coverage: seq<set<T>>, uncovered: set<T>, picks: seq<nat>)
    requires InRange(coverage, picks) && picks != []
    ensures Left(coverage, uncovered, picks)
         == Left(coverage, uncovered - coverage[picks[0]], picks[1..])
  {
    var tail := picks[1..];
    forall x | x in Left(coverage, uncovered - coverage[picks[0]], tail)
      ensures x in Left(coverage, uncovered, picks)
    {
      forall k | 0 <= k < |picks| ensures x !in coverage[picks[k]] {
        if k > 0 { assert tail[k - 1] == picks[k]; }
      }
    }
  }

  // Every pick of a run, described without the run: it is the earliest
  // candidate of greatest gain over what the earlier picks left uncovered, and
  // that gain is not zero; at the end nothing is left.
  ghost predicate IsGreedyPick<T>(coverage: seq<set<T>>, uncovered: set<T>, picks: seq<nat>, i: nat)
    requires InRange(coverage, picks) && i < |picks|
  {
    var left := Left(coverage, uncovered, picks[..i]);
    IsBest(coverage, left, picks[i]) && Gain(coverage[picks[i]], left) > 0
  }

  lemma {:induction false} GreedyPicks<T>(coverage: seq<set<T>>, uncovered: set<T>)
    requires uncovered <= Union(coverage)
    ensures InRange(coverage, Greedy(coverage, uncovered))
    ensures Left(coverage, uncovered, Greedy(coverage, uncovered)) == {}
    ensures forall i :: 0 <= i < |Greedy(coverage, uncovered)| ==>
      IsGreedyPick(coverage, uncovered, Greedy(coverage, uncovered), i)
    decreases |uncovered|
  {
    if uncovered != {} {
      var best, rest := GreedyStep(coverage, uncovered);
      GreedyPicks(coverage, rest);
      PrependPick(coverage, uncovered, best, Greedy(coverage, rest));
    }
  }

  lemma PrependPick<T>(coverage: seq<set<T>>, uncovered: set<T>, best: nat, tail: seq<nat>)
    requires IsBest(coverage, uncovered, best) && Gain(coverage[best], uncovered) > 0
    requires InRange(coverage, tail)
    requires forall i :: 0 <= i < |tail| ==> IsGreedyPick(coverage, uncovered - coverage[best], tail, i)
    ensures InRange(coverage, [best] + tail)
    ensures Left(coverage, uncovered, [best] + tail) == Left(coverage, uncovered - coverage[best], tail)
    ensures forall i :: 0 <= i < |[best] + tail| ==> IsGreedyPick(coverage, uncovered, [best] + tail, i)
  {
    var picks := [best] + tail;
    assert picks[1..] == tail;
    LeftAfterFirst(coverage, uncovered, picks);
    forall i | 0 <= i < |picks| ensures IsGreedyPick(coverage, uncovered, picks, i) {
      if i > 0 {
        assert picks[..i][1..] == tail[..i - 1];
        LeftAfterFirst(coverage, uncovered, picks[..i]);
        assert IsGreedyPick(coverage, uncovered - coverage[best], tail, i - 1);
      } else {
        assert Left(coverage, uncovered, picks[..0]) == uncovered;
      }
    }
  }

  ghost predicate IsSplit(whole: seq<nat>, front: seq<nat>, back: seq<nat>) {
    whole == front + back
  }

  // One iteration of the loop continues the run `whole` that began earlier.
  lemma LoopStep<T>(coverage: seq<set<T>>, uncovered: set<T>, picks: seq<nat>, whole: seq<nat>)
    requires uncovered <= Union(coverage) && uncovered != {}
    requires InRange(coverage, picks) && IsSplit(whole, picks, Greedy(coverage, uncovered))
    ensures coverage != []
    ensures Gain(coverage[Best(coverage, uncovered)], uncovered) > 0
    ensures |uncovered - coverage[Best(coverage, uncovered)]| < |uncovered|
    ensures IsSplit(whole, picks + [Best(coverage, uncovered)],
      Greedy(coverage, uncovered - coverage[Best(coverage, uncovered)]))
  {
    var best, rest := GreedyStep(coverage, uncovered);
    Reassociate(picks, best, Greedy(coverage, rest));
  }

  lemma Reassociate(front: seq<nat>, middle: nat, back: seq<nat>)
    ensures front + ([middle] + back) == front + [middle] + back
  {
  }

  // Later states of one run leave less uncovered.
  lemma LeftShrinks<T>(coverage: seq<set<T>>, uncovered: set<T>, picks: seq<nat>, i: nat, j: nat)
    requires InRange(coverage, picks) && i < j <= |picks|
    ensures Left(coverage, uncovered, picks[..j]) <= Left(coverage, uncovered, picks[..i]) - coverage[picks[i]]
  {
    forall x | x in Left(coverage, uncovered, picks[..j])
      ensures x in Left(coverage, uncovered, picks[..i]) && x !in coverage[picks[i]]
    {
      assert forall k :: 0 <= k <= i ==> picks[..j][k] == picks[k];
      assert forall k :: 0 <= k < i ==> picks[..i][k] == picks[..j][k];
    }
  }

  // Gains never increase, and no candidate is picked twice.
  lemma GainsNeverIncrease<T>(coverage: seq<set<T>>, uncovered: set<T>, picks: seq<nat>, i: nat, j: nat)
    requires InRange(coverage, picks) && i < j < |picks|
    requires IsGreedyPick(coverage, uncovered, picks, i) && IsGreedyPick(coverage, uncovered, picks, j)
    ensures Gain(coverage[picks[j]], Left(coverage, uncovered, picks[..j]))
         <= Gain(coverage[picks[i]], Left(coverage, uncovered, picks[..i]))
    ensures picks[i] != picks[j]
  {
    LeftShrinks(coverage, uncovered, picks, i, j);
    var before, after := Left(coverage, uncovered, picks[..i]), Left(coverage, uncovered, picks[..j]);
    SubsetSize(coverage[picks[j]] * after, coverage[picks[j]] * before);
    assert coverage[picks[i]] * after == {};
  }

  lemma SubsetSize<T>(a: set<T>, b: set<T>)
    requires a <= b
    ensures |a| <= |b|
  {
    assert b == a + (b - a);
  }

  // ---- The harmonic bound ----

  ghost function Harmonic(n: nat): real {
    if n == 0 then 0.0 else Harmonic(n - 1) + 1.0 / n as real
  }

  lemma {:induction false} HarmonicMonotone(m: nat, n: nat)
    requires m <= n
    ensures 0.0 <= Harmonic(m) <= Harmonic(n)
    decreases n
  {
    if n > 0 {
      if m < n { HarmonicMonotone(m, n - 1); } else { HarmonicMonotone(n - 1, n - 1); }
    }
  }

  // n * unit, as a sum.
  ghost function Times(n: nat, unit: real): real {
    if n == 0 then 0.0 else Times(n - 1, unit) + unit
  }

  lemma {:induction false} TimesAdd(m: nat, n: nat, unit: real)
    ensures Times(m + n, unit) == Times(m, unit) + Times(n, unit)
  {
    if n > 0 { TimesAdd(m, n - 1, unit); }
  }

  lemma {:induction false} TimesMonotone(m: nat, n: nat, unit: real)
    requires m <= n && 0.0 <= unit
    ensures 0.0 <= Times(m, unit) <= Times(n, unit)
    decreases n
  {
    if n > 0 { TimesMonotone(if m < n then m else m - 1, n - 1, unit); }
  }

  lemma {:induction false} TimesIsProduct(n: nat, unit: real)
    ensures Times(n, unit) == n as real * unit
  {
    if n > 0 { TimesIsProduct(n - 1, unit); }
  }

  lemma {:induction false} TimesIsNatProduct(n: nat, width: nat)
    ensures Times(n, width as real) == (width * n) as real
  {
    if n > 0 {
      TimesIsNatProduct(n - 1, width);
      assert width * n == width * (n - 1) + width;
    }
  }

  lemma UnitFraction(n: nat, cap: nat, unit: real)
    requires 0 < n <= cap && unit == 1.0 / cap as real
    ensures unit <= 1.0 / n as real && Times(cap, unit) == 1.0
  {
    TimesIsProduct(cap, unit);
  }

  // Dropping from `n` to `m` releases at least 1 / cap per step when n <= cap.
  lemma {:induction false} HarmonicDrop(m: nat, n: nat, cap: nat)
    requires m <= n <= cap && 0 < cap
    ensures Harmonic(n) - Harmonic(m) >= Times(n - m, 1.0 / cap as real)
    decreases n
  {
    if m < n {
      HarmonicDrop(m, n - 1, cap);
      UnitFraction(n, cap, 1.0 / cap as real);
    }
  }

  // When no candidate covers more than `width` elements, a selection cannot be
  // shorter than the number of elements divided by `width`.
  lemma {:induction false} SelectionIsNotTooShort<T>(coverage: seq<set<T>>, uncovered: set<T>, width: nat)
    requires uncovered <= Union(coverage)
    requires forall k :: 0 <= k < |coverage| ==> |coverage[k]| <= width
    ensures |uncovered| as real <= Times(|Greedy(coverage, uncovered)|, width as real)
    decreases |uncovered|
  {
    if uncovered != {} {
      var best, rest := GreedyStep(coverage, uncovered);
      SubsetSize(coverage[best] * uncovered, coverage[best]);
      SelectionIsNotTooShort(coverage, rest, width);
      assert |Greedy(coverage, uncovered)| - 1 == |Greedy(coverage, rest)|;
    }
  }

  // The charge still owed by the members of `family`.
  ghost function Owed<T>(family: seq<set<T>>, uncovered: set<T>): real {
    if family == [] then 0.0
    else Harmonic(Gain(family[0], uncovered)) + Owed(family[1..], uncovered)
  }

  // How often the members of `family` cover elements of `part`.
  ghost function Incidences<T>(family: seq<set<T>>, part: set<T>): nat {
    if family == [] then 0 else Gain(family[0], part) + Incidences(family[1..], part)
  }

  lemma {:induction false} IncidencesCover<T>(family: seq<set<T>>, part: set<T>)
    requires part <= Union(family)
    ensures |part| <= Incidences(family, part)
  {
    if family != [] {
      var rest := part - family[0];
      assert rest <= Union(family[1..]) by {
        forall x | x in rest ensures x in Union(family[1..]) {
          var i :| 0 <= i < |family| && x in family[i];
          assert family[1..][i - 1] == family[i];
        }
      }
      IncidencesCover(family[1..], rest);
      IncidencesMonotone(family[1..], rest, part);
      Shrinks(part, family[0]);
    }
  }

  lemma {:induction false} IncidencesMonotone<T>(family: seq<set<T>>, small: set<T>, big: set<T>)
    requires small <= big
    ensures Incidences(family, small) <= Incidences(family, big)
  {
    if family != [] {
      SubsetSize(family[0] * small, family[0] * big);
      IncidencesMonotone(family[1..], small, big);
    }
  }

  // When no member gains more than `cap`, covering `chosen` next pays off
  // 1 / cap for every incidence of the newly covered part.
  lemma {:induction false} OwedDrops<T>(family: seq<set<T>>, uncovered: set<T>, chosen: set<T>, cap: nat, unit: real)
    requires 0 < cap && unit == 1.0 / cap as real
    requires forall k :: 0 <= k < |family| ==> Gain(family[k], uncovered) <= cap
    ensures Owed(family, uncovered) - Owed(family, uncovered - chosen)
         >= Times(Incidences(family, chosen * uncovered), unit)
  {
    if family != [] {
      var rest, part := uncovered - chosen, chosen * uncovered;
      SplitGain(family[0], uncovered, chosen);
      HarmonicDrop(Gain(family[0], rest), Gain(family[0], uncovered), cap);
      OwedDrops(family[1..], uncovered, chosen, cap, unit);
      TimesAdd(Gain(family[0], part), Incidences(family[1..], part), unit);
    }
  }

  lemma SplitGain<T>(member: set<T>, uncovered: set<T>, chosen: set<T>)
    ensures Gain(member, uncovered) == Gain(member, uncovered - chosen) + Gain(member, chosen * uncovered)
  {
    assert member * uncovered == member * (uncovered - chosen) + member * (chosen * uncovered);
  }

  lemma {:induction false} OwedAtMost<T>(family: seq<set<T>>, uncovered: set<T>, width: nat)
    requires forall k :: 0 <= k < |family| ==> |family[k]| <= width
    ensures 0.0 <= Owed(family, uncovered) <= Harmonic(width) * |family| as real
  {
    if family != [] {
      SubsetSize(family[0] * uncovered, family[0]);
      HarmonicMonotone(|family[0] * uncovered|, width);
      OwedAtMost(family[1..], uncovered, width);
    }
  }

  // Every greedy step pays at least one unit of what any covering subfamily owes.
  lemma {:induction false} GreedyIsPaidFor<T>(coverage: seq<set<T>>, uncovered: set<T>, family: seq<set<T>>)
    requires uncovered <= Union(coverage) && uncovered <= Union(family)
    requires forall k :: 0 <= k < |family| ==> family[k] in coverage
    ensures |Greedy(coverage, uncovered)| as real <= Owed(family, uncovered)
    decreases |uncovered|
  {
    if uncovered == {} {
      OwedAtMost(family, uncovered, Widest(family));
    } else {
      var best, rest := GreedyStep(coverage, uncovered);
      GreedyIsPaidFor(coverage, rest, family);
      forall k | 0 <= k < |family|
        ensures Gain(family[k], uncovered) <= Gain(coverage[best], uncovered)
      {
        assert family[k] in coverage;
      }
      StepIsPaidFor(family, uncovered, coverage[best]);
    }
  }

  lemma StepIsPaidFor<T>(family: seq<set<T>>, uncovered: set<T>, chosen: set<T>)
    requires uncovered <= Union(family) && Gain(chosen, uncovered) > 0
    requires forall k :: 0 <= k < |family| ==> Gain(family[k], uncovered) <= Gain(chosen, uncovered)
    ensures Owed(family, uncovered) - Owed(family, uncovered - chosen) >= 1.0
  {
    var cap, part := Gain(chosen, uncovered), chosen * uncovered;
    var unit := 1.0 / cap as real;
    OwedDrops(family, uncovered, chosen, cap, unit);
    assert part <= Union(family);
    IncidencesCover(family, part);
    FullUnit(cap, Incidences(family, part), unit);
  }

  lemma FullUnit(cap: nat, n: nat, unit: real)
    requires 0 < cap <= n && unit == 1.0 / cap as real
    ensures Times(n, unit) >= 1.0
  {
    UnitFraction(cap, cap, unit);
    TimesMonotone(cap, n, unit);
  }

  ghost function Widest<T>(family: seq<set<T>>): (width: nat)
    ensures forall k :: 0 <= k < |family| ==> |family[k]| <= width
  {
    if family == [] then 0
    else
      var rest := Widest(family[1..]);
      if |family[0]| > rest then |family[0]| else rest
  }

  // m is at most factor * n.
  ghost predicate AtMostTimes(m: nat, factor: real, n: nat) {
    m as real <= factor * n as real
  }

  // The greedy selection is at most H(width) times longer than ANY subfamily of
  // the candidates that covers the same elements, where `width` bounds the size
  // of one candidate.
  lemma GreedyIsNearlyOptimal<T>(coverage: seq<set<T>>, uncovered: set<T>, family: seq<set<T>>, width: nat)
    requires uncovered <= Union(coverage) && uncovered <= Union(family)
    requires forall k :: 0 <= k < |family| ==> family[k] in coverage
    requires forall k :: 0 <= k < |coverage| ==> |coverage[k]| <= width
    ensures AtMostTimes(|Greedy(coverage, uncovered)|, Harmonic(width), |family|)
  {
    GreedyIsPaidFor(coverage, uncovered, family);
    OwedAtMost(family, uncovered, width);
  }
}
