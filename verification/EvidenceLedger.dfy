// The case ledger of scripts/accept_cross_interface_matrix.py: one case for every
// combination of a source, an output, a mode and an interface.
module EvidenceLedger {
  import opened Sequences
  import opened Options
  import opened OptionPairs
  import opened OptionCounts

  datatype Status = Blocked | Passed | Failed

  // What a case produces; `surface` is the interface it is produced through.
  datatype Key = Key(source: string, output: string, mode: string)

  datatype Case = Case(
    id: string, key: Key, surface: string, status: Status, reason: Option<string>, evidence: Option<string>)

  function Id(source: string, output: string, mode: string, surface: string): string {
    "core/" + (source + "/" + (output + "/" + (mode + "/" + surface)))
  }

  function NewCase(tuple: seq<string>): Case
    requires |tuple| == 4
  {
    Case(Id(tuple[0], tuple[1], tuple[2], tuple[3]), Key(tuple[0], tuple[1], tuple[2]),
      tuple[3], Blocked, Some("not_executed"), None)
  }

  lemma ProductArity(axes: Axes)
    ensures forall t <- Product(axes) :: |t| == |axes|
  {
    forall t | t in Product(axes) ensures |t| == |axes| { ProductContains(axes, t); }
  }

  function Combinations(
    sources: seq<string>, outputs: seq<string>, modes: seq<string>, surfaces: seq<string>): seq<seq<string>>
  {
    Product([sources, outputs, modes, surfaces])
  }

  // The nested comprehension over the four axes, the last one varying fastest.
  function Ledger(sources: seq<string>, outputs: seq<string>, modes: seq<string>, surfaces: seq<string>): seq<Case> {
    var tuples := Combinations(sources, outputs, modes, surfaces);
    ProductArity([sources, outputs, modes, surfaces]);
    seq(|tuples|, i requires 0 <= i < |tuples| => NewCase(tuples[i]))
  }

  // ---- Distinct tuples ----

  lemma PrependIsDistinct(head: string, tails: seq<seq<string>>)
    ensures Distinct(Prepend(head, tails)) <==> Distinct(tails)
  {
    var whole := Prepend(head, tails);
    assert forall i :: 0 <= i < |tails| ==> whole[i][1..] == tails[i] && whole[i] == [head] + tails[i];
  }

  lemma ConcatIsDistinct(a: seq<seq<string>>, b: seq<seq<string>>)
    ensures Distinct(a + b) <==> Distinct(a) && Distinct(b) && forall t <- a :: t !in b
  {
    var both := a + b;
    if Distinct(both) {
      forall i, j | 0 <= i < j < |a| ensures a[i] != a[j] { assert both[i] != both[j]; }
      forall i, j | 0 <= i < j < |b| ensures b[i] != b[j] { assert both[|a| + i] != both[|a| + j]; }
      forall i, j | 0 <= i < |a| && 0 <= j < |b| ensures a[i] != b[j] { assert both[i] != both[|a| + j]; }
    } else {
      var i, j :| 0 <= i < j < |both| && both[i] == both[j];
      if i < |a| <= j { assert a[i] in a && b[j - |a|] in b; }
    }
  }

  lemma {:induction false} PrependEachIsDistinct(values: seq<string>, tails: seq<seq<string>>)
    requires tails != []
    ensures Distinct(PrependEach(values, tails)) <==>
      values == [] || (Distinct(values) && Distinct(tails))
  {
    if values != [] {
      var first, rest := Prepend(values[0], tails), PrependEach(values[1..], tails);
      PrependEachIsDistinct(values[1..], tails);
      PrependIsDistinct(values[0], tails);
      ConcatIsDistinct(first, rest);
      assert PrependEach(values, tails) == first + rest;
      if values[0] in values[1..] {
        assert first[0] in rest by {
          PrependEachContains(values[1..], tails, first[0]);
          assert first[0][1..] == tails[0];
        }
        assert first[0] in first;
        var k :| 0 <= k < |values[1..]| && values[1..][k] == values[0];
        assert values[k + 1] == values[0];
      } else {
        forall t | t in first ensures t !in rest { PrependEachContains(values[1..], tails, t); }
        DistinctCons(values);
      }
    }
  }

  lemma DistinctCons(values: seq<string>)
    requires values != [] && values[0] !in values[1..]
    ensures Distinct(values) <==> Distinct(values[1..])
  {
    assert forall i :: 0 < i < |values| ==> values[i] == values[1..][i - 1];
    assert forall i :: 0 <= i < |values[1..]| ==> values[1..][i] == values[i + 1];
  }

  // The product of nonempty axes repeats a tuple exactly when an axis repeats a value.
  lemma {:induction false} ProductIsDistinct(axes: Axes)
    requires forall k :: 0 <= k < |axes| ==> axes[k] != []
    ensures Product(axes) != []
    ensures Distinct(Product(axes)) <==> forall k :: 0 <= k < |axes| ==> Distinct(axes[k])
  {
    if axes != [] {
      ProductIsDistinct(axes[1..]);
      PrependEachIsDistinct(axes[0], Product(axes[1..]));
      PrependEachContains(axes[0], Product(axes[1..]), [axes[0][0]] + Product(axes[1..])[0]);
      assert forall k :: 0 < k < |axes| ==> axes[k] == axes[1..][k - 1];
      assert forall k :: 0 <= k < |axes[1..]| ==> axes[1..][k] == axes[k + 1];
    }
  }

  // ---- Distinct ids ----

  ghost predicate NoSlash(text: string) {
    forall i :: 0 <= i < |text| ==> text[i] != '/'
  }

  lemma SplitAtSlash(a: string, b: string, c: string, d: string)
    requires NoSlash(a) && NoSlash(c) && a + "/" + b == c + "/" + d
    ensures a == c && b == d
  {
    var x, y := a + "/" + b, c + "/" + d;
    assert x[|a|] == '/' && y[|c|] == '/';
    assert forall i :: 0 <= i < |a| ==> x[i] == a[i];
    assert forall i :: 0 <= i < |c| ==> y[i] == c[i];
    assert |a| == |c|;
    assert x[..|a|] == a && y[..|c|] == c && x[|a| + 1..] == b && y[|c| + 1..] == d;
  }

  lemma IdDetermines(a: string, b: string, c: string, d: string, e: string, f: string, g: string, h: string)
    requires NoSlash(a) && NoSlash(b) && NoSlash(c) && NoSlash(e) && NoSlash(f) && NoSlash(g)
    requires Id(a, b, c, d) == Id(e, f, g, h)
    ensures a == e && b == f && c == g && d == h
  {
    assert Id(a, b, c, d)[5..] == a + "/" + (b + "/" + (c + "/" + d));
    assert Id(e, f, g, h)[5..] == e + "/" + (f + "/" + (g + "/" + h));
    SplitAtSlash(a, b + "/" + (c + "/" + d), e, f + "/" + (g + "/" + h));
    SplitAtSlash(b, c + "/" + d, f, g + "/" + h);
    SplitAtSlash(c, d, g, h);
  }

  ghost predicate DistinctIds(cases: seq<Case>) {
    forall i, j :: 0 <= i < j < |cases| ==> cases[i].id != cases[j].id
  }

  ghost predicate NoSlashes(values: seq<string>) {
    forall value <- values :: NoSlash(value)
  }

  // The ledger has exactly one case per combination, and its ids are distinct
  // exactly when no axis repeats a value. (No declared axis value has a slash.)
  lemma LedgerIds(sources: seq<string>, outputs: seq<string>, modes: seq<string>, surfaces: seq<string>)
    requires sources != [] && outputs != [] && modes != [] && surfaces != []
    requires NoSlashes(sources) && NoSlashes(outputs) && NoSlashes(modes)
    ensures DistinctIds(Ledger(sources, outputs, modes, surfaces)) <==>
      Distinct(sources) && Distinct(outputs) && Distinct(modes) && Distinct(surfaces)
  {
    var axes := [sources, outputs, modes, surfaces];
    ProductIsDistinct(axes);
    IdsFollowTuples(sources, outputs, modes, surfaces);
    EachOfFour(axes);
  }

  lemma EachOfFour(axes: Axes)
    requires |axes| == 4
    ensures (forall k :: 0 <= k < |axes| ==> Distinct(axes[k])) <==>
      Distinct(axes[0]) && Distinct(axes[1]) && Distinct(axes[2]) && Distinct(axes[3])
  {
  }

  lemma IdsFollowTuples(sources: seq<string>, outputs: seq<string>, modes: seq<string>, surfaces: seq<string>)
    requires NoSlashes(sources) && NoSlashes(outputs) && NoSlashes(modes)
    ensures DistinctIds(Ledger(sources, outputs, modes, surfaces)) <==>
      Distinct(Product([sources, outputs, modes, surfaces]))
  {
    var axes := [sources, outputs, modes, surfaces];
    var tuples, ledger := Product(axes), Ledger(sources, outputs, modes, surfaces);
    ProductArity(axes);
    forall i, j | 0 <= i < j < |ledger| ensures ledger[i].id == ledger[j].id <==> tuples[i] == tuples[j] {
      SameId(axes, tuples[i], tuples[j]);
    }
  }

  lemma SameId(axes: Axes, s: seq<string>, t: seq<string>)
    requires |axes| == 4 && s in Product(axes) && t in Product(axes) && |s| == |t| == 4
    requires NoSlashes(axes[0]) && NoSlashes(axes[1]) && NoSlashes(axes[2])
    ensures NewCase(s).id == NewCase(t).id <==> s == t
  {
    ProductContains(axes, s);
    ProductContains(axes, t);
    if NewCase(s).id == NewCase(t).id {
      IdDetermines(s[0], s[1], s[2], s[3], t[0], t[1], t[2], t[3]);
    }
  }

  lemma LedgerSize(sources: seq<string>, outputs: seq<string>, modes: seq<string>, surfaces: seq<string>)
    ensures |Ledger(sources, outputs, modes, surfaces)| == |sources| * (|outputs| * (|modes| * |surfaces|))
  {
    var axes := [sources, outputs, modes, surfaces];
    ProductSize(axes);
    assert axes[1..] == [outputs, modes, surfaces] && axes[1..][1..] == [modes, surfaces];
    assert [modes, surfaces][1..] == [surfaces] && [surfaces][1..] == [];
    assert SizeProduct([surfaces]) == |surfaces|;
    assert SizeProduct([modes, surfaces]) == |modes| * |surfaces|;
  }

  // ---- What a case is for ----

  // The four values a case stands for.
  function Combination(case_: Case): seq<string> {
    [case_.key.source, case_.key.output, case_.key.mode, case_.surface]
  }

  // The cases stand for the combinations of the axis values, in the order of the
  // nested loops, and none of them has been decided.
  lemma LedgerIsProduct(sources: seq<string>, outputs: seq<string>, modes: seq<string>, surfaces: seq<string>)
    ensures var cases := Ledger(sources, outputs, modes, surfaces);
      var tuples := Combinations(sources, outputs, modes, surfaces);
      && |cases| == |tuples| && InOrder([sources, outputs, modes, surfaces], tuples)
      && forall i :: 0 <= i < |cases| ==> Combination(cases[i]) == tuples[i]
    ensures forall case_ <- Ledger(sources, outputs, modes, surfaces) ::
      case_.status.Blocked? && case_.reason == Some("not_executed") && case_.evidence == None
  {
    ProductArity([sources, outputs, modes, surfaces]);
    ProductInOrder([sources, outputs, modes, surfaces]);
  }

  // A case's id spells its combination out.
  lemma IdOfCase(
    sources: seq<string>, outputs: seq<string>, modes: seq<string>, surfaces: seq<string>, i: nat)
    requires i < |Ledger(sources, outputs, modes, surfaces)|
    ensures var case_ := Ledger(sources, outputs, modes, surfaces)[i];
      var Key(source, output, mode) := case_.key;
      case_.id == "core/" + source + "/" + output + "/" + mode + "/" + case_.surface
  {
    var case_ := Ledger(sources, outputs, modes, surfaces)[i];
    var Key(source, output, mode) := case_.key;
    assert case_.id == Id(source, output, mode, case_.surface);
    assert "core/" + (source + "/" + (output + "/" + (mode + "/" + case_.surface)))
        == "core/" + source + "/" + output + "/" + mode + "/" + case_.surface;
  }

  // Cases are compared exactly when they differ in the interface only.
  lemma KeysFollowCombinations(
    sources: seq<string>, outputs: seq<string>, modes: seq<string>, surfaces: seq<string>, i: nat, j: nat)
    requires i < |Ledger(sources, outputs, modes, surfaces)| && j < |Ledger(sources, outputs, modes, surfaces)|
    ensures |Ledger(sources, outputs, modes, surfaces)| == |Combinations(sources, outputs, modes, surfaces)|
    ensures Ledger(sources, outputs, modes, surfaces)[i].key == Ledger(sources, outputs, modes, surfaces)[j].key
       <==> AreCompared(Combinations(sources, outputs, modes, surfaces), i, j)
  {
    LedgerIsProduct(sources, outputs, modes, surfaces);
    var tuples := Combinations(sources, outputs, modes, surfaces);
    var s, t := tuples[i], tuples[j];
    assert |s| == |t| == 4;
    SameFront(s, t);
  }

  // Two combinations that share source, output and mode.
  ghost predicate AreCompared(tuples: seq<seq<string>>, i: nat, j: nat)
    requires i < |tuples| && j < |tuples|
  {
    |tuples[i]| == |tuples[j]| == 4 && tuples[i][..3] == tuples[j][..3]
  }

  lemma SameFront(s: seq<string>, t: seq<string>)
    requires |s| == |t| == 4
    ensures s[..3] == t[..3] <==> s[0] == t[0] && s[1] == t[1] && s[2] == t[2]
  {
    assert s[..3][0] == s[0] && s[..3][1] == s[1] && s[..3][2] == s[2];
    assert t[..3][0] == t[0] && t[..3][1] == t[1] && t[..3][2] == t[2];
  }

  // There is a case for a combination exactly when each value is on its axis.
  lemma LedgerContains(sources: seq<string>, outputs: seq<string>, modes: seq<string>, surfaces: seq<string>,
                       source: string, output: string, mode: string, surface: string)
    ensures (exists case_ <- Ledger(sources, outputs, modes, surfaces) ::
               Combination(case_) == [source, output, mode, surface])
       <==> source in sources && output in outputs && mode in modes && surface in surfaces
  {
    var axes, tuple := [sources, outputs, modes, surfaces], [source, output, mode, surface];
    var cases := Ledger(sources, outputs, modes, surfaces);
    LedgerIsProduct(sources, outputs, modes, surfaces);
    CombinationsContain(sources, outputs, modes, surfaces, tuple);
    if tuple in Product(axes) {
      var i :| 0 <= i < |cases| && Product(axes)[i] == tuple;
      assert cases[i] in cases && Combination(cases[i]) == tuple;
    }
    if case_ :| case_ in cases && Combination(case_) == tuple {
      var i :| 0 <= i < |cases| && cases[i] == case_;
      assert Product(axes)[i] == tuple;
    }
  }

  lemma CombinationsContain(
    sources: seq<string>, outputs: seq<string>, modes: seq<string>, surfaces: seq<string>, tuple: seq<string>)
    ensures tuple in Combinations(sources, outputs, modes, surfaces) <==>
      |tuple| == 4 && tuple[0] in sources && tuple[1] in outputs && tuple[2] in modes && tuple[3] in surfaces
  {
    ProductContains([sources, outputs, modes, surfaces], tuple);
    if |tuple| == 4 { InFourAxes([sources, outputs, modes, surfaces], tuple); }
  }

  lemma InFourAxes(axes: Axes, tuple: seq<string>)
    requires |axes| == |tuple| == 4
    ensures InProduct(axes, tuple) <==>
      tuple[0] in axes[0] && tuple[1] in axes[1] && tuple[2] in axes[2] && tuple[3] in axes[3]
  {
  }
}
