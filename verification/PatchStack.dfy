// `_compose_activation_patches` of tests/test_activation_patches.py: unwind a
// checkout that may already hold some of the patches, compose them all, and check
// that the whole composition can be reversed and repeated.
module PatchStack {
  import opened Options

  // What `git apply` and `git apply --reverse` do to a tree; None is a failing
  // `--check`.
  datatype Patch<!T> = Patch(forward: T -> Option<T>, backward: T -> Option<T>)

  // A patch is a partial injection, and its reverse is the inverse.
  ghost predicate IsPatch<T(!new)>(patch: Patch<T>) {
    forall t, u :: patch.forward(t) == Some(u) <==> patch.backward(u) == Some(t)
  }

  ghost predicate ArePatches<T(!new)>(patches: seq<Patch<T>>) {
    forall k :: 0 <= k < |patches| ==> IsPatch(patches[k])
  }

  // All patches in order, and all reverses in the opposite order.
  function ApplyAll<T>(patches: seq<Patch<T>>, tree: T): Option<T> {
    if patches == [] then Some(tree)
    else match ApplyAll(patches[..|patches| - 1], tree)
      case None => None
      case Some(t) => patches[|patches| - 1].forward(t)
  }

  function ReverseAll<T>(patches: seq<Patch<T>>, tree: T): Option<T> {
    if patches == [] then Some(tree)
    else match patches[|patches| - 1].backward(tree)
      case None => None
      case Some(t) => ReverseAll(patches[..|patches| - 1], t)
  }

  // The composition is a partial injection as well, with `ReverseAll` its inverse.
  lemma {:induction false} ComposedIsPatch<T(!new)>(patches: seq<Patch<T>>, t: T, u: T)
    requires ArePatches(patches)
    ensures ApplyAll(patches, t) == Some(u) <==> ReverseAll(patches, u) == Some(t)
  {
    if patches != [] {
      var last, rest := patches[|patches| - 1], patches[..|patches| - 1];
      if ApplyAll(rest, t).Some? { ComposedIsPatch(rest, t, ApplyAll(rest, t).value); }
      if last.backward(u).Some? { ComposedIsPatch(rest, t, last.backward(u).value); }
    }
  }

  // The number of registration patches below the optional overlays.
  const REGISTRATIONS := 4

  // Take every overlay below position `n` off that can be taken off, from the top.
  function UnwindOverlays<T>(patches: seq<Patch<T>>, n: nat, tree: T): T
    requires n <= |patches|
  {
    if n <= REGISTRATIONS then tree
    else match patches[n - 1].backward(tree)
      case None => UnwindOverlays(patches, n - 1, tree)
      case Some(t) => UnwindOverlays(patches, n - 1, t)
  }

  // The tree composition starts from; None when a registration does not unwind.
  function Unwound<T>(patches: seq<Patch<T>>, tree: T): Option<T>
    requires REGISTRATIONS <= |patches|
  {
    var t := UnwindOverlays(patches, |patches|, tree);
    if patches[0].backward(t).Some? then ReverseAll(patches[..REGISTRATIONS], t) else Some(t)
  }

  // The ways the function can end: an assertion of one of its stages, or none.
  datatype Outcome = Composed | UnwindFailed | ApplyFailed | ReverseFailed | ReapplyFailed | Mismatch

  class Checkout<T(==, !new)> {
    var tree: T

    constructor (tree: T)
      ensures this.tree == tree
    {
      this.tree := tree;
    }

    // `apply`: nothing changes when the check fails.
    method Apply(patch: Patch<T>, reverse: bool) returns (done: bool)
      modifies this
      ensures var result := if reverse then patch.backward(old(tree)) else patch.forward(old(tree));
        done == result.Some? && tree == if result.Some? then result.value else old(tree)
    {
      var result := if reverse then patch.backward(tree) else patch.forward(tree);
      done := result.Some?;
      if done {
        tree := result.value;
      }
    }

    method ApplyEach(patches: seq<Patch<T>>) returns (done: bool)
      modifies this
      ensures done == ApplyAll(patches, old(tree)).Some?
      ensures done ==> Some(tree) == ApplyAll(patches, old(tree))
    {
      for k := 0 to |patches|
        invariant ApplyAll(patches[..k], old(tree)) == Some(tree)
      {
        assert patches[..k + 1][..k] == patches[..k];
        var applied := Apply(patches[k], false);
        if !applied {
          FailsEarly(patches, old(tree), k + 1);
          return false;
        }
      }
      assert patches[..|patches|] == patches;
      return true;
    }

    method ReverseEach(patches: seq<Patch<T>>) returns (done: bool)
      modifies this
      ensures done == ReverseAll(patches, old(tree)).Some?
      ensures done ==> Some(tree) == ReverseAll(patches, old(tree))
    {
      assert patches[..|patches|] == patches;
      for k := |patches| downto 0
        invariant ReverseAll(patches, old(tree)) == ReverseAll(patches[..k], tree)
      {
        assert patches[..k + 1][..k] == patches[..k];
        var applied := Apply(patches[k], true);
        if !applied {
          return false;
        }
      }
      return true;
    }

    // The composition succeeds exactly when the unwinding and the first pass do.
    // The closing round trip, reverse everything and repeat, never fails.
    method Compose(patches: seq<Patch<T>>) returns (outcome: Outcome)
      requires REGISTRATIONS <= |patches| && ArePatches(patches)
      modifies this
      ensures outcome.Composed? || outcome.UnwindFailed? || outcome.ApplyFailed?
      ensures outcome.UnwindFailed? <==> Unwound(patches, old(tree)).None?
      ensures outcome.ApplyFailed? <==>
        Unwound(patches, old(tree)).Some? && ApplyAll(patches, Unwound(patches, old(tree)).value).None?
      ensures outcome.Composed? ==> Some(tree) == ApplyAll(patches, Unwound(patches, old(tree)).value)
    {
      for k := |patches| downto REGISTRATIONS
        invariant UnwindOverlays(patches, |patches|, old(tree)) == UnwindOverlays(patches, k, tree)
      {
        if patches[k].backward(tree).Some? {
          var _ := Apply(patches[k], true);
        }
      }
      var done := true;
      if patches[0].backward(tree).Some? {
        done := ReverseEach(patches[..REGISTRATIONS]);
        if !done {
          return UnwindFailed;
        }
      }
      done := ApplyEach(patches);
      if !done {
        return ApplyFailed;
      }
      var expected := tree;
      ComposedIsPatch(patches, Unwound(patches, old(tree)).value, expected);
      done := ReverseEach(patches);
      if !done {
        return ReverseFailed;
      }
      done := ApplyEach(patches);
      if !done {
        return ReapplyFailed;
      }
      return if tree == expected then Composed else Mismatch;
    }
  }

  lemma {:induction false} FailsEarly<T>(patches: seq<Patch<T>>, tree: T, n: nat)
    requires n <= |patches| && ApplyAll(patches[..n], tree).None?
    ensures ApplyAll(patches, tree).None?
    decreases |patches|
  {
    if n < |patches| {
      assert patches[..|patches| - 1][..n] == patches[..n];
      FailsEarly(patches[..|patches| - 1], tree, n);
    } else {
      assert patches[..n] == patches;
    }
  }

  // ---- Where composition may start ----

  // The trees with none, one, ..., all of the patches.
  ghost predicate AreStages<T>(patches: seq<Patch<T>>, stages: seq<T>) {
    && |stages| == |patches| + 1
    && forall k :: 0 <= k < |patches| ==> patches[k].forward(stages[k]) == Some(stages[k + 1])
  }

  // The reverse of an overlay, and of the last registration, applies to a stage
  // only when that patch came last; the reverse of the first registration tells
  // whether any registration is there.
  ghost predicate TellsStages<T>(patches: seq<Patch<T>>, stages: seq<T>)
    requires REGISTRATIONS <= |patches| && AreStages(patches, stages)
  {
    && (forall i, m :: REGISTRATIONS - 1 <= i < |patches| && 0 <= m <= i ==> patches[i].backward(stages[m]).None?)
    && patches[0].backward(stages[0]).None?
    && (forall m :: 0 < m <= REGISTRATIONS ==> patches[0].backward(stages[m]).Some?)
  }

  lemma {:induction false} StagesApply<T>(patches: seq<Patch<T>>, stages: seq<T>, k: nat)
    requires AreStages(patches, stages) && k <= |patches|
    ensures ApplyAll(patches[..k], stages[0]) == Some(stages[k])
  {
    if k > 0 {
      StagesApply(patches, stages, k - 1);
      assert patches[..k][..k - 1] == patches[..k - 1];
    }
  }

  // Reversing a patch takes the stage above it to the stage below it.
  ghost predicate StagesReverse<T>(patches: seq<Patch<T>>, stages: seq<T>) {
    && |stages| == |patches| + 1
    && forall k :: 0 <= k < |patches| ==> patches[k].backward(stages[k + 1]) == Some(stages[k])
  }

  lemma StagesAreReversed<T(!new)>(patches: seq<Patch<T>>, stages: seq<T>)
    requires ArePatches(patches) && AreStages(patches, stages)
    ensures StagesReverse(patches, stages)
  {
    forall k | 0 <= k < |patches| ensures patches[k].backward(stages[k + 1]) == Some(stages[k]) {
      assert IsPatch(patches[k]) && patches[k].forward(stages[k]) == Some(stages[k + 1]);
    }
  }

  // Unwinding the overlays of stage m leaves the registrations, or what was there.
  lemma {:induction false} OverlaysUnwind<T>(patches: seq<Patch<T>>, stages: seq<T>, n: nat, m: nat)
    requires REGISTRATIONS <= n <= |patches| && m <= n
    requires AreStages(patches, stages) && StagesReverse(patches, stages) && TellsStages(patches, stages)
    ensures UnwindOverlays(patches, n, stages[m]) == stages[if m < REGISTRATIONS then m else REGISTRATIONS]
    decreases n
  {
    if n > REGISTRATIONS {
      var top := patches[n - 1];
      if m == n {
        assert top.backward(stages[m]) == Some(stages[n - 1]);
        OverlaysUnwind(patches, stages, n - 1, n - 1);
      } else {
        assert top.backward(stages[m]).None?;
        OverlaysUnwind(patches, stages, n - 1, m);
      }
    }
  }

  // From stage m the checkout unwinds to the same base exactly when none or all of
  // the registrations are there; otherwise the unwinding stops at an assertion.
  lemma UnwindsFrom<T(!new)>(patches: seq<Patch<T>>, stages: seq<T>, m: nat)
    requires REGISTRATIONS <= |patches| && m <= |patches| && ArePatches(patches)
    requires AreStages(patches, stages) && TellsStages(patches, stages)
    ensures Unwound(patches, stages[m]) == if m == 0 || REGISTRATIONS <= m then Some(stages[0]) else None
  {
    StagesAreReversed(patches, stages);
    OverlaysUnwind(patches, stages, |patches|, m);
    var registrations := patches[..REGISTRATIONS];
    assert registrations[REGISTRATIONS - 1] == patches[REGISTRATIONS - 1];
    if m >= REGISTRATIONS {
      StagesApply(patches, stages, REGISTRATIONS);
      ComposedIsPatch(registrations, stages[0], stages[REGISTRATIONS]);
    }
  }

  // So the composed tree does not depend on how far the checkout was patched, and
  // composing a composed checkout changes nothing.
  method ComposeFromStage<T(==, !new)>(
    patches: seq<Patch<T>>, ghost stages: seq<T>, ghost m: nat, checkout: Checkout<T>)
    returns (outcome: Outcome)
    requires REGISTRATIONS <= |patches| && m <= |patches| && ArePatches(patches)
    requires AreStages(patches, stages) && TellsStages(patches, stages)
    requires checkout.tree == stages[m]
    modifies checkout
    ensures outcome.Composed? <==> m == 0 || REGISTRATIONS <= m
    ensures outcome.Composed? ==> checkout.tree == stages[|patches|]
  {
    UnwindsFrom(patches, stages, m);
    StagesApply(patches, stages, |patches|);
    assert patches[..|patches|] == patches;
    outcome := checkout.Compose(patches);
  }
}
