// Python's `text.replace(pattern, mask)`, and when doing it twice is doing it once.
module Replacing {
  import opened Options
  import opened Text

  function Replace(text: string, pattern: string, mask: string): string
    requires pattern != []
    decreases |text|
  {
    match Find(text, pattern)
    case None => text
    case Some(i) => text[..i] + mask + Replace(text[i + |pattern|..], pattern, mask)
  }

  lemma {:induction false} ReplaceStep(text: string, pattern: string, mask: string, i: nat, tail: string)
    requires pattern != [] && Find(text, pattern) == Some(i) && tail == text[i + |pattern|..]
    ensures Replace(text, pattern, mask) == text[..i] + mask + Replace(tail, pattern, mask)
  {
  }

  // ---- How a pattern can come back ----

  // With the pattern starting `d` characters after the mask, the two agree
  // wherever they meet.
  ghost predicate Agree(pattern: string, mask: string, d: int) {
    forall k :: 0 <= k < |pattern| && 0 <= k + d < |mask| ==> pattern[k] == mask[k + d]
  }

  // The part of the pattern before the mask, followed by the pattern, is left
  // alone by the search up to that pattern.
  ghost predicate Reappears(pattern: string, mask: string, d: int)
    requires -|pattern| < d
  {
    Agree(pattern, mask, d) && (d < 0 ==> Find(pattern[..-d] + pattern, pattern) == Some(-d))
  }

  ghost predicate NeverReappears(pattern: string, mask: string) {
    forall d :: -|pattern| < d < |mask| ==> !Reappears(pattern, mask, d)
  }

  // If a pattern is first found where `front` ends, it is first found where any
  // end piece of `front` ends.
  lemma CleanSuffix(front: string, pattern: string, j: nat)
    requires j <= |front| && Find(front + pattern, pattern) == Some(|front|)
    ensures Find(front[j..] + pattern, pattern) == Some(|front| - j)
  {
    var short, long := front[j..] + pattern, front + pattern;
    OccursAtEnd(front[j..], pattern);
    FindIsEarliest(long, pattern);
    forall i | 0 <= i < |front| - j ensures !OccursAt(short, pattern, i) {
      OccursPointwise(short, pattern, i);
      OccursPointwise(long, pattern, i + j);
    }
    FindIsFirst(short, pattern, |front| - j);
  }

  lemma AgreesAcross(front: string, mask: string, rest: string, pattern: string, j: nat)
    requires OccursAt(front + mask + rest, pattern, j)
    ensures Agree(pattern, mask, j - |front|)
  {
    var text := front + mask + rest;
    OccursPointwise(text, pattern, j);
    assert forall i :: 0 <= i < |mask| ==> text[|front| + i] == mask[i];
    forall k | 0 <= k < |pattern| && 0 <= k + (j - |front|) < |mask| ensures pattern[k] == mask[k + (j - |front|)] {
      assert text[j + k] == text[|front| + (k + (j - |front|))];
    }
  }

  lemma StartsInFront(front: string, mask: string, rest: string, pattern: string, j: nat)
    requires OccursAt(front + mask + rest, pattern, j) && j < |front| < j + |pattern|
    ensures front[j..] == pattern[..|front| - j]
  {
    var text := front + mask + rest;
    OccursPointwise(text, pattern, j);
    var a, b := front[j..], pattern[..|front| - j];
    forall k | 0 <= k < |a| ensures a[k] == b[k] {
      assert text[j + k] == front[j + k];
    }
  }

  // An occurrence that meets the mask between `front` and `rest` reappears.
  lemma AcrossMask(front: string, mask: string, rest: string, pattern: string, j: nat)
    requires pattern != [] && Find(front + pattern, pattern) == Some(|front|)
    requires OccursAt(front + mask + rest, pattern, j) && |front| < j + |pattern| && j < |front| + |mask|
    ensures Reappears(pattern, mask, j - |front|)
  {
    AgreesAcross(front, mask, rest, pattern, j);
    if j < |front| {
      StartsInFront(front, mask, rest, pattern, j);
      CleanSuffix(front, pattern, j);
    }
  }

  lemma NotBeforeFirst(text: string, pattern: string, i: nat, j: nat)
    requires pattern != [] && Find(text, pattern) == Some(i)
    ensures !OccursAt(text[..i], pattern, j)
    ensures Find(text[..i] + pattern, pattern) == Some(i)
  {
    FindIsEarliest(text, pattern);
    if j + |pattern| <= i {
      OccursPointwise(text[..i], pattern, j);
      OccursPointwise(text, pattern, j);
    }
    assert text == text[..i] + pattern + text[i + |pattern|..];
    EarliestInFront(text[..i], pattern, text[i + |pattern|..]);
  }

  lemma NotAround(front: string, mask: string, rest: string, pattern: string, j: nat)
    requires pattern != [] && NeverReappears(pattern, mask) && Find(front + pattern, pattern) == Some(|front|)
    requires !OccursAt(front, pattern, j)
    requires j >= |front| + |mask| ==> !OccursAt(rest, pattern, j - |front| - |mask|)
    ensures !OccursAt(front + mask + rest, pattern, j)
  {
    var text := front + mask + rest;
    if j + |pattern| <= |text| {
      if j + |pattern| <= |front| {
        OccursPointwise(front, pattern, j);
        OccursPointwise(text, pattern, j);
      } else if |front| + |mask| <= j {
        OccursPointwise(rest, pattern, j - |front| - |mask|);
        OccursPointwise(text, pattern, j);
      } else if OccursAt(text, pattern, j) {
        AcrossMask(front, mask, rest, pattern, j);
      }
    }
  }

  // A pattern that never reappears is gone after replacing.
  lemma {:induction false} ReplaceRemoves(text: string, pattern: string, mask: string, j: nat)
    requires pattern != [] && mask != [] && NeverReappears(pattern, mask)
    ensures !OccursAt(Replace(text, pattern, mask), pattern, j)
    decreases |text|
  {
    var found := Find(text, pattern);
    FindIsEarliest(text, pattern);
    if found.Some? {
      var i := found.value;
      var tail := text[i + |pattern|..];
      if j >= i + |mask| {
        ReplaceRemoves(tail, pattern, mask, j - i - |mask|);
      }
      NotBeforeFirst(text, pattern, i, j);
      NotAround(text[..i], mask, Replace(tail, pattern, mask), pattern, j);
      ReplaceStep(text, pattern, mask, i, tail);
    }
  }

  lemma ReplaceTwice(text: string, pattern: string, mask: string)
    requires pattern != [] && mask != [] && NeverReappears(pattern, mask)
    ensures Replace(Replace(text, pattern, mask), pattern, mask) == Replace(text, pattern, mask)
  {
    forall j: nat ensures !OccursAt(Replace(text, pattern, mask), pattern, j) {
      ReplaceRemoves(text, pattern, mask, j);
    }
    FindIsEarliest(Replace(text, pattern, mask), pattern);
  }

  // ---- The condition is needed ----

  // A text whose replacement shows the pattern again.
  lemma {:induction false} Reappearance(pattern: string, mask: string, d: int) returns (text: string)
    requires pattern != [] && -|pattern| < d < |mask| && Reappears(pattern, mask, d)
    ensures Contains(Replace(text, pattern, mask), pattern)
  {
    var before := if d < 0 then pattern[..-d] else "";
    var after := if |pattern| + d > |mask| then pattern[|mask| - d..] else "";
    text := before + pattern + after;
    if d >= 0 {
      assert before + pattern == pattern;
      assert OccursAt(pattern, pattern, 0);
      FindAtMost(pattern, pattern, 0);
    }
    EarliestInFront(before, pattern, after);
    assert text[|before| + |pattern|..] == after && text[..|before|] == before;
    ReplaceStep(text, pattern, mask, |before|, after);
    assert Replace(after, pattern, mask) == after;
    ReadsThrough(pattern, mask, d, before, after);
  }

  lemma ReadsThrough(pattern: string, mask: string, d: int, before: string, after: string)
    requires pattern != [] && -|pattern| < d < |mask| && Agree(pattern, mask, d)
    requires before == if d < 0 then pattern[..-d] else ""
    requires after == if |pattern| + d > |mask| then pattern[|mask| - d..] else ""
    ensures OccursAt(before + mask + after, pattern, if d < 0 then 0 else d)
  {
    var result, start := before + mask + after, if d < 0 then 0 else d;
    forall k | 0 <= k < |pattern| ensures result[start + k] == pattern[k] {
      if 0 <= k + d < |mask| { assert result[start + k] == mask[k + d]; }
    }
    OccursPointwise(result, pattern, start);
  }

  lemma {:induction false} ReplaceLength(text: string, pattern: string, mask: string)
    requires pattern != []
    ensures |mask| >= |pattern| ==> |Replace(text, pattern, mask)| >= |text|
    ensures |mask| <= |pattern| ==> |Replace(text, pattern, mask)| <= |text|
    decreases |text|
  {
    if Find(text, pattern).Some? {
      ReplaceLength(text[Find(text, pattern).value + |pattern|..], pattern, mask);
    }
  }

  lemma ReplaceChanges(text: string, pattern: string, mask: string)
    requires pattern != [] && pattern != mask && Contains(text, pattern)
    ensures Replace(text, pattern, mask) != text
  {
    var j: nat :| OccursAt(text, pattern, j);
    FindAtMost(text, pattern, j);
    FindOccurs(text, pattern);
    var i := Find(text, pattern).value;
    var tail := text[i + |pattern|..];
    ReplaceStep(text, pattern, mask, i, tail);
    ReplaceLength(tail, pattern, mask);
    if |pattern| == |mask| {
      assert Replace(text, pattern, mask)[i..i + |mask|] == mask;
    }
  }

  lemma {:induction false} ReplaceBySelf(text: string, pattern: string)
    requires pattern != []
    ensures Replace(text, pattern, pattern) == text
    decreases |text|
  {
    if Find(text, pattern).Some? {
      var i := Find(text, pattern).value;
      FindOccurs(text, pattern);
      ReplaceBySelf(text[i + |pattern|..], pattern);
      assert text == text[..i] + pattern + text[i + |pattern|..];
    }
  }

  ghost predicate SameTwice(text: string, pattern: string, mask: string)
    requires pattern != []
  {
    Replace(Replace(text, pattern, mask), pattern, mask) == Replace(text, pattern, mask)
  }

  // Replacing twice is replacing once, for every text, exactly when the pattern is
  // the mask itself or never reappears around it.
  lemma ReplaceIsIdempotent(pattern: string, mask: string)
    requires pattern != [] && mask != []
    ensures (forall text :: SameTwice(text, pattern, mask)) <==> pattern == mask || NeverReappears(pattern, mask)
  {
    if pattern == mask {
      forall text ensures SameTwice(text, pattern, mask) { ReplaceBySelf(text, pattern); }
    } else if NeverReappears(pattern, mask) {
      forall text ensures SameTwice(text, pattern, mask) { ReplaceTwice(text, pattern, mask); }
    } else {
      var d :| -|pattern| < d < |mask| && Reappears(pattern, mask, d);
      var text := Reappearance(pattern, mask, d);
      ReplaceChanges(Replace(text, pattern, mask), pattern, mask);
      assert !SameTwice(text, pattern, mask);
    }
  }
}
