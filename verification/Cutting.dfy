// Cutting a text at every occurrence of a separator, as Python's `text.split`
// does, and which texts become equal when their separators are replaced.
module Cutting {
  import opened Options
  import opened Text
  import opened Replacing

  function JoinWith(parts: seq<string>, separator: string): string {
    if parts == [] then ""
    else if |parts| == 1 then parts[0]
    else parts[0] + separator + JoinWith(parts[1..], separator)
  }

  function Split(text: string, separator: string): (parts: seq<string>)
    requires separator != []
    ensures parts != []
    decreases |text|
  {
    match Find(text, separator)
    case None => [text]
    case Some(i) => [text[..i]] + Split(text[i + |separator|..], separator)
  }

  // The separator occurs nowhere else than in the gaps between the parts.
  ghost predicate OnlyInGaps(parts: seq<string>, separator: string) {
    parts != [] ==>
      var last := |parts| - 1;
      && (forall k :: 0 <= k < last ==> Find(parts[k] + separator, separator) == Some(|parts[k]|))
      && Find(parts[last], separator) == None
  }

  lemma JoinStep(part: string, parts: seq<string>, separator: string)
    requires parts != []
    ensures JoinWith([part] + parts, separator) == part + separator + JoinWith(parts, separator)
  {
    assert ([part] + parts)[1..] == parts;
  }

  lemma {:induction false} JoinConcat(a: seq<string>, b: seq<string>, separator: string)
    requires a != [] && b != []
    ensures JoinWith(a + b, separator) == JoinWith(a, separator) + separator + JoinWith(b, separator)
  {
    assert a + b == [a[0]] + (a[1..] + b);
    JoinStep(a[0], a[1..] + b, separator);
    if |a| == 1 {
      assert a[1..] + b == b;
    } else {
      JoinConcat(a[1..], b, separator);
      Associate(a[0], separator, JoinWith(a[1..], separator), JoinWith(b, separator));
    }
  }

  lemma Associate(part: string, separator: string, middle: string, last: string)
    ensures part + separator + (middle + separator + last) == (part + separator + middle) + separator + last
  {
  }

  // ---- Splitting and joining are inverse ----

  lemma {:induction false} JoinOfSplit(text: string, separator: string)
    requires separator != []
    ensures JoinWith(Split(text, separator), separator) == text && OnlyInGaps(Split(text, separator), separator)
    decreases |text|
  {
    var found := Find(text, separator);
    if found.Some? {
      var i := found.value;
      var rest := Split(text[i + |separator|..], separator);
      JoinOfSplit(text[i + |separator|..], separator);
      JoinStep(text[..i], rest, separator);
      FindOccurs(text, separator);
      assert text == text[..i] + separator + text[i + |separator|..];
      NotBeforeFirst(text, separator, i, 0);
      OneMoreGap(text[..i], rest, separator);
    }
  }

  lemma OneMoreGap(part: string, rest: seq<string>, separator: string)
    requires rest != [] && OnlyInGaps(rest, separator) && Find(part + separator, separator) == Some(|part|)
    ensures OnlyInGaps([part] + rest, separator)
  {
    var parts := [part] + rest;
    assert forall k :: 0 < k < |parts| ==> parts[k] == rest[k - 1];
  }

  // The gaps of the other parts.
  lemma GapsOfRest(parts: seq<string>, separator: string)
    requires |parts| > 1 && OnlyInGaps(parts, separator)
    ensures OnlyInGaps(parts[1..], separator)
    ensures Find(parts[0] + separator, separator) == Some(|parts[0]|)
  {
  }

  lemma FindFirstGap(parts: seq<string>, separator: string)
    requires |parts| > 1 && OnlyInGaps(parts, separator)
    ensures Find(JoinWith(parts, separator), separator) == Some(|parts[0]|)
    ensures JoinWith(parts, separator)[..|parts[0]|] == parts[0]
    ensures JoinWith(parts, separator)[|parts[0]| + |separator|..] == JoinWith(parts[1..], separator)
  {
    GapsOfRest(parts, separator);
    EarliestInFront(parts[0], separator, JoinWith(parts[1..], separator));
  }

  lemma {:induction false} SplitOfJoin(parts: seq<string>, separator: string)
    requires separator != [] && parts != [] && OnlyInGaps(parts, separator)
    ensures Split(JoinWith(parts, separator), separator) == parts
  {
    if |parts| > 1 {
      FindFirstGap(parts, separator);
      GapsOfRest(parts, separator);
      SplitOfJoin(parts[1..], separator);
    }
  }

  lemma {:induction false} ReplaceFillsGaps(parts: seq<string>, separator: string, mask: string)
    requires separator != [] && OnlyInGaps(parts, separator)
    ensures Replace(JoinWith(parts, separator), separator, mask) == JoinWith(parts, mask)
  {
    if parts == [] {
      FindIsEarliest("", separator);
    } else if |parts| > 1 {
      FindFirstGap(parts, separator);
      GapsOfRest(parts, separator);
      ReplaceFillsGaps(parts[1..], separator, mask);
    }
  }

  // ---- Which texts become equal ----

  // The pieces of a text cut at the pattern, and then at the mask it may hold already.
  function Pieces(text: string, pattern: string, mask: string): (pieces: seq<string>)
    requires pattern != [] && mask != []
    ensures pieces != []
    decreases |text|
  {
    match Find(text, pattern)
    case None => Split(text, mask)
    case Some(i) => Split(text[..i], mask) + Pieces(text[i + |pattern|..], pattern, mask)
  }

  ghost predicate AreFree(parts: seq<string>, mask: string) {
    forall k :: 0 <= k < |parts| ==> !Contains(parts[k], mask)
  }

  // The first character of the mask does not come again in it, so that two
  // occurrences never overlap.
  predicate IsUnbordered(mask: string) {
    mask != [] && forall k :: 0 < k < |mask| ==> mask[k] != mask[0]
  }

  lemma {:induction false} SplitIsFree(text: string, mask: string)
    requires mask != []
    ensures AreFree(Split(text, mask), mask)
    decreases |text|
  {
    var found := Find(text, mask);
    FindIsEarliest(text, mask);
    if found.Some? {
      SplitIsFree(text[found.value + |mask|..], mask);
      forall j: nat ensures !OccursAt(text[..found.value], mask, j) {
        NotBeforeFirst(text, mask, found.value, j);
      }
    }
  }

  lemma {:induction false} PiecesStep(text: string, pattern: string, mask: string, i: nat, rest: string)
    requires pattern != [] && mask != [] && Find(text, pattern) == Some(i) && rest == text[i + |pattern|..]
    ensures Pieces(text, pattern, mask) == Split(text[..i], mask) + Pieces(rest, pattern, mask)
  {
  }

  lemma {:induction false} JoinOfPieces(text: string, pattern: string, mask: string, i: nat, rest: string)
    requires pattern != [] && mask != [] && Find(text, pattern) == Some(i) && rest == text[i + |pattern|..]
    ensures JoinWith(Pieces(text, pattern, mask), mask)
         == text[..i] + mask + JoinWith(Pieces(rest, pattern, mask), mask)
  {
    PiecesStep(text, pattern, mask, i, rest);
    JoinOfSplit(text[..i], mask);
    JoinConcat(Split(text[..i], mask), Pieces(rest, pattern, mask), mask);
  }

  lemma {:induction false} PiecesJoin(text: string, pattern: string, mask: string)
    requires pattern != [] && mask != []
    ensures JoinWith(Pieces(text, pattern, mask), mask) == Replace(text, pattern, mask)
    decreases |text|
  {
    var found := Find(text, pattern);
    if found.None? {
      JoinOfSplit(text, mask);
    } else {
      var i := found.value;
      var rest := text[i + |pattern|..];
      PiecesJoin(rest, pattern, mask);
      JoinOfPieces(text, pattern, mask, i, rest);
      ReplaceStep(text, pattern, mask, i, rest);
    }
  }

  lemma BothFree(a: seq<string>, b: seq<string>, mask: string)
    requires AreFree(a, mask) && AreFree(b, mask)
    ensures AreFree(a + b, mask)
  {
  }

  lemma {:induction false} PiecesAreFree(text: string, pattern: string, mask: string)
    requires pattern != [] && mask != []
    ensures AreFree(Pieces(text, pattern, mask), mask)
    decreases |text|
  {
    match Find(text, pattern)
    case None => SplitIsFree(text, mask);
    case Some(i) =>
      var rest := text[i + |pattern|..];
      SplitIsFree(text[..i], mask);
      PiecesAreFree(rest, pattern, mask);
      PiecesStep(text, pattern, mask, i, rest);
      BothFree(Split(text[..i], mask), Pieces(rest, pattern, mask), mask);
  }

  lemma FoundBehindFree(part: string, mask: string)
    requires IsUnbordered(mask) && !Contains(part, mask)
    ensures Find(part + mask, mask) == Some(|part|) && Find(part, mask) == None
  {
    var text := part + mask;
    forall j: nat | j < |part| ensures !OccursAt(text, mask, j) {
      OccursPointwise(text, mask, j);
      if j + |mask| <= |part| {
        OccursPointwise(part, mask, j);
        assert !OccursAt(part, mask, j);
      } else {
        assert text[j + (|part| - j)] == mask[0];
      }
    }
    OccursAtEnd(part, mask);
    FindIsFirst(text, mask, |part|);
    FindIsEarliest(part, mask);
  }

  lemma FreeFits(parts: seq<string>, mask: string)
    requires IsUnbordered(mask) && AreFree(parts, mask)
    ensures OnlyInGaps(parts, mask)
  {
    forall k | 0 <= k < |parts|
      ensures Find(parts[k] + mask, mask) == Some(|parts[k]|) && Find(parts[k], mask) == None {
      FoundBehindFree(parts[k], mask);
    }
  }

  // Two texts become equal exactly when they have the same pieces.
  lemma ReplacedAlike(a: string, here: string, b: string, there: string, mask: string)
    requires here != [] && there != [] && IsUnbordered(mask)
    ensures Replace(a, here, mask) == Replace(b, there, mask) <==> Pieces(a, here, mask) == Pieces(b, there, mask)
  {
    var x, y := Pieces(a, here, mask), Pieces(b, there, mask);
    PiecesJoin(a, here, mask);
    PiecesJoin(b, there, mask);
    PiecesAreFree(a, here, mask);
    PiecesAreFree(b, there, mask);
    FreeFits(x, mask);
    FreeFits(y, mask);
    SplitOfJoin(x, mask);
    SplitOfJoin(y, mask);
  }

  // ---- Texts without the mask ----

  lemma PartIsFree(text: string, mask: string, i: nat, j: nat)
    requires i <= j <= |text| && !Contains(text, mask)
    ensures !Contains(text[i..j], mask)
  {
    forall k: nat ensures !OccursAt(text[i..j], mask, k) {
      assert !OccursAt(text, mask, i + k);
      if i + k + |mask| <= j {
        OccursPointwise(text, mask, i + k);
        OccursPointwise(text[i..j], mask, k);
      }
    }
  }

  lemma {:induction false} PiecesOfFree(text: string, pattern: string, mask: string)
    requires pattern != [] && mask != [] && !Contains(text, mask)
    ensures Pieces(text, pattern, mask) == Split(text, pattern)
    decreases |text|
  {
    var found := Find(text, pattern);
    FindIsEarliest(text, mask);
    if found.Some? {
      var i := found.value;
      PartIsFree(text, mask, 0, i);
      PartIsFree(text, mask, i + |pattern|, |text|);
      assert text[i + |pattern|..] == text[i + |pattern|..|text|] && text[..i] == text[0..i];
      FindIsEarliest(text[..i], mask);
      PiecesOfFree(text[i + |pattern|..], pattern, mask);
    }
  }

  // Without the mask in them, no two texts become equal.
  lemma ReplaceIsInjective(a: string, b: string, pattern: string, mask: string)
    requires pattern != [] && IsUnbordered(mask) && !Contains(a, mask) && !Contains(b, mask)
    ensures Replace(a, pattern, mask) == Replace(b, pattern, mask) <==> a == b
  {
    ReplacedAlike(a, pattern, b, pattern, mask);
    PiecesOfFree(a, pattern, mask);
    PiecesOfFree(b, pattern, mask);
    JoinOfSplit(a, pattern);
    JoinOfSplit(b, pattern);
  }

  // One text mentions `there` wherever the other mentions `here`, and they have no
  // other mention of them.
  ghost predicate IsMovedBy(parts: seq<string>, a: string, here: string, b: string, there: string) {
    && parts != [] && OnlyInGaps(parts, here) && OnlyInGaps(parts, there)
    && a == JoinWith(parts, here) && b == JoinWith(parts, there)
  }

  ghost predicate IsMoved(a: string, here: string, b: string, there: string) {
    exists parts :: IsMovedBy(parts, a, here, b, there)
  }

  lemma ReplacedMoved(a: string, here: string, b: string, there: string, mask: string)
    requires here != [] && there != [] && IsUnbordered(mask) && !Contains(a, mask) && !Contains(b, mask)
    ensures Replace(a, here, mask) == Replace(b, there, mask) <==> IsMoved(a, here, b, there)
  {
    ReplacedAlike(a, here, b, there, mask);
    PiecesOfFree(a, here, mask);
    PiecesOfFree(b, there, mask);
    JoinOfSplit(a, here);
    JoinOfSplit(b, there);
    if Replace(a, here, mask) == Replace(b, there, mask) {
      assert IsMovedBy(Split(a, here), a, here, b, there);
    }
    if parts :| IsMovedBy(parts, a, here, b, there) {
      SplitOfJoin(parts, here);
      SplitOfJoin(parts, there);
    }
  }
}
