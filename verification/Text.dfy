// Searching, partitioning and replacing in strings and byte strings, as Python's
// `find`, `partition` and `replace` do: always at the earliest occurrence.
module Text {
  import opened Options

  predicate OccursAt<T(==)>(text: seq<T>, pattern: seq<T>, i: nat) {
    i + |pattern| <= |text| && text[i..i + |pattern|] == pattern
  }

  lemma OccursInTail<T>(text: seq<T>, pattern: seq<T>, j: nat)
    requires text != [] && j > 0
    ensures OccursAt(text, pattern, j) <==> OccursAt(text[1..], pattern, j - 1)
  {
    var rest := text[1..];
    if j + |pattern| <= |text| {
      var here, there := text[j..j + |pattern|], rest[j - 1..j - 1 + |pattern|];
      assert |here| == |there| && forall k :: 0 <= k < |here| ==> here[k] == there[k];
    }
  }

  // The index of the earliest occurrence of a pattern.
  function Find<T(==)>(text: seq<T>, pattern: seq<T>): (index: Option<nat>)
    ensures index.Some? ==> index.value + |pattern| <= |text|
  {
    if OccursAt(text, pattern, 0) then Some(0)
    else if text == [] then None
    else match Find(text[1..], pattern)
      case None => None
      case Some(i) => Some(i + 1)
  }

  lemma {:induction false} FindOccurs<T>(text: seq<T>, pattern: seq<T>)
    ensures Find(text, pattern).Some? ==> OccursAt(text, pattern, Find(text, pattern).value)
  {
    if !OccursAt(text, pattern, 0) && text != [] && Find(text[1..], pattern).Some? {
      FindOccurs(text[1..], pattern);
      OccursInTail(text, pattern, Find(text[1..], pattern).value + 1);
    }
  }

  lemma {:induction false} FindAtMost<T>(text: seq<T>, pattern: seq<T>, j: nat)
    requires OccursAt(text, pattern, j)
    ensures Find(text, pattern).Some? && Find(text, pattern).value <= j
  {
    if !OccursAt(text, pattern, 0) {
      OccursInTail(text, pattern, j);
      FindAtMost(text[1..], pattern, j - 1);
    }
  }

  lemma FindIsEarliest<T>(text: seq<T>, pattern: seq<T>)
    ensures Find(text, pattern).Some? ==> OccursAt(text, pattern, Find(text, pattern).value)
    ensures Find(text, pattern).Some? ==> forall j :: 0 <= j < Find(text, pattern).value ==> !OccursAt(text, pattern, j)
    ensures Find(text, pattern).None? ==> forall j: nat :: !OccursAt(text, pattern, j)
  {
    FindOccurs(text, pattern);
    forall j: nat | OccursAt(text, pattern, j) ensures Find(text, pattern).Some? && Find(text, pattern).value <= j {
      FindAtMost(text, pattern, j);
    }
  }

  lemma FindIsFirst<T>(text: seq<T>, pattern: seq<T>, i: nat)
    requires OccursAt(text, pattern, i) && forall j :: 0 <= j < i ==> !OccursAt(text, pattern, j)
    ensures Find(text, pattern) == Some(i)
  {
    FindIsEarliest(text, pattern);
  }

  ghost predicate Contains<T>(text: seq<T>, pattern: seq<T>) {
    exists i: nat :: OccursAt(text, pattern, i)
  }

  // An occurrence reads the same characters.
  lemma OccursPointwise<T>(text: seq<T>, pattern: seq<T>, i: nat)
    requires i + |pattern| <= |text|
    ensures OccursAt(text, pattern, i) <==> forall k :: 0 <= k < |pattern| ==> text[i + k] == pattern[k]
  {
    if forall k :: 0 <= k < |pattern| ==> text[i + k] == pattern[k] {
      assert text[i..i + |pattern|] == pattern;
    } else {
      var k :| 0 <= k < |pattern| && text[i + k] != pattern[k];
      assert text[i..i + |pattern|][k] == text[i + k];
    }
  }

  lemma OccursAtEnd<T>(before: seq<T>, pattern: seq<T>)
    ensures OccursAt(before + pattern, pattern, |before|)
  {
    assert (before + pattern)[|before|..|before| + |pattern|] == pattern;
  }

  // Whether the pattern is first found where `a` ends does not depend on what
  // follows it.
  lemma EarliestInFront<T>(a: seq<T>, pattern: seq<T>, b: seq<T>)
    ensures Find(a + pattern + b, pattern) == Some(|a|) <==> Find(a + pattern, pattern) == Some(|a|)
  {
    var short, long := a + pattern, a + pattern + b;
    FindIsEarliest(short, pattern);
    FindIsEarliest(long, pattern);
    forall j | 0 <= j <= |a| ensures OccursAt(short, pattern, j) <==> OccursAt(long, pattern, j) {
      OccursPointwise(short, pattern, j);
      OccursPointwise(long, pattern, j);
    }
    OccursAtEnd(a, pattern);
  }

  // ---- Letter case, for ASCII letters ----

  function LowerChar(c: char): char {
    if 'A' <= c <= 'Z' then c - 'A' + 'a' else c
  }

  function Lower(text: string): string {
    seq(|text|, i requires 0 <= i < |text| => LowerChar(text[i]))
  }

  // The capitals go to the small letters from "a" to "z" in their order, and no
  // other character changes.
  lemma LowerKeepsTheAlphabet(c: char, d: char)
    ensures LowerChar('A') == 'a' && LowerChar('Z') == 'z'
    ensures 'A' <= c < d <= 'Z' ==> LowerChar(c) < LowerChar(d)
    ensures !('A' <= c <= 'Z') ==> LowerChar(c) == c
  {
  }
}
