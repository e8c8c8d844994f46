// Anchor resolution in `portable_html` of scripts/documentation_hooks.py: a link
// to a section that the handbook does not contain goes to the page whose key is
// the longest one that begins the anchor.
module Anchors {
  import opened Options

  // `sorted(keys, key=len, reverse=True)`: longest first, stable.
  function Insert(key: string, sorted: seq<string>): seq<string> {
    if sorted == [] || |key| >= |sorted[0]| then [key] + sorted
    else [sorted[0]] + Insert(key, sorted[1..])
  }

  function LongestFirst(keys: seq<string>): seq<string> {
    if keys == [] then [] else Insert(keys[0], LongestFirst(keys[1..]))
  }

  predicate Matches(anchor: string, key: string) {
    anchor == key || key + "-" <= anchor
  }

  // A key matches itself and what continues it with a hyphen, and nothing else.
  lemma MatchesExactly(anchor: string, key: string)
    ensures Matches(anchor, key) <==> anchor == key || exists fragment :: anchor == key + "-" + fragment
  {
    if key + "-" <= anchor {
      assert anchor == key + "-" + anchor[|key| + 1..];
    }
  }

  // So another word that begins with a key does not resolve to its page.
  lemma LongerWordIsOther(key: string, letter: char, rest: string)
    requires letter != '-'
    ensures Resolve(key + [letter] + rest, [key]) == None
  {
    var anchor := key + [letter] + rest;
    assert anchor[|key|] == letter;
    ResolveIsLongest(anchor, [key]);
  }

  function FirstMatch(anchor: string, keys: seq<string>): (key: Option<string>)
    ensures key.Some? ==> key.value in keys && Matches(anchor, key.value)
    ensures key.None? ==> forall k <- keys :: !Matches(anchor, k)
  {
    if keys == [] then None
    else if Matches(anchor, keys[0]) then Some(keys[0])
    else FirstMatch(anchor, keys[1..])
  }

  // The rest of the anchor, less one leading hyphen.
  function Fragment(anchor: string, key: string): string
    requires |key| <= |anchor|
  {
    var rest := anchor[|key|..];
    if rest != [] && rest[0] == '-' then rest[1..] else rest
  }

  // The page key and the fragment; None: "unresolved handbook link".
  function Resolve(anchor: string, keys: seq<string>): Option<(string, string)> {
    match FirstMatch(anchor, LongestFirst(keys))
    case None => None
    case Some(key) => Some((key, Fragment(anchor, key)))
  }

  ghost predicate Descending(keys: seq<string>) {
    forall i, j :: 0 <= i < j < |keys| ==> |keys[i]| >= |keys[j]|
  }

  lemma {:induction false} InsertAdds(key: string, sorted: seq<string>, k: string)
    ensures k in Insert(key, sorted) <==> k == key || k in sorted
  {
    if sorted != [] && |key| < |sorted[0]| { InsertAdds(key, sorted[1..], k); }
  }

  lemma {:induction false} InsertSorts(key: string, sorted: seq<string>)
    requires Descending(sorted)
    ensures Descending(Insert(key, sorted))
  {
    if sorted != [] && |key| < |sorted[0]| {
      var rest := Insert(key, sorted[1..]);
      InsertSorts(key, sorted[1..]);
      forall i | 0 <= i < |rest| ensures |sorted[0]| >= |rest[i]| {
        InsertAdds(key, sorted[1..], rest[i]);
      }
    }
  }

  // Sorting keeps the keys.
  lemma {:induction false} SameKeys(keys: seq<string>, key: string)
    ensures key in LongestFirst(keys) <==> key in keys
  {
    if keys != [] {
      SameKeys(keys[1..], key);
      InsertAdds(keys[0], LongestFirst(keys[1..]), key);
    }
  }

  lemma {:induction false} LongestFirstSorts(keys: seq<string>)
    ensures Descending(LongestFirst(keys))
  {
    if keys != [] {
      LongestFirstSorts(keys[1..]);
      InsertSorts(keys[0], LongestFirst(keys[1..]));
    }
  }

  lemma {:induction false} FirstMatchIsLongest(anchor: string, keys: seq<string>, other: string)
    requires Descending(keys) && other in keys && Matches(anchor, other)
    ensures FirstMatch(anchor, keys).Some? && |FirstMatch(anchor, keys).value| >= |other|
  {
    if Matches(anchor, keys[0]) {
    } else {
      FirstMatchIsLongest(anchor, keys[1..], other);
    }
  }

  // Two matching keys of one length are the same prefix of the anchor.
  lemma MatchesByLength(anchor: string, a: string, b: string)
    requires Matches(anchor, a) && Matches(anchor, b) && |a| == |b|
    ensures a == b
  {
    assert a == anchor[..|a|] && b == anchor[..|b|];
  }

  ghost predicate IsLongestMatch(anchor: string, keys: seq<string>, key: string) {
    key in keys && Matches(anchor, key) && forall other <- keys :: Matches(anchor, other) ==> |other| <= |key|
  }

  // The resolved key is the longest key that matches, and there is one exactly
  // when some key matches.
  lemma ResolveIsLongest(anchor: string, keys: seq<string>)
    ensures Resolve(anchor, keys).Some? <==> exists key <- keys :: Matches(anchor, key)
    ensures Resolve(anchor, keys).Some? ==> IsLongestMatch(anchor, keys, Resolve(anchor, keys).value.0)
  {
    LongestFirstSorts(keys);
    forall key ensures key in LongestFirst(keys) <==> key in keys { SameKeys(keys, key); }
    forall other | other in keys && Matches(anchor, other)
      ensures Resolve(anchor, keys).Some? && |other| <= |Resolve(anchor, keys).value.0|
    {
      FirstMatchIsLongest(anchor, LongestFirst(keys), other);
    }
  }

  // The longest match and what is left of the anchor determine the result.
  lemma ResolveTo(anchor: string, keys: seq<string>, key: string)
    requires IsLongestMatch(anchor, keys, key)
    ensures Resolve(anchor, keys) == Some((key, Fragment(anchor, key)))
  {
    ResolveIsLongest(anchor, keys);
    MatchesByLength(anchor, key, Resolve(anchor, keys).value.0);
  }

  // The order of the page dictionary does not matter.
  lemma ResolveIsOrderFree(anchor: string, keys: seq<string>, others: seq<string>)
    requires forall key :: key in keys <==> key in others
    ensures Resolve(anchor, keys) == Resolve(anchor, others)
  {
    ResolveIsLongest(anchor, keys);
    ResolveIsLongest(anchor, others);
    if Resolve(anchor, keys).Some? {
      ResolveTo(anchor, others, Resolve(anchor, keys).value.0);
    }
  }

  // An anchor made of a page key and a fragment resolves to them exactly when no
  // longer key begins it too.
  lemma ResolveUndoesAnchor(key: string, fragment: string, keys: seq<string>)
    requires key in keys
    ensures Resolve(key + "-" + fragment, keys) == Some((key, fragment))
       <==> forall other <- keys :: Matches(key + "-" + fragment, other) ==> |other| <= |key|
  {
    var anchor := key + "-" + fragment;
    assert anchor[|key|..] == "-" + fragment;
    ResolveIsLongest(anchor, keys);
    if forall other <- keys :: Matches(anchor, other) ==> |other| <= |key| {
      ResolveTo(anchor, keys, key);
    }
  }

  // A page key alone always resolves to its page, without a fragment.
  lemma ResolvePage(key: string, keys: seq<string>)
    requires key in keys
    ensures Resolve(key, keys) == Some((key, ""))
  {
    ResolveTo(key, keys, key);
  }
}
