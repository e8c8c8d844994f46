// Python's `sorted` on a set of strings: the one strictly increasing listing.
module Ordering {
  import opened Sequences

  // Code-point-wise lexicographic order, a prefix coming first.
  predicate Precedes(a: string, b: string) {
    if b == [] then false
    else a == [] || a[0] < b[0] || (a[0] == b[0] && Precedes(a[1..], b[1..]))
  }

  // `a` is a proper prefix of `b`, or has the lower character where they first differ.
  lemma {:induction false} PrecedesExactly(a: string, b: string)
    ensures Precedes(a, b) <==> a < b || exists k :: 0 <= k < |a| && IsLowerAt(a, b, k)
  {
    if a != [] && b != [] && a[0] == b[0] {
      PrecedesExactly(a[1..], b[1..]);
      LaterPosition(a, b);
      assert a < b <==> a[1..] < b[1..] by { PrefixTail(a, b); }
    } else if a != [] && b != [] {
      assert IsLowerAt(a, b, 0) <==> a[0] < b[0];
      assert forall k :: 0 < k < |a| && k < |b| ==> a[..k][0] != b[..k][0];
    }
  }

  ghost predicate IsLowerAt(a: string, b: string, k: nat)
    requires k < |a|
  {
    k < |b| && a[..k] == b[..k] && a[k] < b[k]
  }

  lemma PrefixTail(a: string, b: string)
    requires a != [] && b != [] && a[0] == b[0]
    ensures a < b <==> a[1..] < b[1..]
  {
    assert a == [a[0]] + a[1..] && b == [b[0]] + b[1..];
  }

  lemma LaterPosition(a: string, b: string)
    requires a != [] && b != [] && a[0] == b[0]
    ensures (exists k :: 0 <= k < |a| && IsLowerAt(a, b, k))
       <==> (exists k :: 0 <= k < |a[1..]| && IsLowerAt(a[1..], b[1..], k))
  {
    if k :| 0 <= k < |a| && IsLowerAt(a, b, k) {
      assert k > 0 && a[1..][..k - 1] == a[..k][1..] && b[1..][..k - 1] == b[..k][1..];
      assert IsLowerAt(a[1..], b[1..], k - 1);
    }
    if k :| 0 <= k < |a[1..]| && IsLowerAt(a[1..], b[1..], k) {
      assert a[..k + 1] == [a[0]] + a[1..][..k] && b[..k + 1] == [b[0]] + b[1..][..k];
      assert IsLowerAt(a, b, k + 1);
    }
  }

  lemma {:induction false} PrecedesTotal(a: string, b: string)
    ensures a == b || Precedes(a, b) || Precedes(b, a)
    ensures Precedes(a, b) ==> a != b && !Precedes(b, a)
  {
    if a != [] && b != [] {
      PrecedesTotal(a[1..], b[1..]);
      assert a == [a[0]] + a[1..] && b == [b[0]] + b[1..];
    }
  }

  lemma {:induction false} PrecedesTransitive(a: string, b: string, c: string)
    requires Precedes(a, b) && Precedes(b, c)
    ensures Precedes(a, c)
  {
    if a != [] && a[0] == b[0] == c[0] { PrecedesTransitive(a[1..], b[1..], c[1..]); }
  }

  predicate IsLeast(s: set<string>, least: string) {
    least in s && forall x <- s :: x == least || Precedes(least, x)
  }

  lemma {:induction false} LeastExists(s: set<string>)
    requires s != {}
    ensures exists least :: IsLeast(s, least)
    decreases |s|
  {
    var first :| first in s;
    if s == {first} {
      assert IsLeast(s, first);
    } else {
      LeastExists(s - {first});
      var other :| IsLeast(s - {first}, other);
      PrecedesTotal(first, other);
      forall x | x in s - {first} && x != other && Precedes(first, other) ensures Precedes(first, x) {
        PrecedesTransitive(first, other, x);
      }
      assert IsLeast(s, if Precedes(first, other) then first else other);
    }
  }

  lemma LeastIsUnique(s: set<string>, a: string, b: string)
    requires IsLeast(s, a) && IsLeast(s, b)
    ensures a == b
  {
    PrecedesTotal(a, b);
  }

  function Least(s: set<string>): (least: string)
    requires s != {}
    ensures IsLeast(s, least)
  {
    LeastExists(s);
    assert forall a, b :: IsLeast(s, a) && IsLeast(s, b) ==> a == b by {
      forall a, b | IsLeast(s, a) && IsLeast(s, b) ensures a == b { LeastIsUnique(s, a, b); }
    }
    var least :| least in s && IsLeast(s, least);
    least
  }

  ghost predicate Increasing(items: seq<string>) {
    forall i, j :: 0 <= i < j < |items| ==> Precedes(items[i], items[j])
  }

  function Sorted(s: set<string>): (items: seq<string>)
    ensures Elements(items) == s && |items| == |s| && Increasing(items)
    decreases |s|
  {
    if s == {} then []
    else
      var least := Least(s);
      var rest := Sorted(s - {least});
      LeastFirst(s, least, rest);
      [least] + rest
  }

  lemma LeastFirst(s: set<string>, least: string, rest: seq<string>)
    requires IsLeast(s, least) && Elements(rest) == s - {least} && Increasing(rest)
    ensures Elements([least] + rest) == s && Increasing([least] + rest)
  {
    var items := [least] + rest;
    assert forall x :: x in Elements(items) <==> x == least || x in Elements(rest);
    forall i, j | 0 <= i < j < |items| ensures Precedes(items[i], items[j]) {
      assert items[j] in Elements(rest);
    }
  }

  lemma SortedIsDistinct(s: set<string>)
    ensures Distinct(Sorted(s))
  {
    var items := Sorted(s);
    forall i, j | 0 <= i < j < |items| ensures items[i] != items[j] {
      PrecedesTotal(items[i], items[j]);
    }
  }
}
