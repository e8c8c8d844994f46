// What a sequence holds, regardless of its order.
module Sequences {

  ghost function Elements<T>(items: seq<T>): set<T> {
    set x | x in items
  }

  ghost predicate Distinct<T>(items: seq<T>) {
    forall i, j :: 0 <= i < j < |items| ==> items[i] != items[j]
  }
}
