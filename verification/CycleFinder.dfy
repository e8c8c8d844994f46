// `find_cycle` of tests/test_application_architecture.py: a depth-first search
// with a stack of active modules and a set of finished ones.
module CycleFinder {
  import opened Sequences
  import opened Ordering

  type Graph = map<string, set<string>>

  // A `KeyError` on `graph[name]` is the third way the search can end.
  datatype Verdict = Clear | Cycle(nodes: seq<string>) | UnknownModule(name: string)

  ghost predicate IsWalk(graph: Graph, walk: seq<string>) {
    forall i :: 0 <= i < |walk| - 1 ==> walk[i] in graph && walk[i + 1] in graph[walk[i]]
  }

  ghost predicate IsClosedWalk(graph: Graph, walk: seq<string>) {
    |walk| >= 2 && IsWalk(graph, walk) && walk[0] == walk[|walk| - 1]
  }

  ghost predicate IsSimpleCycle(graph: Graph, nodes: seq<string>) {
    IsClosedWalk(graph, nodes) && Distinct(nodes[..|nodes| - 1])
  }

  ghost predicate Acyclic(graph: Graph) {
    forall walk :: !IsClosedWalk(graph, walk)
  }

  // Every dependency is itself a module of the graph.
  ghost predicate Closed(graph: Graph) {
    forall module_ <- graph.Keys :: graph[module_] <= graph.Keys
  }

  // Every module comes after all of its dependencies.
  ghost predicate Topological(graph: Graph, order: seq<string>) {
    order == [] ||
    var last := |order| - 1;
    order[last] in graph && graph[order[last]] <= Elements(order[..last]) && Topological(graph, order[..last])
  }

  lemma {:induction false} TopologicalAt(graph: Graph, order: seq<string>, i: nat)
    requires Topological(graph, order) && i < |order|
    ensures order[i] in graph && graph[order[i]] <= Elements(order[..i])
    decreases |order|
  {
    var last := |order| - 1;
    if i < last {
      TopologicalAt(graph, order[..last], i);
      assert order[..last][..i] == order[..i];
    }
  }

  ghost function Degree(graph: Graph, name: string): nat {
    if name in graph then |graph[name]| else 0
  }

  ghost function Degrees(graph: Graph, names: seq<string>): nat {
    if names == [] then 0 else Degrees(graph, names[..|names| - 1]) + Degree(graph, names[|names| - 1])
  }

  // Along a walk, positions in a topological order go down.
  lemma {:induction false} WalkGoesDown(graph: Graph, order: seq<string>, walk: seq<string>, at: nat)
    requires Topological(graph, order) && Distinct(order)
    requires |walk| >= 2 && IsWalk(graph, walk) && at < |order| && order[at] == walk[0]
    ensures walk[|walk| - 1] in Elements(order[..at])
    decreases |walk|
  {
    TopologicalAt(graph, order, at);
    if |walk| > 2 {
      var next :| 0 <= next < at && order[next] == walk[1];
      assert IsWalk(graph, walk[1..]) by {
        forall i | 0 <= i < |walk| - 2 ensures walk[1..][i] in graph && walk[1..][i + 1] in graph[walk[1..][i]] {
          assert walk[i + 1] in graph && walk[i + 2] in graph[walk[i + 1]];
        }
      }
      WalkGoesDown(graph, order, walk[1..], next);
      assert Elements(order[..next]) <= Elements(order[..at]) by {
        assert forall k :: 0 <= k < next ==> order[..at][k] == order[..next][k];
      }
    }
  }

  // A topological order of all modules rules out closed walks and unknown names.
  lemma TopologicalIsAcyclic(graph: Graph, order: seq<string>)
    requires Topological(graph, order) && Distinct(order) && Elements(order) == graph.Keys
    ensures Acyclic(graph) && Closed(graph)
  {
    forall walk ensures !IsClosedWalk(graph, walk) {
      if IsClosedWalk(graph, walk) {
        assert walk[0] in graph && walk[0] in Elements(order);
        var at :| 0 <= at < |order| && order[at] == walk[0];
        WalkGoesDown(graph, order, walk, at);
      }
    }
    forall name | name in graph ensures graph[name] <= graph.Keys {
      assert name in Elements(order);
      var at :| 0 <= at < |order| && order[at] == name;
      TopologicalAt(graph, order, at);
    }
  }

  lemma {:induction false} DegreesConcat(graph: Graph, a: seq<string>, b: seq<string>)
    ensures Degrees(graph, a + b) == Degrees(graph, a) + Degrees(graph, b)
  {
    if b == [] {
      assert a + b == a;
    } else {
      assert (a + b)[..|a + b| - 1] == a + b[..|b| - 1];
      DegreesConcat(graph, a, b[..|b| - 1]);
    }
  }

  // Distinct names out of `all` have no more dependencies together than `all`,
  // and just as many when they are all of them.
  lemma {:induction false} DegreesOfPart(graph: Graph, part: seq<string>, all: seq<string>)
    requires Distinct(part) && Distinct(all) && Elements(part) <= Elements(all)
    ensures Degrees(graph, part) <= Degrees(graph, all)
    ensures Elements(part) == Elements(all) ==> Degrees(graph, part) == Degrees(graph, all)
  {
    if part == [] {
      assert all != [] ==> all[0] in Elements(all);
    } else {
      var last := part[|part| - 1];
      assert last in Elements(all);
      var k :| 0 <= k < |all| && all[k] == last;
      var less := all[..k] + all[k + 1..];
      DegreesWithout(graph, all, k);
      ElementsWithout(all, k);
      ElementsWithout(part, |part| - 1);
      assert part[..|part| - 1] + part[|part|..] == part[..|part| - 1];
      DegreesOfPart(graph, part[..|part| - 1], less);
    }
  }

  lemma ElementsWithout(items: seq<string>, k: nat)
    requires Distinct(items) && k < |items|
    ensures Distinct(items[..k] + items[k + 1..])
    ensures Elements(items[..k] + items[k + 1..]) == Elements(items) - {items[k]}
  {
    var less := items[..k] + items[k + 1..];
    forall x | x in Elements(items) - {items[k]} ensures x in less {
      var i :| 0 <= i < |items| && items[i] == x;
      assert less[if i < k then i else i - 1] == x;
    }
  }

  lemma DegreesWithout(graph: Graph, items: seq<string>, k: nat)
    requires k < |items|
    ensures Degrees(graph, items) == Degrees(graph, items[..k] + items[k + 1..]) + Degree(graph, items[k])
  {
    DegreesConcat(graph, items[..k], items[k + 1..]);
    assert items == items[..k] + [items[k]] + items[k + 1..];
    DegreesConcat(graph, items[..k] + [items[k]], items[k + 1..]);
  }

  // The invariant of the search: the active modules form a simple path, and the
  // finished ones are closed under dependencies, in topological order.
  ghost predicate Consistent(graph: Graph, visited: set<string>, active: seq<string>, finished: seq<string>) {
    && IsWalk(graph, active) && Distinct(active)
    && visited == Elements(finished) && Distinct(finished) && Topological(graph, finished)
    && Elements(active) !! visited && TakesLeast(graph, active, finished)
  }

  // The smaller dependencies of `from` are finished when the search goes on to `next`.
  ghost predicate SmallerAreFinished(names: set<string>, next: string, finished: seq<string>) {
    forall d <- names :: Precedes(d, next) ==> d in finished
  }

  // Every step of the path goes to the least dependency that is not finished.
  ghost predicate TakesLeast(graph: Graph, path: seq<string>, finished: seq<string>) {
    forall i :: 0 <= i < |path| - 1 ==> path[i] in graph && SmallerAreFinished(graph[path[i]], path[i + 1], finished)
  }

  // The search reached `name` along an edge from the top of the stack, after the
  // smaller names there.
  ghost predicate CanVisit(graph: Graph, active: seq<string>, finished: seq<string>, name: string) {
    active != [] ==>
      var top := active[|active| - 1];
      top in graph && name in graph[top] && SmallerAreFinished(graph[top], name, finished)
  }

  // The path on which the search ended: it goes back to itself, or to no module.
  ghost predicate HasTrail(graph: Graph, trail: seq<string>, finished: seq<string>, verdict: Verdict) {
    && trail != [] && IsWalk(graph, trail) && TakesLeast(graph, trail, finished)
    && Distinct(trail[..|trail| - 1]) && EndsAs(graph, trail, verdict)
  }

  ghost predicate EndsAs(graph: Graph, trail: seq<string>, verdict: Verdict)
    requires trail != []
  {
    var last := |trail| - 1;
    match verdict
    case Clear => true
    case Cycle(nodes) => exists start :: 0 <= start < last && trail[start] == trail[last] && nodes == trail[start..]
    case UnknownModule(name) => trail[last] == name && name !in graph
  }

  lemma Push(graph: Graph, visited: set<string>, active: seq<string>, finished: seq<string>, name: string)
    requires Consistent(graph, visited, active, finished) && CanVisit(graph, active, finished, name)
    requires name !in active && name !in visited
    ensures Consistent(graph, visited, active + [name], finished)
    ensures Elements(active + [name]) == Elements(active) + {name}
  {
    StepOn(graph, active, finished, name);
  }

  lemma Finish(graph: Graph, visited: set<string>, active: seq<string>, finished: seq<string>)
    requires Consistent(graph, visited, active, finished) && active != []
    requires active[|active| - 1] in graph && graph[active[|active| - 1]] <= visited
    ensures Consistent(graph, visited + {active[|active| - 1]},
      active[..|active| - 1], finished + [active[|active| - 1]])
  {
    var below, name := active[..|active| - 1], active[|active| - 1];
    assert name in Elements(active) && name !in finished;
    assert forall x <- below :: x in Elements(active) && x != name;
    assert Elements(finished + [name]) == visited + {name};
    assert (finished + [name])[..|finished|] == finished;
  }

  // One more step of the path.
  lemma StepOn(graph: Graph, active: seq<string>, finished: seq<string>, name: string)
    requires IsWalk(graph, active) && TakesLeast(graph, active, finished) && CanVisit(graph, active, finished, name)
    ensures IsWalk(graph, active + [name]) && TakesLeast(graph, active + [name], finished)
  {
    var path := active + [name];
    forall i | 0 <= i < |path| - 1
      ensures path[i] in graph && path[i + 1] in graph[path[i]]
      ensures SmallerAreFinished(graph[path[i]], path[i + 1], finished)
    {
      if i < |active| - 1 { assert path[i] == active[i] && path[i + 1] == active[i + 1]; }
    }
  }

  lemma BackEdge(graph: Graph, active: seq<string>, start: nat, name: string)
    requires IsWalk(graph, active + [name]) && Distinct(active)
    requires start < |active| && active[start] == name
    ensures IsSimpleCycle(graph, active[start..] + [name])
  {
    var path, nodes := active + [name], active[start..] + [name];
    assert forall i :: 0 <= i < |nodes| ==> nodes[i] == path[start + i];
    assert nodes[..|nodes| - 1] == active[start..];
  }

  lemma FoundCycle(
    graph: Graph, visited: set<string>, active: seq<string>, finished: seq<string>, start: nat, name: string)
    requires Consistent(graph, visited, active, finished) && CanVisit(graph, active, finished, name)
    requires start < |active| && active[start] == name
    ensures IsSimpleCycle(graph, active[start..] + [name])
    ensures HasTrail(graph, active + [name], finished, Cycle(active[start..] + [name]))
  {
    var trail := active + [name];
    StepOn(graph, active, finished, name);
    BackEdge(graph, active, start, name);
    assert trail[..|trail| - 1] == active && trail[start..] == active[start..] + [name];
  }

  lemma DegreesBetween(graph: Graph, from: nat, before: seq<string>, after: seq<string>)
    requires from <= |before| && before <= after
    ensures Degrees(graph, after[from..]) == Degrees(graph, before[from..]) + Degrees(graph, after[|before|..])
  {
    assert after[from..] == before[from..] + after[|before|..];
    DegreesConcat(graph, before[from..], after[|before|..]);
  }

  lemma FinishedOne(graph: Graph, from: nat, finished: seq<string>, name: string)
    requires from <= |finished|
    ensures Degrees(graph, (finished + [name])[from..]) == Degrees(graph, finished[from..]) + Degree(graph, name)
  {
    DegreesBetween(graph, from, finished, finished + [name]);
    assert (finished + [name])[|finished|..] == [name] && [name][..0] == [];
  }

  lemma MoreActive(graph: Graph, active: seq<string>, name: string)
    requires name in graph && name !in active
    ensures graph.Keys - Elements(active + [name]) < graph.Keys - Elements(active)
  {
    assert name in (graph.Keys - Elements(active)) - (graph.Keys - Elements(active + [name]));
  }

  class Search {
    const graph: Graph
    var visited: set<string>
    var active: seq<string>
    // The modules in the order in which they entered `visited`, and the number
    // of calls of `Visit` so far.
    ghost var finished: seq<string>
    ghost var calls: nat
    ghost var trail: seq<string>

    constructor (graph: Graph)
      ensures Valid() && this.graph == graph
      ensures active == [] && finished == [] && calls == 0
    {
      this.graph := graph;
      visited, active, finished, calls, trail := {}, [], [], 0, [];
    }

    ghost predicate Valid()
      reads this
    {
      Consistent(graph, visited, active, finished)
    }

    // A call that clears `name` leaves the stack as it was; any other outcome is
    // a genuine cycle or a genuine missing module, found on the first path there
    // is. `calls` grows by one and by one per dependency of every module finished
    // or left on the stack.
    method Visit(name: string) returns (verdict: Verdict)
      requires Valid() && CanVisit(graph, active, finished, name)
      modifies this
      ensures Valid() && old(finished) <= finished && old(active) <= active
      ensures verdict.Clear? ==> active == old(active) && name in visited
      ensures verdict.Cycle? ==> IsSimpleCycle(graph, verdict.nodes)
      ensures verdict.UnknownModule? ==>
        && verdict.name !in graph
        && (verdict.name == name || exists m <- graph.Keys :: verdict.name in graph[m])
      ensures !verdict.Clear? ==> HasTrail(graph, trail, finished, verdict) && old(active) + [name] <= trail
      ensures verdict.Clear? ==> calls == old(calls) + 1 + Degrees(graph, finished[|old(finished)|..])
      ensures calls <= old(calls) + 1 + Degrees(graph, finished[|old(finished)|..])
        + Degrees(graph, active[|old(active)|..])
      decreases graph.Keys - Elements(active), 2
    {
      calls := calls + 1;
      if name in active {
        verdict := Close(name);
        return;
      }
      if name in visited {
        return Clear;
      }
      verdict := Enter(name);
    }

    // The part of `visit` for a module that is active: the path has come back to it.
    method Close(name: string) returns (verdict: Verdict)
      requires Valid() && CanVisit(graph, active, finished, name) && name in active
      modifies this`trail
      ensures Valid() && verdict.Cycle? && IsSimpleCycle(graph, verdict.nodes)
      ensures HasTrail(graph, trail, finished, verdict) && trail == active + [name]
    {
      var start := IndexOf(active, name);
      FoundCycle(graph, visited, active, finished, start, name);
      trail := active + [name];
      return Cycle(active[start..] + [name]);
    }

    // The part of `visit` for a module that is neither active nor finished.
    method Enter(name: string) returns (verdict: Verdict)
      requires Valid() && CanVisit(graph, active, finished, name)
      requires name !in active && name !in visited
      modifies this
      ensures Valid() && old(finished) <= finished && old(active) <= active
      ensures verdict.Clear? ==> active == old(active) && name in visited
      ensures verdict.Cycle? ==> IsSimpleCycle(graph, verdict.nodes)
      ensures verdict.UnknownModule? ==>
        && verdict.name !in graph
        && (verdict.name == name || exists m <- graph.Keys :: verdict.name in graph[m])
      ensures !verdict.Clear? ==> HasTrail(graph, trail, finished, verdict) && old(active) + [name] <= trail
      ensures verdict.Clear? ==> calls == old(calls) + Degrees(graph, finished[|old(finished)|..])
      ensures calls <= old(calls) + Degrees(graph, finished[|old(finished)|..])
        + Degrees(graph, active[|old(active)|..])
      decreases graph.Keys - Elements(active), 1
    {
      Push(graph, visited, active, finished, name);
      active := active + [name];
      if name !in graph {
        trail := active;
        assert trail[..|trail| - 1] == old(active);
        return UnknownModule(name);
      }
      MoreActive(graph, old(active), name);
      verdict := VisitDependencies(name);
      if !verdict.Clear? {
        PushedOne(graph, old(active), name, active);
      } else {
        FinishedOne(graph, |old(finished)|, finished, name);
        Leave(old(active), name);
      }
    }

    // Take the finished module `name` off the stack `below + [name]`.
    method Leave(ghost below: seq<string>, name: string)
      requires Valid() && active == below + [name] && name in graph && graph[name] <= visited
      modifies this
      ensures Valid() && active == below && visited == old(visited) + {name}
      ensures finished == old(finished) + [name] && calls == old(calls)
    {
      Finish(graph, visited, active, finished);
      active := active[..|active| - 1];
      visited := visited + {name};
      finished := finished + [name];
    }

    // The loop of `visit` over the dependencies of the module it has just pushed.
    method VisitDependencies(name: string) returns (verdict: Verdict)
      requires Valid() && active != [] && active[|active| - 1] == name && name in graph
      modifies this
      ensures Valid() && old(finished) <= finished && old(active) <= active
      ensures verdict.Clear? ==> active == old(active) && graph[name] <= visited
      ensures verdict.Cycle? ==> IsSimpleCycle(graph, verdict.nodes)
      ensures verdict.UnknownModule? ==> verdict.name !in graph && exists m <- graph.Keys :: verdict.name in graph[m]
      ensures !verdict.Clear? ==> HasTrail(graph, trail, finished, verdict) && old(active) <= trail
      ensures verdict.Clear? ==> calls == old(calls) + |graph[name]| + Degrees(graph, finished[|old(finished)|..])
      ensures calls <= old(calls) + |graph[name]| + Degrees(graph, finished[|old(finished)|..])
        + Degrees(graph, active[|old(active)|..])
      decreases graph.Keys - Elements(active), 3
    {
      var dependencies := Sorted(graph[name]);
      var i := 0;
      while i < |dependencies|
        invariant i <= |dependencies|
        invariant Valid() && active == old(active) && old(finished) <= finished
        invariant Elements(dependencies[..i]) <= visited
        invariant calls == old(calls) + i + Degrees(graph, finished[|old(finished)|..])
      {
        assert dependencies[i] in Elements(dependencies);
        ghost var before := finished;
        SmallerComeBefore(dependencies, i, finished);
        verdict := Visit(dependencies[i]);
        DegreesBetween(graph, |old(finished)|, before, finished);
        if !verdict.Clear? {
          return;
        }
        NextDependency(dependencies, i, before, finished);
        i := i + 1;
      }
      assert dependencies[..i] == dependencies;
      return Clear;
    }
  }

  // In an increasing listing what is smaller comes before.
  lemma SmallerComeBefore(items: seq<string>, i: nat, finished: seq<string>)
    requires i < |items| && Increasing(items) && Elements(items[..i]) <= Elements(finished)
    ensures SmallerAreFinished(Elements(items), items[i], finished)
  {
    forall d | d in Elements(items) && Precedes(d, items[i]) ensures d in finished {
      var k :| 0 <= k < |items| && items[k] == d;
      PrecedesTotal(d, items[i]);
      assert k < i;
      assert items[..i][k] == d;
      assert d in Elements(items[..i]);
    }
  }

  lemma NextDependency(dependencies: seq<string>, i: nat, before: seq<string>, after: seq<string>)
    requires i < |dependencies| && before <= after
    requires Elements(dependencies[..i]) <= Elements(before) && dependencies[i] in Elements(after)
    ensures Elements(dependencies[..i + 1]) <= Elements(after)
  {
    assert dependencies[..i + 1] == dependencies[..i] + [dependencies[i]];
    assert Elements(before) <= Elements(after);
  }

  // `name` and its dependencies, entered on top of `below`.
  lemma PushedOne(graph: Graph, below: seq<string>, name: string, active: seq<string>)
    requires below + [name] <= active
    ensures Degrees(graph, active[|below|..]) == Degree(graph, name) + Degrees(graph, active[|below| + 1..])
  {
    DegreesBetween(graph, |below|, below + [name], active);
    assert (below + [name])[|below|..] == [name] && [name][..0] == [];
    assert Degrees(graph, [name]) == Degree(graph, name);
  }

  function IndexOf(items: seq<string>, item: string): (index: nat)
    requires item in items
    ensures index < |items| && items[index] == item && item !in items[..index]
  {
    if items[0] == item then 0 else 1 + IndexOf(items[1..], item)
  }

  // Finished and still active modules together have at most all edges; only the
  // top of the stack can be a name that is no module.
  lemma SearchIsBounded(graph: Graph, finished: seq<string>, active: seq<string>)
    requires Topological(graph, finished) && Distinct(finished)
    requires IsWalk(graph, active) && Distinct(active) && Elements(active) !! Elements(finished)
    ensures Degrees(graph, finished) + Degrees(graph, active) <= Degrees(graph, Sorted(graph.Keys))
  {
    var modules := Sorted(graph.Keys);
    var known := KnownPart(graph, active);
    SortedIsDistinct(graph.Keys);
    TopologicalNames(graph, finished);
    DegreesOfTwoParts(graph, finished, known, modules);
  }

  lemma DegreesOfTwoParts(graph: Graph, a: seq<string>, b: seq<string>, all: seq<string>)
    requires Distinct(a) && Distinct(b) && Elements(a) !! Elements(b)
    requires Distinct(all) && Elements(a) <= Elements(all) && Elements(b) <= Elements(all)
    ensures Degrees(graph, a) + Degrees(graph, b) <= Degrees(graph, all)
  {
    DistinctConcat(a, b);
    DegreesConcat(graph, a, b);
    assert Elements(a + b) == Elements(a) + Elements(b);
    DegreesOfPart(graph, a + b, all);
  }

  lemma KnownPart(graph: Graph, active: seq<string>) returns (known: seq<string>)
    requires IsWalk(graph, active) && Distinct(active)
    ensures Distinct(known) && Elements(known) <= graph.Keys && Elements(known) <= Elements(active)
    ensures Degrees(graph, known) == Degrees(graph, active)
  {
    known := if active != [] && active[|active| - 1] !in graph then active[..|active| - 1] else active;
    assert forall i :: 0 <= i < |known| ==> known[i] == active[i] && known[i] in graph;
  }

  lemma TopologicalNames(graph: Graph, order: seq<string>)
    requires Topological(graph, order)
    ensures Elements(order) <= graph.Keys
  {
    forall x | x in Elements(order) ensures x in graph.Keys {
      var i :| 0 <= i < |order| && order[i] == x;
      TopologicalAt(graph, order, i);
    }
  }

  lemma DistinctConcat(a: seq<string>, b: seq<string>)
    requires Distinct(a) && Distinct(b) && Elements(a) !! Elements(b)
    ensures Distinct(a + b)
  {
    var both := a + b;
    forall i, j | 0 <= i < j < |both| ensures both[i] != both[j] {
      if i < |a| <= j {
        assert both[i] in Elements(a) && both[j] in Elements(b);
      }
    }
  }

  lemma AllFinished(graph: Graph, order: seq<string>)
    requires Topological(graph, order) && Distinct(order) && graph.Keys <= Elements(order)
    ensures Elements(order) == graph.Keys
    ensures Degrees(graph, order) == Degrees(graph, Sorted(graph.Keys))
  {
    SortedIsDistinct(graph.Keys);
    TopologicalNames(graph, order);
    DegreesOfPart(graph, order, Sorted(graph.Keys));
  }

  // ---- Which cycle is found ----

  // No closed walk and no unknown name can be reached from `name`.
  ghost predicate IsHarmless(graph: Graph, name: string) {
    exists order :: Clears(graph, order, name)
  }

  ghost predicate Clears(graph: Graph, order: seq<string>, name: string) {
    Topological(graph, order) && Distinct(order) && name in order
  }

  // The least name that is not harmless.
  ghost predicate IsFirst(graph: Graph, names: set<string>, name: string) {
    && name in names && !IsHarmless(graph, name)
    && forall other <- names :: Precedes(other, name) ==> IsHarmless(graph, other)
  }

  // From the first harmful module on, always to the first harmful dependency.
  ghost predicate IsFirstPath(graph: Graph, path: seq<string>) {
    && path != [] && IsFirst(graph, graph.Keys, path[0]) && Distinct(path[..|path| - 1])
    && forall i :: 0 <= i < |path| - 1 ==> path[i] in graph && IsFirst(graph, graph[path[i]], path[i + 1])
  }

  // What the depth-first search in sorted order comes upon first.
  ghost predicate IsFirstFinding(graph: Graph, verdict: Verdict) {
    exists path :: IsFirstPath(graph, path) && EndsAs(graph, path, verdict)
  }

  lemma WalkFrom(graph: Graph, walk: seq<string>, i: nat)
    requires IsWalk(graph, walk) && i < |walk|
    ensures IsWalk(graph, walk[i..])
  {
    forall k | 0 <= k < |walk[i..]| - 1 ensures walk[i..][k] in graph && walk[i..][k + 1] in graph[walk[i..][k]] {
      assert walk[i + k] in graph && walk[i + k + 1] in graph[walk[i + k]];
    }
  }

  // Whatever can be reached from a cleared name is cleared too.
  lemma ClearsReachable(graph: Graph, order: seq<string>, walk: seq<string>)
    requires walk != [] && IsWalk(graph, walk) && Clears(graph, order, walk[0])
    ensures Clears(graph, order, walk[|walk| - 1])
  {
    if |walk| > 1 {
      var at :| 0 <= at < |order| && order[at] == walk[0];
      WalkGoesDown(graph, order, walk, at);
    }
  }

  lemma ClosedWalkIsNotCleared(graph: Graph, order: seq<string>, walk: seq<string>)
    requires IsClosedWalk(graph, walk)
    ensures !Clears(graph, order, walk[0])
  {
    if Clears(graph, order, walk[0]) {
      var at :| 0 <= at < |order| && order[at] == walk[0];
      WalkGoesDown(graph, order, walk, at);
    }
  }

  lemma TrailIsHarmful(graph: Graph, trail: seq<string>, verdict: Verdict, i: nat)
    requires trail != [] && IsWalk(graph, trail) && EndsAs(graph, trail, verdict) && !verdict.Clear?
    requires i < |trail|
    ensures !IsHarmless(graph, trail[i])
  {
    var last := |trail| - 1;
    forall order ensures !Clears(graph, order, trail[i]) {
      if Clears(graph, order, trail[i]) {
        WalkFrom(graph, trail, i);
        ClearsReachable(graph, order, trail[i..]);
        EndIsNotCleared(graph, order, trail, verdict);
      }
    }
  }

  lemma EndIsNotCleared(graph: Graph, order: seq<string>, trail: seq<string>, verdict: Verdict)
    requires trail != [] && IsWalk(graph, trail) && EndsAs(graph, trail, verdict) && !verdict.Clear?
    ensures !Clears(graph, order, trail[|trail| - 1])
  {
    var last := |trail| - 1;
    match verdict
    case Cycle(nodes) =>
      var start :| 0 <= start < last && trail[start] == trail[last] && nodes == trail[start..];
      WalkFrom(graph, trail, start);
      ClosedWalkIsNotCleared(graph, order, nodes);
    case UnknownModule(name) =>
      if Topological(graph, order) { TopologicalNames(graph, order); }
      assert name in order ==> name in Elements(order);
  }

  lemma FinishedAreHarmless(graph: Graph, finished: seq<string>, names: set<string>, next: string)
    requires Topological(graph, finished) && Distinct(finished) && SmallerAreFinished(names, next, finished)
    ensures forall other <- names :: Precedes(other, next) ==> IsHarmless(graph, other)
  {
    forall other | other in names && Precedes(other, next) ensures IsHarmless(graph, other) {
      assert Clears(graph, finished, other);
    }
  }

  lemma TrailIsFirst(graph: Graph, trail: seq<string>, finished: seq<string>, verdict: Verdict)
    requires HasTrail(graph, trail, finished, verdict) && !verdict.Clear?
    requires Topological(graph, finished) && Distinct(finished)
    requires trail[0] in graph && SmallerAreFinished(graph.Keys, trail[0], finished)
    ensures IsFirstFinding(graph, verdict)
  {
    forall i | 0 <= i < |trail| ensures !IsHarmless(graph, trail[i]) { TrailIsHarmful(graph, trail, verdict, i); }
    FinishedAreHarmless(graph, finished, graph.Keys, trail[0]);
    forall i | 0 <= i < |trail| - 1 ensures trail[i] in graph && IsFirst(graph, graph[trail[i]], trail[i + 1]) {
      assert trail[i + 1] in graph[trail[i]];
      FinishedAreHarmless(graph, finished, graph[trail[i]], trail[i + 1]);
    }
    assert IsFirstPath(graph, trail);
  }

  lemma FirstIsUnique(graph: Graph, names: set<string>, a: string, b: string)
    requires IsFirst(graph, names, a) && IsFirst(graph, names, b)
    ensures a == b
  {
    PrecedesTotal(a, b);
  }

  lemma {:induction false} FirstPathsAgree(graph: Graph, p: seq<string>, q: seq<string>, i: nat)
    requires IsFirstPath(graph, p) && IsFirstPath(graph, q) && i < |p| && i < |q|
    ensures p[..i + 1] == q[..i + 1]
  {
    if i == 0 {
      FirstIsUnique(graph, graph.Keys, p[0], q[0]);
    } else {
      FirstPathsAgree(graph, p, q, i - 1);
      assert p[..i][i - 1] == q[..i][i - 1];
      FirstIsUnique(graph, graph[p[i - 1]], p[i], q[i]);
    }
  }

  // A path that goes on has not ended.
  lemma NoEndInside(graph: Graph, path: seq<string>, n: nat, verdict: Verdict)
    requires IsFirstPath(graph, path) && 0 < n < |path| && !verdict.Clear?
    ensures !EndsAs(graph, path[..n], verdict)
  {
    var front, part := path[..|path| - 1], path[..n];
    forall start | 0 <= start < n - 1 ensures part[start] != part[n - 1] {
      assert front[start] == part[start] && front[n - 1] == part[n - 1];
    }
    assert path[n - 1] in graph;
  }

  lemma FirstPathStops(graph: Graph, p: seq<string>, q: seq<string>, verdict: Verdict)
    requires IsFirstPath(graph, p) && IsFirstPath(graph, q) && EndsAs(graph, p, verdict) && !verdict.Clear?
    ensures |q| <= |p|
  {
    if |p| < |q| {
      FirstPathsAgree(graph, p, q, |p| - 1);
      assert p == p[..|p| - 1 + 1] == q[..|p|];
      NoEndInside(graph, q, |p|, verdict);
    }
  }

  // A path ends in one way.
  lemma SameEnd(graph: Graph, path: seq<string>, one: Verdict, other: Verdict)
    requires IsFirstPath(graph, path) && !one.Clear? && !other.Clear?
    requires EndsAs(graph, path, one) && EndsAs(graph, path, other)
    ensures one == other
  {
    var front := path[..|path| - 1];
    assert forall k :: 0 <= k < |path| - 1 ==> front[k] == path[k];
  }

  // There is one such finding, whatever way it was come upon.
  lemma FirstFindingIsUnique(graph: Graph, one: Verdict, other: Verdict)
    requires IsFirstFinding(graph, one) && IsFirstFinding(graph, other) && !one.Clear? && !other.Clear?
    ensures one == other
  {
    var p :| IsFirstPath(graph, p) && EndsAs(graph, p, one);
    var q :| IsFirstPath(graph, q) && EndsAs(graph, q, other);
    FirstPathStops(graph, p, q, one);
    FirstPathStops(graph, q, p, other);
    FirstPathsAgree(graph, p, q, |p| - 1);
    assert p == p[..|p| - 1 + 1] == q[..|p| - 1 + 1] == q;
    SameEnd(graph, p, one, other);
  }

  // What a finding is worth: a genuine simple cycle or a genuine missing module,
  // the first in the order of the search.
  ghost predicate IsGenuine(graph: Graph, verdict: Verdict) {
    && IsFirstFinding(graph, verdict)
    && (verdict.Cycle? ==> IsSimpleCycle(graph, verdict.nodes))
    && (verdict.UnknownModule? ==>
          verdict.name !in graph && exists m <- graph.Keys :: verdict.name in graph[m])
  }

  // One iteration of the loop over all modules.
  method VisitRoot(search: Search, roots: seq<string>, i: nat) returns (verdict: Verdict)
    requires search.Valid() && search.active == []
    requires i < |roots| && Elements(roots) == search.graph.Keys && Increasing(roots)
    requires Elements(roots[..i]) <= search.visited && search.calls == i + Degrees(search.graph, search.finished)
    modifies search
    ensures search.Valid()
    ensures verdict.Clear? ==> search.active == [] && Elements(roots[..i + 1]) <= search.visited
    ensures verdict.Clear? ==> search.calls == i + 1 + Degrees(search.graph, search.finished)
    ensures !verdict.Clear? ==> IsGenuine(search.graph, verdict)
    ensures !verdict.Clear? ==> search.calls <= i + 1 + Degrees(search.graph, Sorted(search.graph.Keys))
  {
    assert roots[i] in Elements(roots);
    ghost var before := search.finished;
    SmallerComeBefore(roots, i, before);
    verdict := search.Visit(roots[i]);
    DegreesBetween(search.graph, 0, before, search.finished);
    assert before[0..] == before && search.finished[0..] == search.finished;
    if verdict.Clear? {
      NextDependency(roots, i, before, search.finished);
    } else {
      assert search.active[0..] == search.active;
      SearchIsBounded(search.graph, search.finished, search.active);
      TrailIsFirst(search.graph, search.trail, search.finished, verdict);
    }
  }

  // The search finds no cycle exactly when every dependency is known and no
  // closed walk exists; the order of entry into `visited` is then a topological
  // order of all modules, and there is one call per module and per edge. What it
  // reports otherwise is genuine, and the first in the order of the search.
  method FindCycle(graph: Graph) returns (verdict: Verdict, ghost order: seq<string>, ghost calls: nat)
    ensures verdict.Clear? <==> Acyclic(graph) && Closed(graph)
    ensures verdict.Cycle? ==> IsSimpleCycle(graph, verdict.nodes)
    ensures !verdict.Clear? ==> IsFirstFinding(graph, verdict)
    ensures verdict.UnknownModule? ==> verdict.name !in graph && exists m <- graph.Keys :: verdict.name in graph[m]
    ensures verdict.Clear? ==> Topological(graph, order) && Distinct(order) && Elements(order) == graph.Keys
    ensures verdict.Clear? ==> calls == |graph| + Degrees(graph, Sorted(graph.Keys))
    ensures calls <= |graph| + Degrees(graph, Sorted(graph.Keys))
  {
    var search := new Search(graph);
    var roots := Sorted(graph.Keys);
    var i := 0;
    while i < |roots|
      invariant i <= |roots| && fresh(search) && search.graph == graph
      invariant search.Valid() && search.active == []
      invariant Elements(roots[..i]) <= search.visited
      invariant search.calls == i + Degrees(graph, search.finished)
    {
      verdict := VisitRoot(search, roots, i);
      if !verdict.Clear? {
        return verdict, search.finished, search.calls;
      }
      i := i + 1;
    }
    verdict, order, calls := Clear, search.finished, search.calls;
    assert roots[..|roots|] == roots;
    AllFinished(graph, order);
    TopologicalIsAcyclic(graph, order);
  }
}
