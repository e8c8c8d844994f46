// The merge of base and extra dependencies in `check_repository` of
// scripts/check_dependency_compatibility.py.
module Declarations {
  import opened Options
  import opened Requirements

  const BASE := "base"

  // Extras that do not declare dependencies of their own.
  const SKIPPED := {"all", "dev"}

  datatype Declared = Declared(extras: set<string>, range: Range)

  datatype Merge = Merged(declared: map<string, Declared>) | Unsupported(text: string) | RangeDiffers(name: string)

  // One optional requirement, as written and parsed, with the extra it belongs to.
  datatype Entry = Entry(extra: string, text: string, parsed: Option<Requirement>)

  function EntryFor(extra: string, text: string): Entry {
    Entry(extra, text, ParseRequirement(text))
  }

  // The entries of `optional-dependencies` in the order the loops meet them.
  ghost function Entries(optional: seq<(string, seq<string>)>): seq<Entry> {
    if optional == [] then []
    else
      var last := |optional| - 1;
      Entries(optional[..last]) +
        if optional[last].0 in SKIPPED then [] else EntriesOf(optional[last].0, optional[last].1)
  }

  ghost function EntriesOf(extra: string, texts: seq<string>): seq<Entry> {
    if texts == [] then []
    else EntriesOf(extra, texts[..|texts| - 1]) + [EntryFor(extra, texts[|texts| - 1])]
  }

  ghost function ParseEach(texts: seq<string>): seq<Option<Requirement>> {
    seq(|texts|, i requires 0 <= i < |texts| => ParseRequirement(texts[i]))
  }

  ghost predicate AllParse(base: seq<Option<Requirement>>, entries: seq<Entry>) {
    (forall r <- base :: r.Some?) && (forall e <- entries :: e.parsed.Some?)
  }

  ghost function NameOf(e: Entry): string
    requires e.parsed.Some?
  {
    e.parsed.value.name
  }

  ghost function RangeOf(e: Entry): Range
    requires e.parsed.Some?
  {
    e.parsed.value.range
  }

  // The range a base name has: that of its last declaration.
  ghost function BaseRange(base: seq<Option<Requirement>>, name: string): Option<Range> {
    if base == [] then None
    else
      var last := base[|base| - 1];
      if last.Some? && last.value.name == name then Some(last.value.range) else BaseRange(base[..|base| - 1], name)
  }

  // All extras that declare a name give it one range, the base's if it has one.
  ghost predicate Agree(base: seq<Option<Requirement>>, entries: seq<Entry>)
    requires AllParse(base, entries)
  {
    && (forall a, b :: a in entries && b in entries && NameOf(a) == NameOf(b) ==> RangeOf(a) == RangeOf(b))
    && (forall a <- entries :: BaseRange(base, NameOf(a)).Some? ==> BaseRange(base, NameOf(a)) == Some(RangeOf(a)))
  }

  ghost function Extras(base: seq<Option<Requirement>>, entries: seq<Entry>, name: string): set<string>
    requires AllParse(base, entries)
  {
    (if BaseRange(base, name).Some? then {BASE} else {}) + (set e | e in entries && NameOf(e) == name :: e.extra)
  }

  // The merged inventory, without reference to any order.
  ghost predicate IsMerge(base: seq<Option<Requirement>>, entries: seq<Entry>, declared: map<string, Declared>)
    requires AllParse(base, entries)
  {
    && (forall name :: name in declared <==> Extras(base, entries, name) != {})
    && (forall name <- declared :: declared[name].extras == Extras(base, entries, name))
    && (forall name <- declared :: BaseRange(base, name).Some? ==> BaseRange(base, name) == Some(declared[name].range))
    && (forall e <- entries :: NameOf(e) in declared && declared[NameOf(e)].range == RangeOf(e))
  }

  lemma BaseStep(base: seq<Option<Requirement>>, requirement: Requirement, declared: map<string, Declared>)
    requires AllParse(base, []) && IsMerge(base, [], declared)
    ensures AllParse(base + [Some(requirement)], [])
    ensures IsMerge(base + [Some(requirement)], [], declared[requirement.name := Declared({BASE}, requirement.range)])
  {
    var longer := base + [Some(requirement)];
    assert longer[..|base|] == base;
    forall name
      ensures BaseRange(longer, name) ==
        if requirement.name == name then Some(requirement.range) else BaseRange(base, name)
    {
    }
  }

  // What the loop body makes of the inventory, unless the ranges differ.
  function Declare(declared: map<string, Declared>, extra: string, requirement: Requirement): map<string, Declared> {
    var extras := if requirement.name in declared then declared[requirement.name].extras else {};
    declared[requirement.name := Declared(extras + {extra}, requirement.range)]
  }

  lemma ExtrasStep(base: seq<Option<Requirement>>, seen: seq<Entry>, entry: Entry, name: string)
    requires AllParse(base, seen) && entry.parsed.Some?
    ensures AllParse(base, seen + [entry])
    ensures Extras(base, seen + [entry], name) ==
      Extras(base, seen, name) + if NameOf(entry) == name then {entry.extra} else {}
  {
    assert forall e :: e in seen + [entry] <==> e in seen || e == entry;
  }

  lemma {:induction false} EntryAt(
    base: seq<Option<Requirement>>, seen: seq<Entry>, entry: Entry, declared: map<string, Declared>, name: string)
    requires AllParse(base, seen) && entry.parsed.Some? && IsMerge(base, seen, declared)
    requires NameOf(entry) in declared ==> declared[NameOf(entry)].range == RangeOf(entry)
    ensures AllParse(base, seen + [entry])
    ensures var after := Declare(declared, entry.extra, entry.parsed.value);
      && (name in after <==> Extras(base, seen + [entry], name) != {})
      && (name in after ==> after[name].extras == Extras(base, seen + [entry], name))
      && (name in after && BaseRange(base, name).Some? ==> BaseRange(base, name) == Some(after[name].range))
  {
    ExtrasStep(base, seen, entry, name);
    assert name in declared <==> Extras(base, seen, name) != {};
    assert BaseRange(base, name).Some? ==> BASE in Extras(base, seen, name);
  }

  lemma {:induction false} EntryStep(
    base: seq<Option<Requirement>>, seen: seq<Entry>, entry: Entry, declared: map<string, Declared>)
    requires AllParse(base, seen) && entry.parsed.Some? && IsMerge(base, seen, declared)
    requires NameOf(entry) in declared ==> declared[NameOf(entry)].range == RangeOf(entry)
    ensures AllParse(base, seen + [entry])
    ensures IsMerge(base, seen + [entry], Declare(declared, entry.extra, entry.parsed.value))
  {
    assert forall e :: e in seen + [entry] <==> e in seen || e == entry;
    forall name { EntryAt(base, seen, entry, declared, name); }
  }

  lemma MergeAgrees(base: seq<Option<Requirement>>, entries: seq<Entry>, declared: map<string, Declared>)
    requires AllParse(base, entries) && IsMerge(base, entries, declared)
    ensures Agree(base, entries)
  {
  }

  // A range that differs from the inventory so far differs from some declaration.
  lemma Disagreement(
    base: seq<Option<Requirement>>, seen: seq<Entry>, declared: map<string, Declared>,
    all: seq<Entry>, entry: Entry)
    requires AllParse(base, all) && AllParse(base, seen) && IsMerge(base, seen, declared)
    requires entry in all && forall e <- seen :: e in all
    requires NameOf(entry) in declared && declared[NameOf(entry)].range != RangeOf(entry)
    ensures !Agree(base, all)
  {
    var name := NameOf(entry);
    if BaseRange(base, name).None? {
      var extra :| extra in Extras(base, seen, name);
      var e :| e in seen && NameOf(e) == name && e.extra == extra;
      assert e in all;
    }
  }

  lemma {:induction false} EntriesKeep(optional: seq<(string, seq<string>)>, k: nat)
    requires k <= |optional|
    ensures Entries(optional[..k]) <= Entries(optional)
    decreases |optional|
  {
    if k < |optional| {
      var rest := optional[..|optional| - 1];
      EntriesKeep(rest, k);
      assert rest[..k] == optional[..k];
    } else {
      assert optional[..k] == optional;
    }
  }

  lemma {:induction false} EntriesOfKeep(extra: string, texts: seq<string>, i: nat)
    requires i <= |texts|
    ensures EntriesOf(extra, texts[..i]) <= EntriesOf(extra, texts)
    decreases |texts|
  {
    if i < |texts| {
      var rest := texts[..|texts| - 1];
      EntriesOfKeep(extra, rest, i);
      assert rest[..i] == texts[..i];
    } else {
      assert texts[..i] == texts;
    }
  }

  lemma {:induction false} EntriesOfContains(extra: string, texts: seq<string>, e: Entry)
    ensures e in EntriesOf(extra, texts) <==> exists t <- texts :: e == EntryFor(extra, t)
  {
    if texts != [] {
      EntriesOfContains(extra, texts[..|texts| - 1], e);
      assert texts == texts[..|texts| - 1] + [texts[|texts| - 1]];
    }
  }

  lemma EntriesSoFar(extra: string, texts: seq<string>, i: nat)
    requires i < |texts|
    ensures EntriesOf(extra, texts[..i + 1]) == EntriesOf(extra, texts[..i]) + [EntryFor(extra, texts[i])]
    ensures EntriesOf(extra, texts[..i + 1]) <= EntriesOf(extra, texts)
  {
    assert texts[..i + 1][..i] == texts[..i];
    EntriesOfKeep(extra, texts, i + 1);
  }

  lemma EntriesStep(optional: seq<(string, seq<string>)>, k: nat)
    requires k < |optional|
    ensures Entries(optional[..k + 1]) == Entries(optional[..k])
      + if optional[k].0 in SKIPPED then [] else EntriesOf(optional[k].0, optional[k].1)
  {
    var some := optional[..k + 1];
    assert some[..k] == optional[..k] && some[k] == optional[k];
  }

  // Entry n is the first that the merge cannot take: it does not parse, or its
  // range differs from what is declared before it.
  ghost predicate RefusesAt(base: seq<Option<Requirement>>, entries: seq<Entry>, n: nat, merge: Merge)
    requires n < |entries|
  {
    && AllParse(base, entries[..n]) && Agree(base, entries[..n])
    && (merge.Unsupported? ==> entries[n].parsed.None? && entries[n].text == merge.text)
    && (merge.RangeDiffers? ==>
          && entries[n].parsed.Some? && NameOf(entries[n]) == merge.name
          && AllParse(base, entries[..n + 1]) && !Agree(base, entries[..n + 1]))
  }

  ghost predicate Refuses(base: seq<Option<Requirement>>, entries: seq<Entry>, merge: Merge) {
    exists n :: 0 <= n < |entries| && RefusesAt(base, entries, n, merge)
  }

  // The first base dependency that does not parse.
  ghost predicate RefusesBase(base: seq<string>, merge: Merge) {
    && merge.Unsupported?
    && exists i :: 0 <= i < |base| && merge.text == base[i] && ParseRequirement(base[i]).None?
         && AllParse(ParseEach(base[..i]), [])
  }

  lemma RefusedHere(
    base: seq<Option<Requirement>>, now: seq<Entry>, entry: Entry, all: seq<Entry>, declared: map<string, Declared>,
    merge: Merge)
    requires AllParse(base, now) && IsMerge(base, now, declared) && now + [entry] <= all
    requires !merge.Merged?
    requires merge.Unsupported? ==> entry.parsed.None? && entry.text == merge.text
    requires merge.RangeDiffers? ==> entry.parsed.Some? && NameOf(entry) == merge.name
    requires merge.RangeDiffers? ==> NameOf(entry) in declared && declared[NameOf(entry)].range != RangeOf(entry)
    ensures Refuses(base, all, merge)
  {
    var n := |now|;
    assert all[..n] == now && all[n] == entry && all[..n + 1] == now + [entry];
    MergeAgrees(base, now, declared);
    if merge.RangeDiffers? {
      ExtrasStep(base, now, entry, NameOf(entry));
      Disagreement(base, now, declared, now + [entry], entry);
    }
    assert RefusesAt(base, all, n, merge);
  }

  // A refused merge does not parse, or does not agree.
  lemma {:induction false} RefusedIsBad(base: seq<Option<Requirement>>, entries: seq<Entry>, merge: Merge)
    requires !merge.Merged? && Refuses(base, entries, merge)
    ensures !(AllParse(base, entries) && Agree(base, entries))
  {
    var n :| 0 <= n < |entries| && RefusesAt(base, entries, n, merge);
    assert entries[n] in entries;
    assert forall e <- entries[..n + 1] :: e in entries;
  }

  // The loop over the base dependencies.
  method MergeBase(base: seq<string>) returns (merge: Merge)
    ensures merge.Merged? <==> AllParse(ParseEach(base), [])
    ensures merge.Merged? ==> IsMerge(ParseEach(base), [], merge.declared)
    ensures !merge.Merged? ==> RefusesBase(base, merge)
  {
    ghost var parsed := ParseEach(base);
    var declared: map<string, Declared> := map[];
    for i := 0 to |base|
      invariant AllParse(parsed[..i], [])
      invariant IsMerge(parsed[..i], [], declared)
    {
      var requirement := ParseRequirement(base[i]);
      assert parsed[i] == requirement && parsed[i] in parsed;
      assert parsed[..i + 1] == parsed[..i] + [parsed[i]];
      if requirement.None? {
        assert ParseEach(base[..i]) == parsed[..i];
        return Unsupported(base[i]);
      }
      BaseStep(parsed[..i], requirement.value, declared);
      declared := declared[requirement.value.name := Declared({BASE}, requirement.value.range)];
    }
    assert parsed[..|base|] == parsed;
    return Merged(declared);
  }

  // The loop over the requirements of one extra, after the entries `seen`.
  method MergeExtra(ghost base: seq<Option<Requirement>>, ghost seen: seq<Entry>, ghost all: seq<Entry>,
                    before: map<string, Declared>, extra: string, texts: seq<string>)
    returns (merge: Merge)
    requires AllParse(base, seen) && IsMerge(base, seen, before)
    requires seen + EntriesOf(extra, texts) <= all
    ensures !merge.Merged? ==> Refuses(base, all, merge)
    ensures merge.Merged? ==> AllParse(base, seen + EntriesOf(extra, texts))
    ensures merge.Merged? ==> IsMerge(base, seen + EntriesOf(extra, texts), merge.declared)
  {
    var declared := before;
    for i := 0 to |texts|
      invariant AllParse(base, seen + EntriesOf(extra, texts[..i]))
      invariant IsMerge(base, seen + EntriesOf(extra, texts[..i]), declared)
    {
      var requirement := ParseRequirement(texts[i]);
      ghost var now, entry := seen + EntriesOf(extra, texts[..i]), EntryFor(extra, texts[i]);
      EntriesSoFar(extra, texts, i);
      assert seen + EntriesOf(extra, texts[..i + 1]) == now + [entry];
      assert now + [entry] <= all;
      if requirement.None? {
        RefusedHere(base, now, entry, all, declared, Unsupported(texts[i]));
        return Unsupported(texts[i]);
      }
      var Requirement(name, range) := requirement.value;
      if name in declared && range != declared[name].range {
        RefusedHere(base, now, entry, all, declared, RangeDiffers(name));
        return RangeDiffers(name);
      }
      EntryStep(base, now, entry, declared);
      declared := Declare(declared, extra, requirement.value);
    }
    assert texts[..|texts|] == texts;
    return Merged(declared);
  }

  // The merge succeeds exactly when every declaration parses and all of them
  // agree, and then lists for every name exactly the extras that declare it.
  // Otherwise it names the first declaration that it cannot take.
  method MergeDeclarations(base: seq<string>, optional: seq<(string, seq<string>)>) returns (merge: Merge)
    ensures merge.Merged? <==> AllParse(ParseEach(base), Entries(optional)) && Agree(ParseEach(base), Entries(optional))
    ensures merge.Merged? ==> IsMerge(ParseEach(base), Entries(optional), merge.declared)
    ensures !merge.Merged? ==> RefusesBase(base, merge) || Refuses(ParseEach(base), Entries(optional), merge)
  {
    ghost var parsed := ParseEach(base);
    merge := MergeBase(base);
    if !merge.Merged? {
      return;
    }
    for k := 0 to |optional|
      invariant merge.Merged? && AllParse(parsed, Entries(optional[..k]))
      invariant IsMerge(parsed, Entries(optional[..k]), merge.declared)
    {
      var (extra, texts) := optional[k];
      EntriesStep(optional, k);
      EntriesKeep(optional, k + 1);
      if extra !in SKIPPED {
        merge := MergeExtra(parsed, Entries(optional[..k]), Entries(optional), merge.declared, extra, texts);
        if !merge.Merged? {
          RefusedIsBad(parsed, Entries(optional), merge);
          return;
        }
      }
    }
    assert optional[..|optional|] == optional;
    MergeAgrees(parsed, Entries(optional), merge.declared);
  }

  // The inventory is determined by which extra declares what.
  lemma MergeIsOrderFree(
    base: seq<Option<Requirement>>, some: seq<Entry>, others: seq<Entry>, a: map<string, Declared>,
    b: map<string, Declared>)
    requires forall e :: e in some <==> e in others
    requires AllParse(base, some) && AllParse(base, others)
    ensures Agree(base, some) <==> Agree(base, others)
    ensures IsMerge(base, some, a) && IsMerge(base, others, b) ==> a == b
  {
    forall name ensures Extras(base, some, name) == Extras(base, others, name) {
    }
    if IsMerge(base, some, a) && IsMerge(base, others, b) {
      forall name | name in a ensures name in b && a[name] == b[name] {
        RangeIsDetermined(base, some, others, a, b, name);
      }
      assert a.Keys == b.Keys;
    }
  }

  lemma RangeIsDetermined(
    base: seq<Option<Requirement>>, some: seq<Entry>, others: seq<Entry>, a: map<string, Declared>,
    b: map<string, Declared>, name: string)
    requires forall e :: e in some <==> e in others
    requires AllParse(base, some) && AllParse(base, others)
    requires IsMerge(base, some, a) && IsMerge(base, others, b) && name in a && name in b
    ensures a[name].range == b[name].range
  {
    if BaseRange(base, name).None? {
      var extra :| extra in Extras(base, some, name);
      var e :| e in some && NameOf(e) == name && e.extra == extra;
    }
  }

  // An entry comes from a requirement of an extra that is not skipped.
  ghost predicate Declares(extra: (string, seq<string>), e: Entry) {
    extra.0 !in SKIPPED && exists t <- extra.1 :: e == EntryFor(extra.0, t)
  }

  lemma {:induction false} EntriesContain(optional: seq<(string, seq<string>)>, e: Entry)
    ensures e in Entries(optional) <==> exists extra <- optional :: Declares(extra, e)
  {
    if optional != [] {
      var last, rest := optional[|optional| - 1], optional[..|optional| - 1];
      EntriesContain(rest, e);
      EntriesOfContains(last.0, last.1, e);
      var more := if last.0 in SKIPPED then [] else EntriesOf(last.0, last.1);
      assert e in more <==> Declares(last, e);
      assert Entries(optional) == Entries(rest) + more;
      assert forall extra :: extra in optional <==> extra in rest || extra == last;
    }
  }

  lemma EntriesOfPermutation(optional: seq<(string, seq<string>)>, shuffled: seq<(string, seq<string>)>)
    requires multiset(optional) == multiset(shuffled)
    ensures forall e :: e in Entries(optional) <==> e in Entries(shuffled)
  {
    assert forall extra :: extra in optional <==> extra in multiset(optional);
    assert forall extra :: extra in shuffled <==> extra in multiset(shuffled);
    forall e ensures e in Entries(optional) <==> e in Entries(shuffled) {
      EntriesContain(optional, e);
      EntriesContain(shuffled, e);
    }
  }

  // Neither success nor the inventory depends on the order of the extras.
  method MergeInBothOrders(
    base: seq<string>, optional: seq<(string, seq<string>)>, shuffled: seq<(string, seq<string>)>)
    returns (one: Merge, other: Merge)
    requires multiset(optional) == multiset(shuffled)
    ensures one.Merged? <==> other.Merged?
    ensures one.Merged? ==> one == other
  {
    one := MergeDeclarations(base, optional);
    other := MergeDeclarations(base, shuffled);
    EntriesOfPermutation(optional, shuffled);
    ghost var parsed, some, others := ParseEach(base), Entries(optional), Entries(shuffled);
    if AllParse(parsed, some) && one.Merged? && other.Merged? {
      MergeIsOrderFree(parsed, some, others, one.declared, other.declared);
    } else if AllParse(parsed, some) {
      MergeIsOrderFree(parsed, some, others, map[], map[]);
    }
  }

  lemma BaseRangeOfTwo(one: Requirement, two: Requirement, name: string)
    ensures BaseRange([Some(one), Some(two)], name)
         == if two.name == name then Some(two.range) else if one.name == name then Some(one.range) else None
  {
    assert [Some(one), Some(two)][..1] == [Some(one)];
    assert [Some(one)][..0] == [];
    assert BaseRange([Some(one)], name) == if one.name == name then Some(one.range) else None;
  }

  // Two declarations of one base name alone make one inventory.
  lemma OnlyTwice(one: Requirement, two: Requirement, declared: map<string, Declared>)
    requires one.name == two.name
    ensures AllParse([Some(one), Some(two)], []) && Agree([Some(one), Some(two)], [])
    ensures IsMerge([Some(one), Some(two)], [], declared) ==> declared == map[two.name := Declared({BASE}, two.range)]
  {
    var base := [Some(one), Some(two)];
    forall name ensures Extras(base, [], name) == if name == two.name then {BASE} else {} {
      BaseRangeOfTwo(one, two, name);
    }
    if IsMerge(base, [], declared) {
      BaseRangeOfTwo(one, two, two.name);
      assert declared.Keys == {two.name};
    }
  }

  // A base dependency that is declared twice keeps the later range.
  method MergeTwice(name: string, former: Range, latter: Range) returns (merge: Merge)
    requires AllIn(name, IsNameChar) && IsRange(former) && IsRange(latter)
    ensures merge == Merged(map[NormalizedName(name) := Declared({BASE}, latter)])
  {
    var base := [PrintRequirement(name, former), PrintRequirement(name, latter)];
    ParseInvertsPrint(name, former);
    ParseInvertsPrint(name, latter);
    ghost var one, two := Requirement(NormalizedName(name), former), Requirement(NormalizedName(name), latter);
    assert ParseEach(base) == [Some(one), Some(two)] && Entries([]) == [];
    merge := MergeDeclarations(base, []);
    OnlyTwice(one, two, if merge.Merged? then merge.declared else map[]);
  }
}
