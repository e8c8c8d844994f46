// `extract_state` of scripts/build_documentation.py: every archive member is
// checked before the first one is written.
module Extraction {
  import opened Options

  type Path = seq<string>

  const UP := ".."

  datatype Item = Folder | File(content: string)

  datatype Kind = RegularFile(content: string) | Directory | Special

  // A member name as pathlib splits it: "." and empty parts are gone, ".." stays.
  datatype Member = Member(absolute: bool, parts: Path, kind: Kind)

  datatype Outcome = Extracted | NotCreated | UnsafeArchive | WriteFailed

  // `destination / member.name`
  function Target(destination: Path, member: Member): Path {
    if member.absolute then member.parts else destination + member.parts
  }

  // `Path.resolve` on a tree without symbolic links.
  function Resolve(path: Path): Path {
    if path == [] then []
    else
      var last, base := path[|path| - 1], Resolve(path[..|path| - 1]);
      if last != UP then base + [last]
      else if base == [] then [] else base[..|base| - 1]
  }

  predicate IsPlain(path: Path) {
    UP !in path
  }

  lemma {:induction false} ResolvePlain(path: Path)
    requires IsPlain(path)
    ensures Resolve(path) == path
  {
    if path != [] {
      ResolvePlain(path[..|path| - 1]);
      assert path[|path| - 1] in path;
    }
  }

  predicate IsSafeMember(destination: Path, member: Member) {
    destination <= Resolve(Target(destination, member)) && !member.kind.Special?
  }

  // Where a plain name ends up: an absolute one where it says, a relative one below
  // the destination. So an absolute name is refused unless it spells the
  // destination out, and a relative one is not.
  lemma PlainNamesAreSafe(destination: Path, member: Member)
    requires IsPlain(destination) && IsPlain(member.parts)
    ensures IsSafeMember(destination, member) <==>
      !member.kind.Special? && (member.absolute ==> destination <= member.parts)
    ensures !member.absolute ==> Resolve(Target(destination, member)) == destination + member.parts
    ensures member.absolute ==> Resolve(Target(destination, member)) == member.parts
  {
    ResolvePlain(member.parts);
    ResolvePlain(destination + member.parts);
  }

  // A step up takes back the last step, and stays where there is none.
  lemma UpUndoes(path: Path, name: string)
    requires name != UP
    ensures Resolve(path + [name, UP]) == Resolve(path) && Resolve([UP]) == []
  {
    assert path + [name, UP] == path + [name] + [UP];
    assert (path + [name] + [UP])[..|path| + 1] == path + [name] && (path + [name])[..|path|] == path;
  }

  // The path whose directories are made before `member` is written.
  function DirectoryPath(destination: Path, member: Member): Path {
    var target := Target(destination, member);
    if member.kind.Directory? || target == [] then target else target[..|target| - 1]
  }

  // Writing `member` makes sure that `p` exists.
  ghost predicate Makes(destination: Path, member: Member, p: Path) {
    || IsOnWay(DirectoryPath(destination, member), p)
    || (member.kind.RegularFile? && p == Resolve(Target(destination, member)))
  }

  type Tree = map<Path, Item>

  ghost predicate IsOnWay(path: Path, p: Path) {
    exists n :: 0 <= n <= |path| && Resolve(path[..n]) == p
  }

  // `after` has everything `before` had, plus directories on the way along `path`.
  ghost predicate Grown(before: Tree, after: Tree, path: Path) {
    && (forall p <- before :: p in after && after[p] == before[p])
    && (forall p <- after :: p in before || (IsOnWay(path, p) && after[p] == Folder))
  }

  // A file stands where `mkdir` needs a directory.
  ghost predicate IsBlocked(items: Tree, path: Path) {
    exists p :: IsOnWay(path, p) && p in items && items[p] != Folder
  }

  // The tree with every missing directory on the way added.
  ghost function WithFolders(items: Tree, path: Path): Tree {
    var way := set n | 0 <= n <= |path| :: Resolve(path[..n]);
    map p | p in items.Keys + way :: if p in items then items[p] else Folder
  }

  lemma GrownFully(before: Tree, after: Tree, path: Path)
    requires Grown(before, after, path)
    requires forall n :: 0 <= n <= |path| ==> Resolve(path[..n]) in after && after[Resolve(path[..n])] == Folder
    ensures after == WithFolders(before, path) && !IsBlocked(before, path)
  {
    var full := WithFolders(before, path);
    forall p ensures p in after <==> p in full {
      if p in after && p !in before { assert IsOnWay(path, p); }
    }
  }

  class Disk {
    var items: Tree

    // `mkdir(parents=True, exist_ok=True)` on an unresolved path: every prefix in
    // turn must be, or becomes, a directory.
    method MakeDirectories(path: Path) returns (done: bool)
      modifies this
      ensures Grown(old(items), items, path)
      ensures done ==> forall p :: IsOnWay(path, p) ==> p in items && items[p] == Folder
      ensures done <==> !IsBlocked(old(items), path)
      ensures done ==> items == WithFolders(old(items), path)
    {
      var n := 0;
      while n <= |path|
        invariant n <= |path| + 1
        invariant Grown(old(items), items, path)
        invariant forall k :: 0 <= k < n ==> Resolve(path[..k]) in items && items[Resolve(path[..k])] == Folder
      {
        var p := Resolve(path[..n]);
        if p !in items {
          items := items[p := Folder];
        } else if items[p] != Folder {
          assert IsOnWay(path, p);
          return false;
        }
        n := n + 1;
      }
      GrownFully(old(items), items, path);
      return true;
    }

    // `write_bytes`: a directory cannot be written to.
    method WriteFile(path: Path, content: string) returns (done: bool)
      modifies this
      ensures done <==> CanWrite(old(items), path)
      ensures items == if done then old(items)[Resolve(path) := File(content)] else old(items)
    {
      done := CanWrite(items, path);
      if done {
        items := items[Resolve(path) := File(content)];
      }
    }
  }

  predicate CanWrite(items: Tree, path: Path) {
    path != [] && path[|path| - 1] != UP && (Resolve(path) in items ==> items[Resolve(path)].File?)
  }

  // Everything new was made by one of the members, and nothing that was there
  // before outside the destination has changed.
  ghost predicate Accounted(before: Tree, after: Tree, destination: Path, members: seq<Member>) {
    && (forall p <- before :: p in after && (destination <= p || after[p] == before[p]))
    && (forall p <- after :: p in before || exists m <- members :: Makes(destination, m, p))
  }

  ghost predicate AllMade(after: Tree, destination: Path, members: seq<Member>) {
    forall m, p :: m in members && Makes(destination, m, p) ==> p in after
  }

  // ---- Archives that a plain tree can hold ----

  // Relative plain names, and no file on the way to another member.
  ghost predicate IsFaithful(members: seq<Member>) {
    && (forall m <- members :: !m.absolute && IsPlain(m.parts) && !m.kind.Special?)
    && (forall m <- members :: m.kind.RegularFile? ==> m.parts != [])
    && (forall i, j :: 0 <= i < |members| && 0 <= j < |members| && i != j && members[i].kind.RegularFile?
          ==> !(members[i].parts <= members[j].parts))
  }

  // The destination is a fresh directory below existing ones.
  ghost predicate IsFresh(destination: Path, before: Tree) {
    && IsPlain(destination) && destination != []
    && (forall p :: p < destination ==> p in before && before[p] == Folder)
    && (forall p <- before :: !(destination <= p))
  }

  // What the archive says about a path that leads to `member`.
  function Listed(destination: Path, member: Member, p: Path): Item {
    if member.kind.RegularFile? && p == destination + member.parts then File(member.kind.content) else Folder
  }

  ghost predicate Lists(destination: Path, member: Member, p: Path) {
    destination <= p <= destination + member.parts
  }

  // The tree below `destination` is what `members` list, and no more.
  ghost predicate Mirrors(before: Tree, after: Tree, destination: Path, members: seq<Member>) {
    && (forall p <- before :: p in after && after[p] == before[p])
    && destination in after && after[destination] == Folder
    && (forall p <- after :: p in before || p == destination || exists m <- members :: Lists(destination, m, p))
    && (forall m, p :: m in members && Lists(destination, m, p) ==> p in after && after[p] == Listed(destination, m, p))
  }

  // On a plain path the directories on the way are its prefixes.
  lemma OnWayPlain(path: Path, p: Path)
    requires IsPlain(path)
    ensures IsOnWay(path, p) <==> p <= path
  {
    if p <= path {
      assert path[..|p|] == p;
      ResolvePlain(p);
    }
    if n :| 0 <= n <= |path| && Resolve(path[..n]) == p {
      assert IsPlain(path[..n]);
      ResolvePlain(path[..n]);
    }
  }

  lemma PlainTarget(destination: Path, member: Member)
    requires IsPlain(destination) && IsPlain(member.parts)  && !member.absolute
    ensures IsPlain(Target(destination, member)) && Resolve(Target(destination, member)) == Target(destination, member)
    ensures IsPlain(DirectoryPath(destination, member))
      && DirectoryPath(destination, member) <= Target(destination, member)
  {
    ResolvePlain(Target(destination, member));
  }

  lemma SameStart(start: Path, a: Path, b: Path)
    requires start + a <= start + b
    ensures a <= b
  {
    assert forall i :: 0 <= i < |a| ==> a[i] == (start + a)[|start| + i] && b[i] == (start + b)[|start| + i];
  }

  lemma MemberOf(members: seq<Member>, k: nat)
    requires IsFaithful(members) && k < |members|
    ensures !members[k].absolute && IsPlain(members[k].parts) && !members[k].kind.Special?
    ensures members[k].kind.RegularFile? ==> members[k].parts != []
  {
    assert members[k] in members;
  }

  lemma NoClash(members: seq<Member>, k: nat, m: Member)
    requires IsFaithful(members) && k < |members| && m in members[..k]
    ensures m.kind.RegularFile? ==> !(m.parts <= members[k].parts)
    ensures members[k].kind.RegularFile? ==> !(members[k].parts <= m.parts)
  {
    var j :| 0 <= j < k && members[j] == m;
  }

  // What lies on the way to the next member so far is what that member lists.
  lemma WayIsClear(before: Tree, now: Tree, destination: Path, members: seq<Member>, k: nat, p: Path)
    requires IsFaithful(members) && IsFresh(destination, before) && k < |members|
    requires Mirrors(before, now, destination, members[..k])
    requires p <= Target(destination, members[k]) && p in now
    ensures now[p] == Folder
    ensures p == Target(destination, members[k]) ==> members[k].kind.Directory?
  {
    MemberOf(members, k);
    var parts := members[k].parts;
    if |p| < |destination| {
      assert p < destination;
    } else if p != destination {
      assert destination <= p && p !in before;
      var m :| m in members[..k] && Lists(destination, m, p);
      NoClash(members, k, m);
      assert now[p] == Listed(destination, m, p);
      if p == destination + m.parts { SameStart(destination, m.parts, parts); }
      if p == destination + parts { SameStart(destination, parts, m.parts); }
    }
  }

  // The state after the directories of `member` are there and it is written.
  ghost predicate IsWritten(now: Tree, made: Tree, after: Tree, destination: Path, member: Member) {
    var way := DirectoryPath(destination, member);
    && Grown(now, made, way)
    && (forall p :: IsOnWay(way, p) ==> p in made && made[p] == Folder)
    && after == if member.kind.RegularFile?
                then made[Resolve(Target(destination, member)) := File(member.kind.content)] else made
  }

  lemma OwnEntries(now: Tree, made: Tree, after: Tree, destination: Path, member: Member, p: Path)
    requires IsPlain(destination) && !member.absolute && IsPlain(member.parts) && !member.kind.Special?
    requires member.kind.RegularFile? ==> member.parts != []
    requires IsWritten(now, made, after, destination, member) && Lists(destination, member, p)
    ensures p in after && after[p] == Listed(destination, member, p)
  {
    PlainTarget(destination, member);
    OnWayPlain(DirectoryPath(destination, member), p);
    var target := Target(destination, member);
    assert |p| < |target| ==> p <= target[..|target| - 1];
    assert |p| == |target| ==> p == target;
  }

  lemma OtherEntries(now: Tree, made: Tree, after: Tree, destination: Path, member: Member, p: Path)
    requires IsPlain(destination) && !member.absolute && IsPlain(member.parts)
    requires IsWritten(now, made, after, destination, member)
    requires p in now && (member.kind.RegularFile? ==> p != destination + member.parts)
    ensures p in after && after[p] == now[p]
  {
    PlainTarget(destination, member);
  }

  lemma NewEntries(before: Tree, now: Tree, made: Tree, after: Tree, destination: Path, member: Member, p: Path)
    requires IsFresh(destination, before) && !member.absolute && IsPlain(member.parts)
    requires IsWritten(now, made, after, destination, member)
    requires p in after && p !in now && p !in before
    ensures Lists(destination, member, p)
  {
    PlainTarget(destination, member);
    OnWayPlain(DirectoryPath(destination, member), p);
    assert p < destination ==> p in before;
  }

  lemma AfterMember(before: Tree, now: Tree, made: Tree, after: Tree, destination: Path, members: seq<Member>, k: nat)
    requires IsFaithful(members) && IsFresh(destination, before) && k < |members|
    requires Mirrors(before, now, destination, members[..k])
    requires IsWritten(now, made, after, destination, members[k])
    ensures Mirrors(before, after, destination, members[..k + 1])
  {
    var member, some := members[k], members[..k + 1];
    MemberOf(members, k);
    assert forall m :: m in some <==> m in members[..k] || m == member;
    forall m, p | m in some && Lists(destination, m, p) ensures p in after && after[p] == Listed(destination, m, p) {
      if m == member { OwnEntries(now, made, after, destination, member, p); }
      else { EarlierEntries(before, now, made, after, destination, members, k, m, p); }
    }
    forall p | p in after && p !in before && p != destination ensures exists m <- some :: Lists(destination, m, p) {
      if p in now {
        var m :| m in members[..k] && Lists(destination, m, p);
        assert m in some;
      } else {
        NewEntries(before, now, made, after, destination, member, p);
      }
    }
    forall p | p in before || p == destination ensures p in after && after[p] == now[p] {
      assert p == destination + member.parts ==> member.parts == [];
      OtherEntries(now, made, after, destination, member, p);
    }
  }

  lemma EarlierEntries(
    before: Tree, now: Tree, made: Tree, after: Tree, destination: Path, members: seq<Member>,
    k: nat, m: Member, p: Path)
    requires IsFaithful(members) && IsFresh(destination, before) && k < |members| && m in members[..k]
    requires Mirrors(before, now, destination, members[..k])
    requires IsWritten(now, made, after, destination, members[k]) && Lists(destination, m, p)
    ensures p in after && after[p] == Listed(destination, m, p)
  {
    var member := members[k];
    MemberOf(members, k);
    NoClash(members, k, m);
    if p == destination + member.parts { SameStart(destination, member.parts, m.parts); }
    OtherEntries(now, made, after, destination, member, p);
  }

  // For a faithful archive neither the directories nor the write can fail.
  lemma NothingBlocks(before: Tree, now: Tree, destination: Path, members: seq<Member>, k: nat)
    requires IsFaithful(members) && IsFresh(destination, before) && k < |members|
    requires Mirrors(before, now, destination, members[..k])
    ensures StepOf(destination)(now, members[k]).Some?
  {
    var member := members[k];
    MemberOf(members, k);
    PlainTarget(destination, member);
    var target, way := Target(destination, member), DirectoryPath(destination, member);
    forall p | IsOnWay(way, p) && p in now ensures now[p] == Folder {
      OnWayPlain(way, p);
      WayIsClear(before, now, destination, members, k, p);
    }
    if member.kind.RegularFile? {
      assert target[|target| - 1] in target;
      OnWayPlain(way, target);
      if target in now { WayIsClear(before, now, destination, members, k, target); }
      assert CanWrite(WithFolders(now, way), target);
    }
  }

  lemma NewIsMade(now: Tree, made: Tree, after: Tree, destination: Path, member: Member, p: Path)
    requires Grown(now, made, DirectoryPath(destination, member))
    requires after == made || IsWritten(now, made, after, destination, member)
    requires p in after && p !in now
    ensures Makes(destination, member, p)
  {
  }

  lemma OldIsKept(now: Tree, made: Tree, after: Tree, destination: Path, member: Member, p: Path)
    requires IsSafeMember(destination, member) && Grown(now, made, DirectoryPath(destination, member))
    requires after == made || IsWritten(now, made, after, destination, member)
    requires p in now
    ensures p in after && (destination <= p || after[p] == now[p])
  {
  }

  lemma Account(before: Tree, now: Tree, made: Tree, after: Tree, destination: Path, members: seq<Member>, k: nat)
    requires k < |members| && IsSafeMember(destination, members[k])
    requires Accounted(before, now, destination, members[..k])
    requires Grown(now, made, DirectoryPath(destination, members[k]))
    requires after == made || IsWritten(now, made, after, destination, members[k])
    ensures Accounted(before, after, destination, members[..k + 1])
  {
    var member, some := members[k], members[..k + 1];
    assert some == members[..k] + [member];
    forall p | p in before ensures p in after && (destination <= p || after[p] == before[p]) {
      OldIsKept(now, made, after, destination, member, p);
    }
    forall p | p in after && p !in before ensures exists m <- some :: Makes(destination, m, p) {
      if p in now {
        var m :| m in members[..k] && Makes(destination, m, p);
        assert m in some;
      } else {
        NewIsMade(now, made, after, destination, member, p);
        assert member in some;
      }
    }
  }

  lemma MakeOneMore(now: Tree, made: Tree, after: Tree, destination: Path, members: seq<Member>, k: nat)
    requires k < |members| && AllMade(now, destination, members[..k])
    requires IsWritten(now, made, after, destination, members[k])
    ensures AllMade(after, destination, members[..k + 1])
  {
    assert forall m :: m in members[..k + 1] <==> m in members[..k] || m == members[k];
  }

  // What writing one member makes of the tree; None when `mkdir` meets a file or
  // `write_bytes` a directory.
  ghost function Step(now: Tree, destination: Path, member: Member): Option<Tree> {
    var made, target := WithFolders(now, DirectoryPath(destination, member)), Target(destination, member);
    if IsBlocked(now, DirectoryPath(destination, member)) then None
    else if !member.kind.RegularFile? then Some(made)
    else if CanWrite(made, target) then Some(made[Resolve(target) := File(member.kind.content)])
    else None
  }

  type Writer = (Tree, Member) -> Option<Tree>

  ghost function StepOf(destination: Path): Writer {
    (now: Tree, member: Member) => Step(now, destination, member)
  }

  // The members written one after the other, up to the first that fails.
  ghost function Fold(step: Writer, before: Tree, members: seq<Member>): Option<Tree> {
    if members == [] then Some(before)
    else
      var last := |members| - 1;
      match Fold(step, before, members[..last])
      case None => None
      case Some(now) => step(now, members[last])
  }

  lemma FoldNext(step: Writer, before: Tree, members: seq<Member>, k: nat)
    requires k < |members| && Fold(step, before, members[..k]).Some?
    ensures Fold(step, before, members[..k + 1]) == step(Fold(step, before, members[..k]).value, members[k])
  {
    assert members[..k + 1][..k] == members[..k];
  }

  // Member k is the first that cannot be written.
  ghost predicate StopsAt(step: Writer, before: Tree, members: seq<Member>, k: nat)
    requires k < |members|
  {
    var reached := Fold(step, before, members[..k]);
    reached.Some? && step(reached.value, members[k]).None?
  }

  ghost predicate StopsSomewhere(step: Writer, before: Tree, members: seq<Member>) {
    exists k :: 0 <= k < |members| && StopsAt(step, before, members, k)
  }

  lemma {:induction false} StopsForGood(step: Writer, before: Tree, members: seq<Member>)
    ensures StopsSomewhere(step, before, members) <==> Fold(step, before, members) == None
    decreases |members|
  {
    if members != [] {
      var last := |members| - 1;
      var rest := members[..last];
      StopsForGood(step, before, rest);
      forall k | 0 <= k < last ensures StopsAt(step, before, members, k) <==> StopsAt(step, before, rest, k) {
        assert rest[..k] == members[..k];
      }
      if Fold(step, before, rest).None? {
        var k :| 0 <= k < last && StopsAt(step, before, rest, k);
        assert StopsAt(step, before, members, k);
      } else {
        assert StopsAt(step, before, members, last) <==> Fold(step, before, members) == None;
      }
    }
  }

  // The tree after all members, if none of them fails.
  ghost function After(before: Tree, destination: Path, members: seq<Member>): Option<Tree> {
    Fold(StepOf(destination), before, members)
  }

  // ---- The two passes ----

  // `destination.mkdir()`: the parent is a directory and nothing is there yet.
  predicate CanCreate(items: Tree, destination: Path) {
    && destination != [] && destination !in items
    && destination[..|destination| - 1] in items && items[destination[..|destination| - 1]] == Folder
  }

  // One iteration of the second pass; `made` is the tree between its two steps.
  method WriteMember(disk: Disk, destination: Path, member: Member) returns (done: bool, ghost made: Tree)
    modifies disk
    ensures StepOf(destination)(old(disk.items), member) == if done then Some(disk.items) else None
    ensures Grown(old(disk.items), made, DirectoryPath(destination, member))
    ensures if done then IsWritten(old(disk.items), made, disk.items, destination, member) else disk.items == made
  {
    done := disk.MakeDirectories(DirectoryPath(destination, member));
    made := disk.items;
    if done && member.kind.RegularFile? {
      done := disk.WriteFile(Target(destination, member), member.kind.content);
    }
  }

  // The second pass.
  method WriteMembers(disk: Disk, destination: Path, members: seq<Member>, ghost initial: Tree) returns (done: bool)
    requires forall m <- members :: IsSafeMember(destination, m)
    requires disk.items == initial[destination := Folder]
    modifies disk
    ensures Accounted(old(disk.items), disk.items, destination, members)
    ensures done ==> AllMade(disk.items, destination, members)
    ensures done ==> Fold(StepOf(destination), old(disk.items), members) == Some(disk.items)
    ensures !done ==> StopsSomewhere(StepOf(destination), old(disk.items), members)
    ensures IsFaithful(members) && IsFresh(destination, initial) ==>
      done && Mirrors(initial, disk.items, destination, members)
  {
    ghost var before, step := disk.items, StepOf(destination);
    for k := 0 to |members|
      invariant Accounted(before, disk.items, destination, members[..k])
      invariant AllMade(disk.items, destination, members[..k])
      invariant Fold(step, before, members[..k]) == Some(disk.items)
      invariant IsFaithful(members) && IsFresh(destination, initial) ==>
        Mirrors(initial, disk.items, destination, members[..k])
    {
      ghost var now := disk.items;
      var written, made := WriteMember(disk, destination, members[k]);
      if IsFaithful(members) && IsFresh(destination, initial) {
        NothingBlocks(initial, now, destination, members, k);
      }
      Account(before, now, made, disk.items, destination, members, k);
      if !written {
        assert forall m :: m in members[..k + 1] ==> m in members;
        assert StopsAt(step, before, members, k);
        return false;
      }
      FoldNext(step, before, members, k);
      MakeOneMore(now, made, disk.items, destination, members, k);
      if IsFaithful(members) && IsFresh(destination, initial) {
        AfterMember(initial, now, made, disk.items, destination, members, k);
      }
    }
    assert members[..|members|] == members;
    return true;
  }

  method Extract(disk: Disk, destination: Path, members: seq<Member>) returns (outcome: Outcome)
    requires IsPlain(destination)
    modifies disk
    ensures outcome.NotCreated? <==> !CanCreate(old(disk.items), destination)
    ensures outcome.NotCreated? ==> disk.items == old(disk.items)
    ensures outcome.UnsafeArchive? <==> !outcome.NotCreated? && exists m <- members :: !IsSafeMember(destination, m)
    ensures outcome.UnsafeArchive? ==> disk.items == old(disk.items)[destination := Folder]
    ensures !outcome.NotCreated? ==> Accounted(old(disk.items)[destination := Folder], disk.items, destination, members)
    ensures outcome.Extracted? ==> AllMade(disk.items, destination, members)
    ensures outcome.Extracted? ==>
      After(old(disk.items)[destination := Folder], destination, members) == Some(disk.items)
    ensures outcome.WriteFailed? ==>
      StopsSomewhere(StepOf(destination), old(disk.items)[destination := Folder], members)
    ensures IsFaithful(members) && IsFresh(destination, old(disk.items)) ==>
      outcome.Extracted? && Mirrors(old(disk.items), disk.items, destination, members)
  {
    ghost var initial := disk.items;
    if !CanCreate(disk.items, destination) {
      return NotCreated;
    }
    disk.items := disk.items[destination := Folder];
    ghost var before := disk.items;
    for k := 0 to |members|
      invariant disk.items == before
      invariant forall m <- members[..k] :: IsSafeMember(destination, m)
    {
      if !IsSafeMember(destination, members[k]) {
        assert members[k] in members;
        if IsFaithful(members) && IsPlain(destination) { PlainTarget(destination, members[k]); }
        return UnsafeArchive;
      }
    }
    assert members[..|members|] == members;
    var done := WriteMembers(disk, destination, members, initial);
    return if done then Extracted else WriteFailed;
  }

  // ---- What stays inside the destination ----

  // Every directory on the way to `member` is inside, or was there before.
  ghost predicate StaysInside(before: Tree, destination: Path, member: Member) {
    forall p :: IsOnWay(DirectoryPath(destination, member), p) ==> destination <= p || p in before
  }

  // The check of the first pass looks at where a member ends up, not at the
  // directories on the way: a completed extraction creates nothing outside the
  // destination exactly when no member leads through a missing outside directory.
  lemma CreatesOnlyInside(before: Tree, after: Tree, destination: Path, members: seq<Member>)
    requires forall m <- members :: IsSafeMember(destination, m)
    requires Accounted(before, after, destination, members) && AllMade(after, destination, members)
    ensures (forall p :: p in after && p !in before ==> destination <= p)
       <==> (forall m <- members :: StaysInside(before, destination, m))
  {
    if forall p :: p in after && p !in before ==> destination <= p {
      forall m, p | m in members && IsOnWay(DirectoryPath(destination, m), p) ensures destination <= p || p in before {
        assert Makes(destination, m, p);
      }
    } else {
      var p :| p in after && p !in before && !(destination <= p);
      var m :| m in members && Makes(destination, m, p);
      assert !StaysInside(before, destination, m);
    }
  }

  // Names without ".." stay inside.
  lemma PlainStaysInside(before: Tree, destination: Path, member: Member)
    requires IsFresh(destination, before) && !member.absolute && IsPlain(member.parts)
    ensures StaysInside(before[destination := Folder], destination, member)
  {
    PlainTarget(destination, member);
    forall p | IsOnWay(DirectoryPath(destination, member), p)
      ensures destination <= p || p in before[destination := Folder]
    {
      OnWayPlain(DirectoryPath(destination, member), p);
      assert |p| < |destination| ==> p < destination;
    }
  }

  lemma ResolveNext(path: Path, name: string)
    ensures Resolve(path + [name]) ==
      if name != UP then Resolve(path) + [name]
      else if Resolve(path) == [] then [] else Resolve(path)[..|Resolve(path)| - 1]
  {
    assert (path + [name])[..|path|] == path;
  }

  function Detour(spare: string, site: string, page: string): Path {
    [UP, spare, UP, site, page]
  }

  lemma DetourResolves(parent: Path, site: string, spare: string, page: string)
    requires IsPlain(parent) && site != UP && spare != UP && page != UP
    ensures Resolve(parent + [site] + [UP] + [spare]) == parent + [spare]
    ensures Resolve(parent + [site] + [UP] + [spare] + [UP] + [site] + [page]) == parent + [site] + [page]
  {
    ResolvePlain(parent);
    ResolveNext(parent, site);
    ResolveNext(parent + [site], UP);
    ResolveNext(parent + [site] + [UP], spare);
    ResolveNext(parent + [site] + [UP] + [spare], UP);
    ResolveNext(parent + [site] + [UP] + [spare] + [UP], site);
    ResolveNext(parent + [site] + [UP] + [spare] + [UP] + [site], page);
  }

  // A name that leaves the destination and comes back passes the check, yet
  // makes a directory beside the destination.
  lemma DetourIsSafeButOutside(
    before: Tree, parent: Path, site: string, spare: string, page: string, content: string, member: Member)
    requires IsPlain(parent) && site != UP && spare != UP && page != UP && spare != site
    requires parent + [spare] !in before
    requires member == Member(false, Detour(spare, site, page), RegularFile(content))
    ensures IsSafeMember(parent + [site], member) && !StaysInside(before, parent + [site], member)
    ensures Makes(parent + [site], member, parent + [spare])
    ensures Resolve(Target(parent + [site], member)) == parent + [site] + [page]
  {
    var destination := parent + [site];
    var beside := destination + [UP] + [spare];
    var back := beside + [UP] + [site];
    DetourResolves(parent, site, spare, page);
    assert Target(destination, member) == back + [page];
    assert DirectoryPath(destination, member) == back && back[..|beside|] == beside;
    assert IsOnWay(back, parent + [spare]);
    Siblings(parent, site, spare);
  }

  lemma OnWayNext(path: Path, name: string, p: Path)
    requires IsOnWay(path + [name], p)
    ensures IsOnWay(path, p) || p == Resolve(path + [name])
  {
    var longer := path + [name];
    var n :| 0 <= n <= |longer| && Resolve(longer[..n]) == p;
    if n <= |path| {
      assert longer[..n] == path[..n];
    } else {
      assert longer[..n] == longer;
    }
  }

  // On the way of the detour there are only directories above the destination, the
  // destination itself and its new sibling.
  lemma DetourWay(parent: Path, site: string, spare: string, p: Path)
    requires IsPlain(parent) && site != UP && spare != UP
    requires IsOnWay(parent + [site] + [UP] + [spare] + [UP] + [site], p)
    ensures p <= parent || p == parent + [site] || p == parent + [spare]
  {
    var a := parent + [site];
    var b := a + [UP];
    var c := b + [spare];
    var d := c + [UP];
    ResolvePlain(parent);
    ResolveNext(parent, site);
    ResolveNext(a, UP);
    ResolveNext(b, spare);
    ResolveNext(c, UP);
    ResolveNext(d, site);
    OnWayNext(d, site, p);
    if IsOnWay(d, p) { OnWayNext(c, UP, p); }
    if IsOnWay(c, p) { OnWayNext(b, spare, p); }
    if IsOnWay(b, p) { OnWayNext(a, UP, p); }
    if IsOnWay(a, p) { OnWayNext(parent, site, p); }
    if IsOnWay(parent, p) { OnWayPlain(parent, p); }
  }

  // Extracting that one member succeeds and leaves the new sibling behind.
  method ExtractDetour(disk: Disk, parent: Path, site: string, spare: string, page: string, content: string)
    returns (outcome: Outcome)
    requires IsPlain(parent) && site != UP && spare != UP && page != UP && spare != site
    requires IsFresh(parent + [site], disk.items) && parent + [spare] !in disk.items
    modifies disk
    ensures outcome.Extracted? && parent + [spare] in disk.items
  {
    var destination, member := parent + [site], Member(false, Detour(spare, site, page), RegularFile(content));
    DetourIsSafeButOutside(disk.items, parent, site, spare, page, content, member);
    DetourIsWritten(disk.items, parent, site, spare, page, content, member);
    assert destination[..|destination| - 1] == parent && parent < destination;
    ghost var before := disk.items[destination := Folder];
    outcome := Extract(disk, destination, [member]);
    StopsForGood(StepOf(destination), before, [member]);
    assert member in [member];
  }

  lemma DetourIsWritten(
    items: Tree, parent: Path, site: string, spare: string, page: string, content: string, member: Member)
    requires IsPlain(parent) && site != UP && spare != UP && page != UP && spare != site
    requires IsFresh(parent + [site], items) && parent + [spare] !in items
    requires member == Member(false, Detour(spare, site, page), RegularFile(content))
    ensures After(items[parent + [site] := Folder], parent + [site], [member]).Some?
  {
    var destination := parent + [site];
    var before, way, target := items[destination := Folder], DirectoryPath(destination, member),
      Target(destination, member);
    DetourIsSafeButOutside(items, parent, site, spare, page, content, member);
    assert way == parent + [site] + [UP] + [spare] + [UP] + [site];
    forall p | IsOnWay(way, p) ensures p != destination + [page] && (p in before ==> before[p] == Folder) {
      DetourWay(parent, site, spare, p);
      assert p <= parent ==> p < destination;
    }
    assert target[|target| - 1] == page;
    assert destination <= destination + [page];
    assert destination + [page] !in WithFolders(before, way);
    assert [member][..0] == [] && [member][0] == member;
    FoldNext(StepOf(destination), before, [member], 0);
    assert [member][..1] == [member];
  }

  lemma Siblings(parent: Path, a: string, b: string)
    requires a != b
    ensures !(parent + [a] <= parent + [b])
  {
    assert (parent + [a])[|parent|] == a && (parent + [b])[|parent|] == b;
  }
}
