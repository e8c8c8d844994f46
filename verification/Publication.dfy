// `publish` of scripts/build_documentation.py, step by step over the directory
// that holds the published site, with an I/O failure or an interruption possible
// before or after the effect of every step and another writer at work.
module Publication {
  import opened Options

  datatype Node = File(content: string) | Dir(entries: map<string, Node>)

  // The entries of `output.parent`. Everything `publish` touches is one of them
  // or lies directly inside one of them.
  type Folder = map<string, Node>

  datatype Place = Entry(name: string) | Inside(folder: string, name: string)

  function At(folder: Folder, place: Place): Option<Node> {
    match place
    case Entry(name) => if name in folder then Some(folder[name]) else None
    case Inside(outer, name) =>
      if outer in folder && folder[outer].Dir? && name in folder[outer].entries
      then Some(folder[outer].entries[name]) else None
  }

  // The directory that would hold `place` exists.
  predicate HasParent(folder: Folder, place: Place) {
    place.Inside? ==> place.folder in folder && folder[place.folder].Dir?
  }

  function With(folder: Folder, place: Place, node: Node): Folder
    requires HasParent(folder, place)
  {
    match place
    case Entry(name) => folder[name := node]
    case Inside(outer, name) => folder[outer := Dir(folder[outer].entries[name := node])]
  }

  function Without(folder: Folder, place: Place): Folder
    requires HasParent(folder, place)
  {
    match place
    case Entry(name) => folder - {name}
    case Inside(outer, name) => folder[outer := Dir(folder[outer].entries - {name})]
  }

  // POSIX rename: the target is absent, or an empty directory replaced by a
  // directory, or a file replaced by a file.
  predicate CanReplace(source: Node, target: Option<Node>) {
    match target
    case None => true
    case Some(File(_)) => source.File?
    case Some(Dir(entries)) => source.Dir? && entries == map[]
  }

  predicate CanMove(folder: Folder, source: Place, target: Place) {
    && At(folder, source).Some?
    && HasParent(folder, source) && HasParent(Without(folder, source), target)
    && CanReplace(At(folder, source).value, At(folder, target))
  }

  function Moved(folder: Folder, source: Place, target: Place): Folder
    requires CanMove(folder, source, target)
  {
    With(Without(folder, source), target, At(folder, source).value)
  }

  predicate HasDirectory(folder: Folder, place: Place) {
    At(folder, place).Some? && At(folder, place).value.Dir?
  }

  predicate IsEmptyDirectory(folder: Folder, name: string) {
    At(folder, Entry(name)) == Some(Dir(map[]))
  }

  // A site no rename can silently replace.
  predicate IsOccupied(node: Node) {
    node.Dir? && node.entries != map[]
  }

  // What the directory holds, every site seen so far at `output`, and whether
  // the other writer has acted.
  datatype State = State(folder: Folder, sites: set<Node>, interfered: bool)

  function Initial(folder: Folder, output: string): State {
    State(folder, if output in folder then {folder[output]} else {}, false)
  }

  ghost predicate HasMoved(before: State, after: State, source: Place, target: Place) {
    CanMove(before.folder, source, target) && after == before.(folder := Moved(before.folder, source, target))
  }

  // The other writer may create `output` when nothing is there.
  ghost predicate MayInterfere(before: State, after: State, output: string) {
    || after == before
    || (output !in before.folder && output in after.folder && after == Occupy(before, output, after.folder[output]))
  }

  function Occupy(before: State, output: string, node: Node): State {
    State(before.folder[output := node], if IsOccupied(node) then before.sites + {node} else before.sites, true)
  }

  // An atomic operation: the other writer may run first, then the operation has
  // its effect or not; `history` records both moments, and `faults` counts the
  // operations that could have succeeded and did not complete. In an undisturbed
  // world there are none, and nobody else writes.
  class World {
    const output: string
    const undisturbed: bool
    var state: State
    ghost var history: seq<State>
    ghost var faults: nat

    constructor (output: string, folder: Folder, undisturbed: bool)
      ensures this.output == output && this.undisturbed == undisturbed
      ensures state == Initial(folder, output) && history == [] && faults == 0
    {
      this.output, this.undisturbed := output, undisturbed;
      state, history, faults := Initial(folder, output), [], 0;
    }

    method Interfere()
      modifies this`state, this`history
      ensures MayInterfere(old(state), state, output) && (undisturbed ==> state == old(state))
      ensures history == old(history) + [state]
    {
      var node: Node := *;
      var acts: bool := *;
      if acts && !undisturbed && output !in state.folder {
        state := Occupy(state, output, node);
      }
      history := history + [state];
    }

    // Whether a step that can succeed completes, and whether it had its effect.
    // An interrupted step may have had its effect all the same.
    method Attempt(possible: bool) returns (done: bool, effect: bool)
      modifies this`faults
      ensures done ==> effect
      ensures effect ==> possible
      ensures faults == old(faults) + if possible && !done then 1 else 0
      ensures undisturbed ==> faults == old(faults)
    {
      done := *;
      effect := *;
      effect := possible && (effect || done || undisturbed);
      done := effect && (done || undisturbed);
      faults := faults + if possible && !done then 1 else 0;
    }

    // `done` is false when the call raised.
    method Exists(place: Place) returns (done: bool, found: bool)
      modifies this
      ensures MayInterfere(old(state), state, output) && history == old(history) + [state]
      ensures done ==> found == At(state.folder, place).Some?
      ensures faults == old(faults) + if done then 0 else 1
      ensures undisturbed ==> faults == old(faults) && state == old(state)
    {
      Interfere();
      found := At(state.folder, place).Some?;
      var effect;
      done, effect := Attempt(true);
    }

    method Rename(source: Place, target: Place) returns (done: bool, ghost before: State)
      modifies this
      ensures MayInterfere(old(state), before, output) && history == old(history) + [before, state]
      ensures done ==> HasMoved(before, state, source, target)
      ensures state == before || HasMoved(before, state, source, target)
      ensures faults == old(faults) + if CanMove(before.folder, source, target) && !done then 1 else 0
      ensures undisturbed ==> faults == old(faults) && before == old(state)
    {
      Interfere();
      before := state;
      var effect;
      done, effect := Attempt(CanMove(state.folder, source, target));
      if effect {
        state := state.(folder := Moved(state.folder, source, target));
      }
      history := history + [state];
    }

    // shutil.rmtree: an interrupted call leaves any remnant of the directory, and
    // anything that is not a directory is refused.
    method RemoveTree(place: Place) returns (done: bool, ghost before: State)
      modifies this
      ensures MayInterfere(old(state), before, output) && history == old(history) + [before, state]
      ensures done ==> HasDirectory(before.folder, place) && state == before.(folder := Without(before.folder, place))
      ensures || state == before
              || (HasDirectory(before.folder, place) && state == before.(folder := Without(before.folder, place)))
              || (HasDirectory(before.folder, place) && HasDirectory(state.folder, place)
                  && state == before.(folder := With(before.folder, place, At(state.folder, place).value)))
      ensures faults == old(faults) + if HasDirectory(before.folder, place) && !done then 1 else 0
      ensures undisturbed ==> faults == old(faults) && before == old(state)
    {
      Interfere();
      before := state;
      var effect;
      var rest: map<string, Node> := *;
      done, effect := Attempt(HasDirectory(state.folder, place));
      if done {
        state := state.(folder := Without(state.folder, place));
      } else if effect {
        state := state.(folder := With(state.folder, place, Dir(rest)));
      }
      history := history + [state];
    }

    // os.rmdir removes an empty directory only.
    method RemoveDirectory(name: string) returns (done: bool, ghost before: State)
      modifies this
      ensures MayInterfere(old(state), before, output) && history == old(history) + [before, state]
      ensures done ==> IsEmptyDirectory(before.folder, name) && state == before.(folder := before.folder - {name})
      ensures || state == before
              || (IsEmptyDirectory(before.folder, name) && state == before.(folder := before.folder - {name}))
      ensures faults == old(faults) + if IsEmptyDirectory(before.folder, name) && !done then 1 else 0
      ensures undisturbed ==> faults == old(faults) && before == old(state)
    {
      Interfere();
      before := state;
      var effect;
      done, effect := Attempt(IsEmptyDirectory(state.folder, name));
      if effect {
        state := state.(folder := state.folder - {name});
      }
      history := history + [state];
    }

    // tempfile.mkdtemp; `name` is the fresh name it draws.
    method MakeDirectory(name: string) returns (done: bool, ghost before: State)
      requires name !in state.folder && name != output
      modifies this
      ensures MayInterfere(old(state), before, output) && history == old(history) + [before, state]
      ensures done ==> state == before.(folder := before.folder[name := Dir(map[])])
      ensures state == before || state == before.(folder := before.folder[name := Dir(map[])])
      ensures faults == old(faults) + if done then 0 else 1
      ensures undisturbed ==> faults == old(faults) && before == old(state)
    {
      Interfere();
      before := state;
      var effect;
      done, effect := Attempt(true);
      if effect {
        state := state.(folder := state.folder[name := Dir(map[])]);
      }
      history := history + [state];
    }
  }

  // ---- What every moment must satisfy ----

  const PREVIOUS := "previous"
  const SITE := "site"

  // The names `publish` works with: the published site, the staging directory
  // that holds the new site, and the backup directory it makes.
  datatype Names = Names(output: string, work: string, backup: string) {
    ghost predicate Distinct() {
      output != work && output != backup && work != backup
    }

    function Previous(): Place { Inside(backup, PREVIOUS) }

    function Staged(): Place { Inside(work, SITE) }
  }

  ghost predicate IsPublished(names: Names, folder: Folder, site: Node) {
    At(folder, Entry(names.output)) == Some(site)
  }

  // Every site that was ever at `output` is still there or in the backup.
  ghost predicate KeepsSites(names: Names, state: State) {
    forall node <- state.sites ::
      At(state.folder, Entry(names.output)) == Some(node) || At(state.folder, names.Previous()) == Some(node)
  }

  // Nothing is lost: the new site is at `output`, or it is still staged and all
  // the sites it is to replace are kept.
  ghost predicate IsSafe(names: Names, state: State, site: Node) {
    || IsPublished(names, state.folder, site)
    || (KeepsSites(names, state) && At(state.folder, names.Staged()) == Some(site))
  }

  // What holds even after the staging directory is removed.
  ghost predicate NoSiteLost(names: Names, state: State, site: Node) {
    IsPublished(names, state.folder, site) || KeepsSites(names, state)
  }

  ghost predicate AllSafe(names: Names, history: seq<State>, site: Node) {
    forall k :: 0 <= k < |history| ==> IsSafe(names, history[k], site)
  }

  // While the staged site waits, `backup` holds nothing but `previous`, and
  // putting that back would restore the initial directory.
  ghost predicate IsPending(names: Names, initial: Folder, state: State) {
    && names.backup in state.folder && state.folder[names.backup].Dir?
    && state.folder[names.backup].entries.Keys <= {PREVIOUS}
    && state.folder - {names.backup, names.output} == initial - {names.output}
    && KeepsSites(names, state)
    && (names.output in initial ==> initial[names.output] in state.sites)
    && (At(state.folder, names.Previous()).Some? ==>
          forall node <- state.sites :: At(state.folder, names.Previous()) == Some(node) || IsOccupied(node))
    && (!state.interfered ==> Restored(names, state.folder) == initial)
    && (!state.interfered && At(state.folder, names.Previous()).Some? ==> names.output !in state.folder)
  }

  function Restored(names: Names, folder: Folder): Folder {
    match At(folder, names.Previous())
    case None => folder - {names.backup}
    case Some(node) => (folder - {names.backup})[names.output := node]
  }

  // The staged site is at `output`; only the backup is left to remove.
  ghost predicate IsSettled(names: Names, initial: Folder, state: State) {
    && names.backup in state.folder && state.folder[names.backup].Dir?
    && state.folder[names.backup].entries.Keys <= {PREVIOUS}
    && HoldsStaged(names, initial)
    && state.folder - {names.backup} == Published(names, initial)
  }

  ghost predicate HoldsStaged(names: Names, folder: Folder) {
    At(folder, names.Staged()).Some?
  }

  function Published(names: Names, initial: Folder): Folder
    requires At(initial, names.Staged()).Some?
  {
    Without(initial, names.Staged())[names.output := At(initial, names.Staged()).value]
  }

  lemma PendingIsSafe(names: Names, initial: Folder, state: State)
    requires names.Distinct() && HoldsStaged(names, initial) && IsPending(names, initial, state)
    ensures IsSafe(names, state, At(initial, names.Staged()).value)
  {
    var rest := state.folder - {names.backup, names.output};
    assert names.work in initial - {names.output};
    assert names.work in rest && rest[names.work] == state.folder[names.work];
  }

  lemma PendingIsNotSettled(names: Names, initial: Folder, state: State)
    requires names.Distinct() && HoldsStaged(names, initial) && IsPending(names, initial, state)
    ensures !IsSettled(names, initial, state)
    ensures HasParent(state.folder, names.Staged()) && At(state.folder, names.Staged()) == At(initial, names.Staged())
  {
    var rest := state.folder - {names.backup, names.output};
    assert names.work in initial - {names.output};
    assert names.work in rest && rest[names.work] == state.folder[names.work];
    if IsSettled(names, initial, state) { SettledIsPublished(names, initial, state.folder); }
  }

  lemma SiteIsKept(names: Names, initial: Folder, state: State)
    requires names.Distinct() && IsPending(names, initial, state) && names.output in initial
    ensures names.output in state.folder || At(state.folder, names.Previous()).Some?
  {
  }

  // The new site is published, and the backup holds one thing.
  ghost predicate HasBackup(names: Names, initial: Folder, folder: Folder, kept: Option<Node>) {
    && kept.Some? && HoldsStaged(names, initial)
    && folder == Published(names, initial)[names.backup := Dir(map[PREVIOUS := kept.value])]
  }

  lemma SettledBackup(names: Names, initial: Folder, state: State)
    requires IsSettled(names, initial, state) && At(state.folder, names.Previous()).Some?
    ensures HasBackup(names, initial, state.folder, At(state.folder, names.Previous()))
  {
    var kept := At(state.folder, names.Previous());
    assert state.folder[names.backup].entries == map[PREVIOUS := kept.value];
    assert state.folder == (state.folder - {names.backup})[names.backup := state.folder[names.backup]];
  }

  // What the `finally` clause leaves, from what it found.
  lemma Concluded(names: Names, initial: Folder, last: State, state: State)
    requires names.Distinct() && HoldsStaged(names, initial) && names.backup !in initial
    requires IsPending(names, initial, last) || IsSettled(names, initial, last)
    requires IsSettled(names, initial, last) || !state.interfered
    requires state.folder - {names.backup} == last.folder - {names.backup}
    requires At(state.folder, names.Previous()) == At(last.folder, names.Previous())
    requires last.interfered ==> state.interfered
    ensures IsSettled(names, initial, last) ==>
      state.folder - {names.backup} == Published(names, initial) && !HoldsStaged(names, state.folder)
    ensures IsPending(names, initial, last) && At(last.folder, names.Previous()).None?
      ==> state.folder - {names.backup} == initial
    ensures names.backup !in state.folder ==> state.folder - {names.backup} == state.folder
    ensures IsSettled(names, initial, last) && state == last && At(last.folder, names.Previous()).Some?
      ==> HasBackup(names, initial, state.folder, At(last.folder, names.Previous()))
  {
    if IsSettled(names, initial, last) {
      SettledIsPublished(names, initial, state.folder);
      if At(last.folder, names.Previous()).Some? { SettledBackup(names, initial, last); }
    }
    if IsPending(names, initial, last) { PendingIsNotSettled(names, initial, last); }
  }

  // The start, after the other writer and after the backup directory is made.
  lemma StartIsPending(names: Names, initial: Folder, state: State)
    requires names.Distinct() && HoldsStaged(names, initial) && names.backup !in initial
    requires MayInterfere(Initial(initial, names.output), state, names.output)
    ensures IsSafe(names, state, At(initial, names.Staged()).value)
    ensures IsPending(names, initial, state.(folder := state.folder[names.backup := Dir(map[])]))
  {
    assert state.folder - {names.output} == initial - {names.output};
    assert names.work in initial - {names.output};
    var made := state.folder[names.backup := Dir(map[])];
    assert made - {names.backup} == state.folder;
    assert made - {names.backup, names.output} == state.folder - {names.output};
  }

  lemma SettledIsPublished(names: Names, initial: Folder, folder: Folder)
    requires names.Distinct() && HoldsStaged(names, initial)
    requires folder - {names.backup} == Published(names, initial)
    ensures At(folder, Entry(names.output)) == At(initial, names.Staged())
    ensures At(folder, names.Staged()).None?
  {
    var settled := folder - {names.backup};
    assert names.output in settled && settled[names.output] == folder[names.output];
    assert names.work in settled && settled[names.work] == folder[names.work];
  }

  lemma InterferenceIsHarmless(names: Names, initial: Folder, before: State, after: State)
    requires names.Distinct() && HoldsStaged(names, initial) && MayInterfere(before, after, names.output)
    ensures IsPending(names, initial, before) ==> IsPending(names, initial, after)
    ensures IsSettled(names, initial, before) ==> after == before
    ensures IsPending(names, initial, before) || IsSettled(names, initial, before)
      ==> IsSafe(names, after, At(initial, names.Staged()).value)
  {
    if IsSettled(names, initial, before) {
      SettledIsPublished(names, initial, before.folder);
    }
    if after != before {
      assert At(after.folder, names.Previous()) == At(before.folder, names.Previous());
      assert At(after.folder, Entry(names.output)) == Some(after.folder[names.output]);
    }
    if IsPending(names, initial, after) {
      PendingIsSafe(names, initial, after);
    }
  }

  // An exception leaves the backup directory unmade, or comes after a `try` clause
  // that completed or not, and clauses that handle it and complete or not.
  datatype Exit = Returned | NotStarted | Raised(replaced: bool, handled: bool)

  lemma MovedAside(names: Names, initial: Folder, before: State, after: State)
    requires names.Distinct() && HoldsStaged(names, initial)
    requires IsPending(names, initial, before) && At(before.folder, names.Previous()).None?
    requires HasMoved(before, after, Entry(names.output), names.Previous())
    ensures IsPending(names, initial, after) && IsSafe(names, after, At(initial, names.Staged()).value)
  {
    assert after.folder - {names.backup, names.output} == before.folder - {names.backup, names.output};
    assert Restored(names, after.folder) == before.folder - {names.backup};
    PendingIsSafe(names, initial, after);
  }

  lemma PutBack(names: Names, initial: Folder, before: State, after: State)
    requires names.Distinct() && HoldsStaged(names, initial) && IsPending(names, initial, before)
    requires HasMoved(before, after, names.Previous(), Entry(names.output))
    ensures IsPending(names, initial, after) && At(after.folder, names.Previous()).None?
    ensures IsSafe(names, after, At(initial, names.Staged()).value)
  {
    assert after.folder - {names.backup, names.output} == before.folder - {names.backup, names.output};
    assert after.folder - {names.backup} == Restored(names, before.folder);
    PendingIsSafe(names, initial, after);
  }

  lemma PutInPlace(names: Names, initial: Folder, before: State, after: State)
    requires names.Distinct() && IsPending(names, initial, before) && HoldsStaged(names, initial)
    requires names.backup !in initial
    requires HasMoved(before, after, names.Staged(), Entry(names.output))
    ensures IsSettled(names, initial, after)
    ensures !after.interfered && names.output !in before.folder
      ==> At(after.folder, names.Previous()) == At(initial, Entry(names.output))
  {
    var rest := before.folder - {names.backup, names.output};
    assert names.work in rest && rest[names.work] == initial[names.work];
    assert forall name :: name in rest <==> name in initial && name != names.output;
    assert forall name :: name in rest ==> rest[name] == before.folder[name] && rest[name] == initial[name];
    assert after.folder - {names.backup} == Published(names, initial);
  }

  ghost predicate EndsWith(history: seq<State>, state: State) {
    history != [] && history[|history| - 1] == state
  }

  // The history so far is safe, and the present state fits one of the two phases.
  ghost predicate InPhase(names: Names, initial: Folder, world: World)
    reads world
  {
    && world.output == names.output
    && HoldsStaged(names, initial)
    && AllSafe(names, world.history, At(initial, names.Staged()).value) && EndsWith(world.history, world.state)
    && (IsPending(names, initial, world.state) || IsSettled(names, initial, world.state))
  }

  ghost predicate IsStart(names: Names, world: World)
    reads world
  {
    && names.Distinct() && names.output == world.output
    && world.history == [] && world.state == Initial(world.state.folder, names.output)
    && names.backup !in world.state.folder
    && HoldsStaged(names, world.state.folder) && At(world.state.folder, names.Staged()).value.Dir?
  }

  // What no step gives up: faults add up and interference is not forgotten.
  twostate predicate Progresses(world: World)
    reads world
  {
    && old(world.faults) <= world.faults
    && (old(world.state.interfered) ==> world.state.interfered)
    && (world.undisturbed ==> world.faults == old(world.faults))
    && (world.undisturbed ==> world.state.interfered == old(world.state.interfered))
  }

  // The first half of the `try` clause: move the published site aside, if any.
  method MoveAside(world: World, names: Names, ghost initial: Folder) returns (ok: bool)
    requires names.Distinct() && InPhase(names, initial, world) && IsPending(names, initial, world.state)
    requires At(world.state.folder, names.Previous()).None?
    modifies world
    ensures InPhase(names, initial, world) && IsPending(names, initial, world.state) && Progresses(world)
    ensures world.faults == old(world.faults) + if ok then 0 else 1
    ensures ok && !world.state.interfered ==> names.output !in world.state.folder
  {
    ghost var start := world.state;
    var occupied;
    ok, occupied := world.Exists(Entry(names.output));
    InterferenceIsHarmless(names, initial, start, world.state);
    if ok && occupied {
      ghost var before;
      start := world.state;
      ok, before := world.Rename(Entry(names.output), names.Previous());
      InterferenceIsHarmless(names, initial, start, before);
      if world.state != before { MovedAside(names, initial, before, world.state); }
    }
  }

  // The `try` clause: then move the staged site into place.
  method Replace(world: World, names: Names, ghost initial: Folder) returns (ok: bool)
    requires names.Distinct() && names.backup !in initial
    requires InPhase(names, initial, world) && IsPending(names, initial, world.state)
    requires At(world.state.folder, names.Previous()).None?
    modifies world
    ensures InPhase(names, initial, world) && Progresses(world)
    ensures ok ==> IsSettled(names, initial, world.state) && world.faults == old(world.faults)
    ensures world.faults <= old(world.faults) + 1
    ensures !ok && world.faults == old(world.faults) ==> world.state.interfered && names.output in world.state.folder
    ensures IsSettled(names, initial, world.state) && !world.state.interfered
      ==> At(world.state.folder, names.Previous()) == At(initial, Entry(names.output))
  {
    ok := MoveAside(world, names, initial);
    PendingIsNotSettled(names, initial, world.state);
    if ok {
      ghost var start, before := world.state, world.state;
      ok, before := world.Rename(names.Staged(), Entry(names.output));
      InterferenceIsHarmless(names, initial, start, before);
      PendingIsNotSettled(names, initial, before);
      if world.state != before { PutInPlace(names, initial, before, world.state); }
    }
  }

  // The `except` clause: put the previous site back unless something is there.
  method Unwind(world: World, names: Names, ghost initial: Folder) returns (ok: bool)
    requires names.Distinct() && InPhase(names, initial, world)
    modifies world
    ensures InPhase(names, initial, world) && Progresses(world)
    ensures names.output in old(world.state.folder) ==> world.state == old(world.state)
    ensures old(IsSettled(names, initial, world.state)) ==> IsSettled(names, initial, world.state)
    ensures old(IsPending(names, initial, world.state)) ==> IsPending(names, initial, world.state)
    ensures ok ==> world.faults == old(world.faults)
    ensures world.faults == old(world.faults) && !ok ==> world.state.interfered
    ensures world.faults == old(world.faults) && IsPending(names, initial, world.state)
      ==> names.output in world.state.folder || At(world.state.folder, names.Previous()).None?
    ensures ok && !world.state.interfered && IsPending(names, initial, world.state)
      ==> At(world.state.folder, names.Previous()).None?
  {
    ghost var start := world.state;
    var backedUp, taken;
    ok, backedUp := world.Exists(names.Previous());
    InterferenceIsHarmless(names, initial, start, world.state);
    if IsSettled(names, initial, world.state) {
      SettledIsPublished(names, initial, world.state.folder);
    }
    if !ok || !backedUp {
      return;
    }
    start := world.state;
    ok, taken := world.Exists(Entry(names.output));
    InterferenceIsHarmless(names, initial, start, world.state);
    if !ok || taken {
      return;
    }
    start := world.state;
    ghost var before;
    ok, before := world.Rename(names.Previous(), Entry(names.output));
    InterferenceIsHarmless(names, initial, start, before);
    if world.state != before { PutBack(names, initial, before, world.state); }
  }

  // The `else` clause: the staged site is in place, so the backup may go. Only a
  // directory can: `rmtree` refuses a file.
  method Discard(world: World, names: Names, ghost initial: Folder) returns (ok: bool)
    requires names.Distinct() && InPhase(names, initial, world) && IsSettled(names, initial, world.state)
    modifies world
    ensures InPhase(names, initial, world) && IsSettled(names, initial, world.state) && Progresses(world)
    ensures world.state.interfered == old(world.state.interfered)
    ensures ok ==> At(world.state.folder, names.Previous()).None? && world.faults == old(world.faults)
    ensures !ok && world.faults == old(world.faults) ==> world.state == old(world.state)
    ensures world.faults == old(world.faults) ==> (ok <==> CanDiscard(old(At(world.state.folder, names.Previous()))))
  {
    ghost var start := world.state;
    SettledIsPublished(names, initial, start.folder);
    var backedUp;
    ok, backedUp := world.Exists(names.Previous());
    InterferenceIsHarmless(names, initial, start, world.state);
    if ok && backedUp {
      ghost var before;
      start := world.state;
      ok, before := world.RemoveTree(names.Previous());
      InterferenceIsHarmless(names, initial, start, before);
      assert world.state.folder - {names.backup} == before.folder - {names.backup};
      SettledIsPublished(names, initial, world.state.folder);
    }
  }

  // Nothing is at a place, or a directory, which `rmtree` accepts.
  predicate CanDiscard(node: Option<Node>) {
    node.Some? ==> node.value.Dir?
  }

  lemma StagingIsThere(names: Names, initial: Folder, state: State)
    requires names.Distinct() && HoldsStaged(names, initial)
    requires IsPending(names, initial, state) || IsSettled(names, initial, state)
    ensures HasDirectory(state.folder, Entry(names.work))
  {
    if IsPending(names, initial, state) {
      PendingIsNotSettled(names, initial, state);
    } else {
      var settled := state.folder - {names.backup};
      assert names.work in settled && settled[names.work] == state.folder[names.work];
    }
  }

  // The `finally` clause: the backup directory goes when it is empty.
  method CleanUp(world: World, names: Names, ghost initial: Folder) returns (ok: bool)
    requires names.Distinct() && InPhase(names, initial, world)
    modifies world
    ensures world.output == names.output && EndsWith(world.history, world.state) && Progresses(world)
    ensures AllSafe(names, world.history, At(initial, names.Staged()).value)
    ensures ok <==> world.faults == old(world.faults)
    ensures ok ==> (names.backup in world.state.folder <==> At(world.state.folder, names.Previous()).Some?)
    ensures At(world.state.folder, names.Previous()) == old(At(world.state.folder, names.Previous()))
    ensures names.output in old(world.state.folder) || !world.state.interfered
      ==> world.state.folder - {names.backup} == old(world.state.folder) - {names.backup}
    ensures names.output in old(world.state.folder) ==>
      names.output in world.state.folder && world.state.interfered == old(world.state.interfered)
    ensures names.output in old(world.state.folder) && old(At(world.state.folder, names.Previous())).Some?
      ==> world.state == old(world.state)
    ensures HasDirectory(world.state.folder, Entry(names.work))
  {
    ghost var start := world.state;
    var backedUp;
    ok, backedUp := world.Exists(names.Previous());
    InterferenceIsHarmless(names, initial, start, world.state);
    StagingIsThere(names, initial, world.state);
    if ok && !backedUp {
      ghost var before;
      start := world.state;
      ok, before := world.RemoveDirectory(names.backup);
      InterferenceIsHarmless(names, initial, start, before);
      assert before.folder[names.backup] == start.folder[names.backup];
      assert world.state.folder - {names.backup} == before.folder - {names.backup};
    }
  }

  // No failure and no other writer.
  twostate predicate WasCalm(world: World)
    reads world
  {
    world.faults == old(world.faults) && !world.state.interfered
  }

  // The backup directory apart, the directory is as it was, or has the new site.
  ghost predicate IsBeforeOrAfter(names: Names, initial: Folder, folder: Folder) {
    || folder - {names.backup} == initial
    || (HoldsStaged(names, initial) && folder - {names.backup} == Published(names, initial))
  }

  // The whole of `publish`. Nothing is lost at any moment, and a single failure
  // never leaves `output` empty, whatever the other writer does. A calm run
  // returns exactly when `output` is absent or a directory; a file there is
  // replaced, but stays in the backup and makes the call raise.
  method Publish(world: World, names: Names) returns (exit: Exit)
    requires IsStart(names, world)
    modifies world
    ensures world.output == names.output && EndsWith(world.history, world.state) && Progresses(world)
    ensures AllSafe(names, world.history, At(old(world.state.folder), names.Staged()).value)
    ensures world.faults <= old(world.faults) + 1 && names.output in old(world.state.folder)
      ==> names.output in world.state.folder
    ensures world.faults <= old(world.faults) + 1 && !world.state.interfered
      ==> IsBeforeOrAfter(names, old(world.state.folder), world.state.folder)
    ensures HasDirectory(world.state.folder, Entry(names.work))
    ensures WasCalm(world) ==> (exit.Returned? <==> CanDiscard(At(old(world.state.folder), Entry(names.output))))
    ensures WasCalm(world) && !exit.Returned? ==>
      HasBackup(names, old(world.state.folder), world.state.folder, At(old(world.state.folder), Entry(names.output)))
    ensures exit.Returned? ==> world.state.folder == Published(names, old(world.state.folder))
    ensures exit.NotStarted? ==> world.faults == old(world.faults) + 1
    ensures exit.Raised? && exit.replaced ==>
      world.state.folder - {names.backup} == Published(names, old(world.state.folder))
    ensures exit.Raised? && exit.handled ==>
      (names.backup in world.state.folder <==> At(world.state.folder, names.Previous()).Some?)
    ensures exit.Raised? && exit.handled && !world.state.interfered && HoldsStaged(names, world.state.folder)
      ==> world.state.folder == old(world.state.folder)
    ensures exit.Raised? && !world.state.interfered ==>
      world.faults >= old(world.faults) + (if exit.replaced then 0 else 1) + (if exit.handled then 0 else 1)
  {
    ghost var initial := world.state.folder;
    var made, before := world.MakeDirectory(names.backup);
    StartIsPending(names, initial, before);
    if !made {
      return NotStarted;
    }
    var replaced := Replace(world, names, initial);
    var raised, handled := !replaced, true;
    if raised {
      handled := Unwind(world, names, initial);
      if IsPending(names, initial, world.state) && names.output in initial { SiteIsKept(names, initial, world.state); }
    } else {
      var discarded := Discard(world, names, initial);
      raised := !discarded;
    }
    ghost var last := world.state;
    if IsSettled(names, initial, last) { SettledIsPublished(names, initial, last.folder); }
    var cleaned := CleanUp(world, names, initial);
    if IsSettled(names, initial, last) || !world.state.interfered {
      Concluded(names, initial, last, world.state);
    }
    return if raised || !cleaned then Raised(replaced, handled && cleaned) else Returned;
  }

  // A file at `output` is replaced, and the call raises all the same.
  method PublishOverFile(page: string, site: map<string, Node>) returns (world: World, exit: Exit)
    ensures world.undisturbed && exit.Raised?
    ensures world.state.folder == map[
      "work" := Dir(map[]), "docs" := Dir(site), "backup" := Dir(map[PREVIOUS := File(page)])]
  {
    var names := Names("docs", "work", "backup");
    world := new World("docs", map["docs" := File(page), "work" := Dir(map[SITE := Dir(site)])], true);
    exit := Publish(world, names);
  }

  // `publish` inside the scope of the staging directory, which is removed
  // whatever happened, unless that fails: the removal loses no site either.
  method PublishFromStaging(world: World, names: Names) returns (exit: Exit, cleaned: bool)
    requires IsStart(names, world)
    modifies world
    ensures forall k :: 0 <= k < |world.history| ==>
      NoSiteLost(names, world.history[k], At(old(world.state.folder), names.Staged()).value)
    ensures world.faults <= old(world.faults) + 1 && names.output in old(world.state.folder)
      ==> names.output in world.state.folder
    ensures exit.Returned? && cleaned ==>
      world.state.folder == Published(names, old(world.state.folder)) - {names.work}
    ensures Progresses(world)
    ensures cleaned ==> names.work !in world.state.folder
    ensures world.faults == old(world.faults) ==> cleaned
    ensures WasCalm(world) ==> (exit.Returned? <==> CanDiscard(At(old(world.state.folder), Entry(names.output))))
    ensures cleaned && world.faults <= old(world.faults) + 1 && !world.state.interfered ==>
      || world.state.folder - {names.backup} == old(world.state.folder) - {names.work}
      || world.state.folder - {names.backup} == Published(names, old(world.state.folder)) - {names.work}
  {
    exit := Publish(world, names);
    ghost var last := world.state;
    assert IsSafe(names, last, At(old(world.state.folder), names.Staged()).value);
    ghost var before;
    cleaned, before := world.RemoveTree(Entry(names.work));
    assert At(before.folder, names.Previous()) == At(last.folder, names.Previous());
  }

  // An ordinary run: the new site takes the place of the old one, and nothing else is left.
  method PublishOverSite(before: map<string, Node>, site: map<string, Node>) returns (world: World, exit: Exit)
    ensures world.undisturbed && exit.Returned? && world.state.folder == map["docs" := Dir(site)]
  {
    var names := Names("docs", "work", "backup");
    world := new World("docs", map["docs" := Dir(before), "work" := Dir(map[SITE := Dir(site)])], true);
    var cleaned;
    exit, cleaned := PublishFromStaging(world, names);
  }
}
