/** `safe_remove` of `symaira-core-fs` on Unix, with the rest of the system at work between every
    two system calls: other processes rename, delete and create under any name but the fresh
    quarantine name, and an inode number is used again once its file is unlinked and closed. Any
    system call may fail for a reason of its own: a list of faults says which do. */
module SafeRemove {
  import opened Common

  /** One directory. A file is known by an identity that is never used again; `number` is the
      device and inode pair that the program can see, which may be. */
  datatype World = World(
    entries: map<string, nat>,
    number: map<nat, nat>,
    regular: set<nat>,
    held: multiset<nat>)        // this process's open descriptors

  predicate Live(w: World, file: nat) {
    file in w.held || file in w.entries.Values
  }

  /** Files that are linked or held open have different inode numbers. */
  predicate Valid(w: World) {
    && w.entries.Values <= w.number.Keys
    && (forall f :: f in w.held ==> f in w.number)
    && (forall f, g :: f in w.number && g in w.number && f != g && Live(w, f) && Live(w, g) ==>
      w.number[f] != w.number[g])
  }

  function Entry(w: World, name: string): Option<nat> {
    if name in w.entries then Some(w.entries[name]) else None
  }

  /** Anything the rest of the system may have done since `w`. */
  predicate LegalMove(w: World, next: World, quarantine: string) {
    Valid(next) && next.held == w.held && Kept(w, next, quarantine)
  }

  /** What no step but this process's own rename and unlink changes. */
  predicate Kept(w: World, next: World, quarantine: string) {
    && w.number.Keys <= next.number.Keys
    && (forall f :: f in w.number ==> next.number[f] == w.number[f] && (f in next.regular <==> f in w.regular))
    && Entry(next, quarantine) == Entry(w, quarantine)
  }

  /** What `metadata` reports. */
  datatype Metadata = Metadata(number: nat, isFile: bool)

  /** The system calls that fail although nothing in the world makes them, in the order they come. */
  datatype Faults = Faults(
    firstOpen: bool, firstStat: bool, firstClose: bool,
    guardOpen: bool, guardStat: bool,
    check: bool, rename: bool,
    movedOpen: bool, movedStat: bool, unlink: bool)

  const NONE := Faults(false, false, false, false, false, false, false, false, false, false)

  datatype Outcome =
    | Removed
    | OpenFailed | NotRegular | CloseFailed | GuardFailed
    | ChangedBefore | QuarantineExists | RenameFailed | MovedUnreadable | ChangedDuring | UnlinkFailed

  class Host {
    var world: World
    var script: seq<World>      // what the rest of the system does next, one entry per gap
    const quarantine: string
    const faults: Faults
    ghost var unlinked: seq<nat>  // files that lost a name through this process

    ghost predicate Ready()
      reads this
    {
      Valid(world)
    }

    constructor (world: World, script: seq<World>, quarantine: string, faults: Faults)
      requires Valid(world)
      ensures Ready() && this.world == world && this.script == script
      ensures this.quarantine == quarantine && this.faults == faults && unlinked == []
    {
      this.world, this.script, this.quarantine, this.faults, unlinked := world, script, quarantine, faults, [];
    }

    /** The gap between two system calls. */
    method Others()
      requires Ready()
      modifies this`world, this`script
      ensures Ready() && world.held == old(world).held && Kept(old(world), world, quarantine)
      ensures Entry(world, quarantine) == Entry(old(world), quarantine)
      ensures forall f :: Guarding(old(world), f) ==> Guarding(world, f)
      ensures script == if old(script) == [] then [] else old(script)[1..]
      ensures world == if old(script) != [] && LegalMove(old(world), old(script)[0], quarantine) then old(script)[0]
                       else old(world)
    {
      if script != [] {
        if LegalMove(world, script[0], quarantine) { world := script[0]; }
        script := script[1..];
      }
    }

    method Open(name: string, fails: bool) returns (file: Option<nat>)
      requires Ready()
      modifies this`world
      ensures Ready()
      ensures file == if fails then None else Entry(old(world), name)
      ensures world == if file.None? then old(world) else old(world).(held := old(world).held + multiset{file.value})
    {
      if fails || name !in world.entries { return None; }
      Reopened(world, world.entries[name]);
      world := world.(held := world.held + multiset{world.entries[name]});
      return Some(world.entries[name]);
    }

    method Stat(file: nat, fails: bool) returns (m: Option<Metadata>)
      requires file in world.number
      ensures m == if fails then None else Some(Metadata(world.number[file], file in world.regular))
    {
      return if fails then None else Some(Metadata(world.number[file], file in world.regular));
    }

    /** Closing may report an error, but the descriptor is gone either way. */
    method Close(file: nat, fails: bool) returns (ok: bool)
      requires Ready() && file in world.held
      modifies this`world
      ensures Ready() && ok == !fails
      ensures world == old(world).(held := old(world).held - multiset{file})
    {
      Closed(world, file);
      world := world.(held := world.held - multiset{file});
      return !fails;
    }

    /** `statat(..).is_ok()`: a failing call looks like a free name. */
    method Exists(name: string, fails: bool) returns (found: bool)
      ensures found <==> name in world.entries && !fails
    {
      return !fails && name in world.entries;
    }

    /** A rename over another file unlinks that one; over another name of the same file it does nothing. */
    method Rename(from: string, to: string, fails: bool) returns (ok: bool)
      requires Ready() && from != to
      modifies this`world, this`unlinked
      ensures Ready() && ok == (!fails && from in old(world).entries)
      ensures !ok ==> world == old(world) && unlinked == old(unlinked)
      ensures ok ==> world == Renamed(old(world), from, to) && Entry(world, to) == Entry(old(world), from)
      ensures ok ==> forall n :: n != from && n != to ==> Entry(world, n) == Entry(old(world), n)
      ensures ok && Entry(old(world), to) == Entry(old(world), from) ==> world == old(world)
      ensures ok && Entry(old(world), to) != Entry(old(world), from) ==> from !in world.entries
      ensures ok ==> unlinked == old(unlinked) + Clobbered(old(world), from, to)
    {
      if fails || from !in world.entries { return false; }
      unlinked := unlinked + Clobbered(world, from, to);
      RenamedValid(world, from, to);
      world := Renamed(world, from, to);
      return true;
    }

    method Unlink(name: string, fails: bool) returns (ok: bool)
      requires Ready()
      modifies this`world, this`unlinked
      ensures Ready() && ok == (!fails && name in old(world).entries)
      ensures !ok ==> world == old(world) && unlinked == old(unlinked)
      ensures ok ==> world == old(world).(entries := old(world).entries - {name})
      ensures ok ==> unlinked == old(unlinked) + [old(world).entries[name]]
    {
      if fails || name !in world.entries { return false; }
      unlinked := unlinked + [world.entries[name]];
      UnlinkedValid(world, name);
      world := world.(entries := world.entries - {name});
      return true;
    }

    /** Opens, checks and closes the file; `number` is what was seen of it. */
    method CheckFile(name: string) returns (r: Option<Outcome>, number: nat)
      requires Ready()
      modifies this`world, this`script
      ensures Ready() && Entry(world, quarantine) == Entry(old(world), quarantine) && world.held == old(world).held
      ensures Kept(old(world), world, quarantine)
      ensures r == Checked(old(world), name)
      ensures r.None? ==> SeenAs(old(world), name, number)
      ensures old(script) == [] ==>
        script == [] && world.entries == old(world).entries && world.regular == old(world).regular
      ensures CallsSucceed() && old(script) == [] && RegularAt(old(world), name) ==>
        r.None? && RegularAt(world, name) && SeenAs(world, name, number)
    {
      hide Valid, LegalMove;
      number := 0;
      var first := Open(name, faults.firstOpen);
      if first.None? { return Some(OpenFailed), number; }
      InWorld(world, first.value);
      Others();
      var before := Stat(first.value, faults.firstStat);
      var closed := Close(first.value, faults.firstClose);
      if before.None? { return Some(OpenFailed), number; }
      if !before.value.isFile { return Some(NotRegular), number; }
      if !closed { return Some(CloseFailed), number; }
      return None, before.value.number;
    }

    /** Compares the guard with the file checked before. */
    method CompareGuard(guard: nat, before: nat) returns (r: Option<Outcome>)
      requires Ready() && guard in world.held && guard in world.number
      modifies this`world, this`script
      ensures Ready() && Entry(world, quarantine) == Entry(old(world), quarantine)
      ensures r.None? ==> Guarding(world, guard) && guard in old(world).regular && world.held == old(world).held
      ensures r == if faults.guardStat then Some(GuardFailed)
                   else if old(world).number[guard] != before || guard !in old(world).regular then Some(ChangedBefore)
                   else None
      ensures r.Some? ==> world.held == old(world).held - multiset{guard}
      ensures old(script) == [] ==> script == [] && world.entries == old(world).entries
      ensures
        old(script) == [] && CallsSucceed() && guard in old(world).regular && old(world).number[guard] == before
        ==> r.None?
    {
      hide Valid, LegalMove;
      Others();
      var guarded := Stat(guard, faults.guardStat);
      if guarded.None? {
        r := Some(GuardFailed);
      } else if before != guarded.value.number || !guarded.value.isFile {
        r := Some(ChangedBefore);
      } else {
        return None;
      }
      var _ := Close(guard, false);
    }

    /** Opens the guard and compares it with the file checked before. */
    method OpenGuard(name: string, before: nat) returns (r: Option<Outcome>, guard: nat, ghost atGuard: World)
      requires Ready()
      modifies this`world, this`script
      ensures Ready() && Entry(world, quarantine) == Entry(old(world), quarantine)
      ensures Valid(atGuard) && Kept(old(world), atGuard, quarantine)
      ensures r == Compared(atGuard, name, before)
      ensures r.None? ==> Guarding(world, guard) && Entry(atGuard, name) == Some(guard) && guard in atGuard.regular
      ensures world.held == old(world).held + (if r.None? then multiset{guard} else multiset{})
      ensures old(script) == [] ==> script == [] && world.entries == old(world).entries
      ensures old(script) == [] ==> atGuard.entries == old(world).entries
      ensures CallsSucceed() && old(script) == [] && RegularAt(old(world), name) && SeenAs(old(world), name, before) ==>
        r.None?
    {
      hide Valid, Kept, LegalMove;
      Others();
      atGuard := world;
      var pinned := Open(name, faults.guardOpen);
      if pinned.None? {
        r, guard := Some(GuardFailed), 0;
      } else {
        guard := pinned.value;
        EntryNumbered(atGuard, name);
        TakenAndGone(atGuard.held, guard);
        r := CompareGuard(guard, before);
      }
    }

    /** Checks the file, then opens the guard on it. */
    method TakeGuard(name: string) returns (r: Option<Outcome>, guard: nat, ghost atGuard: World)
      requires Ready()
      modifies this`world, this`script
      ensures Ready() && Entry(world, quarantine) == Entry(old(world), quarantine)
      ensures r.None? ==> Guarding(world, guard) && Entry(atGuard, name) == Some(guard) && guard in atGuard.regular
      // the guard is on a file with the inode number of the regular file that was checked
      ensures Valid(atGuard) && Kept(old(world), atGuard, quarantine)
      ensures r == Guarded(old(world), name, atGuard)
      ensures world.held == old(world).held + (if r.None? then multiset{guard} else multiset{})
      ensures old(script) == [] ==> script == [] && world.entries == old(world).entries
      ensures old(script) == [] ==> atGuard.entries == old(world).entries
      ensures CallsSucceed() && old(script) == [] && RegularAt(old(world), name) ==> r.None?
    {
      hide Valid, Guarding, CallsSucceed, RegularAt;
      guard, atGuard := 0, world;
      var before;
      r, before := CheckFile(name);
      if r.None? { r, guard, atGuard := OpenGuard(name, before); }
    }

    /** Checks that the quarantine name is free and moves the file there. `free` is what the check
        said, `atRename` the world in which the rename was called. */
    method MoveAside(name: string) returns (r: Option<Outcome>, ghost free: bool, ghost atRename: World)
      requires Ready() && name != quarantine
      modifies this
      ensures Ready() && world.held == old(world).held
      ensures forall f :: Guarding(old(world), f) ==> Guarding(world, f)
      ensures free <==> quarantine !in old(world).entries || faults.check
      ensures r == if !free then Some(QuarantineExists)
                   else if faults.rename || name !in atRename.entries then Some(RenameFailed) else None
      ensures Entry(atRename, quarantine) == Entry(old(world), quarantine)
      ensures unlinked == old(unlinked)
        + if r.None? && name in atRename.entries then Clobbered(atRename, name, quarantine) else []
      ensures r.None? ==> name in atRename.entries && world.entries == Renamed(atRename, name, quarantine).entries
      ensures r.None? ==> Entry(world, quarantine) == Entry(atRename, name)
      ensures old(script) == [] ==> script == [] && atRename.entries == old(world).entries
    {
      hide Valid, LegalMove;
      Others();
      var taken := Exists(quarantine, faults.check);
      free, atRename := !taken, world;
      if taken { return Some(QuarantineExists), free, atRename; }
      Others();
      atRename := world;
      var moved := Rename(name, quarantine, faults.rename);
      return if moved then None else Some(RenameFailed), free, atRename;
    }

    /** Opens what was moved to the quarantine name, compares it with the guard, and unlinks it. */
    method FinishRemoval(guard: nat) returns (r: Outcome)
      requires Ready() && Guarding(world, guard)
      modifies this
      ensures Ready() && world.held == old(world).held && Guarding(world, guard)
      ensures r == Finished(Entry(old(world), quarantine), guard)
      ensures unlinked == old(unlinked) + (if r.Removed? then [guard] else [])
      ensures r.Removed? ==> quarantine !in world.entries
      ensures r.ChangedDuring? ==> Swapped(world, quarantine, guard)
      ensures old(script) == [] && CallsSucceed() && Entry(old(world), quarantine) == Some(guard) ==>
        r.Removed? && world.entries == old(world).entries - {quarantine}
    {
      hide Valid, LegalMove;
      Others();
      var moved := Open(quarantine, faults.movedOpen);
      if moved.None? { return MovedUnreadable; }
      InWorld(world, moved.value);
      Others();
      var after := Stat(moved.value, faults.movedStat);
      var guarded := world.number[guard];
      SameNumberIff(world, guard, moved.value);
      var _ := Close(moved.value, false);
      if after.None? { return MovedUnreadable; }
      if guarded != after.value.number || !after.value.isFile { return ChangedDuring; }
      Others();
      var gone := Unlink(quarantine, faults.unlink);
      return if gone then Removed else UnlinkFailed;
    }

    /** Everything after the guard is taken. `free` is what the check for the quarantine name said,
        `atRename` the world in which the rename was called. */
    method RemoveGuarded(name: string, guard: nat) returns (r: Outcome, ghost free: bool, ghost atRename: World)
      requires Ready() && name != quarantine && Guarding(world, guard) && unlinked == []
      modifies this
      ensures Ready() && world.held == old(world).held - multiset{guard}
      ensures r == Moved(free, Entry(atRename, name), guard)
      ensures Explained(r, name, guard, Entry(old(world), quarantine), free, atRename, world, unlinked)
      ensures old(script) == [] && CallsSucceed() && free && Entry(old(world), name) == Some(guard) ==>
        && r.Removed? && atRename.entries == old(world).entries
        && world.entries == Renamed(atRename, name, quarantine).entries - {quarantine}
    {
      hide Valid, Guarding;
      var stopped;
      stopped, free, atRename := MoveAside(name);
      if stopped.Some? {
        r := stopped.value;
      } else {
        r := FinishRemoval(guard);
      }
      Held(world, guard);
      var _ := Close(guard, false);
    }

    /** The whole call. `atGuard` is the world in which the guard descriptor was opened. */
    method Remove(name: string) returns (r: Outcome, ghost guard: nat, ghost atGuard: World,
                                         ghost free: bool, ghost atRename: World)
      requires Ready() && name != quarantine && unlinked == []
      modifies this
      ensures Ready() && world.held == old(world).held
      // the file unlinked on purpose is the one the guard holds, a regular file found under the
      // name; `Explained` says what else is lost, and when
      ensures Unguarded(r) ==> unlinked == []
      ensures !Unguarded(r) ==> Entry(atGuard, name) == Some(guard) && guard in atGuard.regular
      // the guard has the inode number of the regular file found under the name at the start
      ensures Valid(atGuard) && Kept(old(world), atGuard, quarantine)
      ensures !Unguarded(r) ==> RegularAt(old(world), name) && SameNumber(old(world), name, atGuard)
      // which files were found decides the outcome
      ensures r == match Guarded(old(world), name, atGuard)
                   case Some(stopped) => stopped
                   case None => Moved(free, Entry(atRename, name), guard)
      ensures !Unguarded(r) ==>
        Explained(r, name, guard, Entry(old(world), quarantine), free, atRename, world, unlinked)
      // undisturbed, the file under the name is the one removed
      ensures Undisturbed(old(world), old(script), name) ==>
        && r.Removed? && guard == old(world).entries[name] && atRename.entries == old(world).entries
        && world.entries == old(world).entries - {name, quarantine}
    {
      hide Valid, Guarding, Explained, Guarded, Moved, Kept, SameNumber;
      var stopped, pinned;
      stopped, pinned, atGuard := TakeGuard(name);
      GuardedIs(old(world), name, atGuard);
      guard, free, atRename := pinned, false, world;
      if stopped.Some? {
        r := stopped.value;
      } else {
        r, free, atRename := RemoveGuarded(name, pinned);
        MovedIs(free, Entry(atRename, name), pinned);
        FreeIs(r, name, pinned, Entry(old(world), quarantine), free, atRename, world, unlinked);
      }
    }

    /** What comes of the first look at the file under the name. */
    ghost function Checked(w: World, name: string): Option<Outcome> {
      if faults.firstOpen || name !in w.entries || faults.firstStat then Some(OpenFailed)
      else if w.entries[name] !in w.regular then Some(NotRegular)
      else if faults.firstClose then Some(CloseFailed)
      else None
    }

    /** What comes of opening the guard, when the file checked before had the number `before`. */
    ghost function Compared(atGuard: World, name: string, before: nat): Option<Outcome>
      requires Valid(atGuard)
    {
      if faults.guardOpen || name !in atGuard.entries || faults.guardStat then Some(GuardFailed)
      else
        EntryNumbered(atGuard, name);
        if atGuard.number[atGuard.entries[name]] != before then Some(ChangedBefore)
        else if atGuard.entries[name] !in atGuard.regular then Some(ChangedBefore)
        else None
    }

    /** The two looks together: none of the ways to stop, and the same inode number both times. */
    ghost function Guarded(w: World, name: string, atGuard: World): Option<Outcome>
      requires Valid(w) && Valid(atGuard)
    {
      if Checked(w, name).Some? then Checked(w, name)
      else
        EntryNumbered(w, name);
        Compared(atGuard, name, w.number[w.entries[name]])
    }

    lemma GuardedIs(w: World, name: string, atGuard: World)
      requires Valid(w) && Valid(atGuard)
      ensures Guarded(w, name, atGuard).Some? ==> Unguarded(Guarded(w, name, atGuard).value)
      ensures Guarded(w, name, atGuard).None? ==> RegularAt(w, name) && SameNumber(w, name, atGuard)
    {
      if name in w.entries { EntryNumbered(w, name); }
      if name in atGuard.entries { EntryNumbered(atGuard, name); }
    }

    lemma MovedIs(free: bool, moved: Option<nat>, guard: nat)
      ensures !Unguarded(Moved(free, moved, guard))
    {
    }

    /** What comes of the move, given what the check for the quarantine name said and the file that
        was under the name then. */
    ghost function Moved(free: bool, moved: Option<nat>, guard: nat): Outcome {
      if !free then QuarantineExists
      else if faults.rename || moved.None? then RenameFailed
      else Finished(moved, guard)
    }

    /** What comes of the file under the quarantine name. */
    ghost function Finished(moved: Option<nat>, guard: nat): Outcome {
      if faults.movedOpen || moved.None? || faults.movedStat then MovedUnreadable
      else if moved != Some(guard) then ChangedDuring
      else if faults.unlink then UnlinkFailed
      else Removed
    }

    /** What the call unlinked, given the file under the quarantine name at its start. */
    ghost predicate Explained(r: Outcome, name: string, guard: nat, occupant: Option<nat>,
                              free: bool, atRename: World, end: World, lost: seq<nat>) {
      // a rename that goes through puts the file found under the name in the place of the occupant,
      // which loses its name unless it is that file; beside that only the guarded file is unlinked
      && lost == (if Renaming(r) && occupant.Some? && occupant != Entry(atRename, name) then [occupant.value] else [])
                 + (if r.Removed? then [guard] else [])
      && Entry(atRename, quarantine) == occupant
      // the check is right unless it fails, and then it says that the name is free
      && (free <==> occupant.None? || faults.check)
      && (r.QuarantineExists? <==> !free)
      && (Renaming(r) <==> free && name in atRename.entries && !faults.rename)
      && (r.Removed? ==> quarantine !in end.entries)
      // a file swapped in is left, not unlinked, under the quarantine name
      && (r.ChangedDuring? ==> Swapped(end, quarantine, guard))
    }

    lemma FreeIs(r: Outcome, name: string, guard: nat, occupant: Option<nat>, free: bool, atRename: World, end: World,
                 lost: seq<nat>)
      requires Explained(r, name, guard, occupant, free, atRename, end, lost)
      ensures free <==> occupant.None? || faults.check
    {
    }

    /** No call fails, but for the check of the quarantine name. */
    ghost predicate CallsSucceed() {
      && !faults.firstOpen && !faults.firstStat && !faults.firstClose && !faults.guardOpen && !faults.guardStat
      && !faults.rename && !faults.movedOpen && !faults.movedStat && !faults.unlink
    }

    /** Nothing else is at work and no call fails, the check for the quarantine name aside; that
        one must not fail if the name is occupied by the very file to be removed. */
    ghost predicate Undisturbed(w: World, gaps: seq<World>, name: string) {
      && CallsSucceed() && gaps == [] && RegularAt(w, name)
      && (quarantine in w.entries ==> faults.check && w.entries[quarantine] != w.entries[name])
    }
  }

  /** The outcomes of a call that never took its guard. */
  predicate Unguarded(r: Outcome) {
    Unopened(r) || r.GuardFailed? || r.ChangedBefore?
  }

  predicate Unopened(r: Outcome) {
    r.OpenFailed? || r.NotRegular? || r.CloseFailed?
  }

  /** The outcomes of a call whose rename went through. */
  predicate Renaming(r: Outcome) {
    r.Removed? || r.MovedUnreadable? || r.ChangedDuring? || r.UnlinkFailed?
  }

  ghost predicate SeenAs(w: World, name: string, number: nat) {
    name in w.entries && w.entries[name] in w.number && w.number[w.entries[name]] == number
  }

  /** The files under the name in the two worlds have the same inode number. */
  ghost predicate SameNumber(w: World, name: string, later: World) {
    && name in w.entries && w.entries[name] in w.number
    && name in later.entries && later.entries[name] in later.number
    && w.number[w.entries[name]] == later.number[later.entries[name]]
  }

  lemma TakenAndGone(held: multiset<nat>, file: nat)
    ensures held + multiset{file} - multiset{file} == held
  {
  }

  lemma EntryNumbered(w: World, name: string)
    requires Valid(w) && name in w.entries
    ensures w.entries[name] in w.number
  {
    assert w.entries[name] in w.entries.Values;
  }

  ghost predicate RegularAt(w: World, name: string) {
    name in w.entries && w.entries[name] in w.regular
  }

  /** Two files, the second under the quarantine name of the first. */
  const CROWDED := World(map["f" := 0, "f.q" := 1], map[0 := 10, 1 := 11], {0, 1}, multiset{})

  lemma CrowdedValid()
    ensures Valid(CROWDED) && CROWDED.entries - {"f", "f.q"} == map[]
  {
  }

  /** A file is lost: the quarantine name is occupied, and the check for it fails. */
  method OccupantLost() returns (r: Outcome, left: map<string, nat>)
    ensures r.Removed? && left == map[]
  {
    hide Valid, LegalMove;
    CrowdedValid();
    var host := new Host(CROWDED, [], "f.q", NONE.(check := true));
    ghost var guard, atGuard, free, atRename;
    r, guard, atGuard, free, atRename := host.Remove("f");
    assert host.unlinked == [1, 0];
    left := host.world.entries;
  }

  /** The guard descriptor is open on a regular file. */
  ghost predicate Guarding(w: World, guard: nat) {
    guard in w.number && guard in w.regular && guard in w.held
  }

  ghost predicate Swapped(w: World, quarantine: string, guard: nat) {
    quarantine in w.entries && (w.entries[quarantine] != guard || guard !in w.regular)
  }

  lemma Held(w: World, guard: nat)
    requires Guarding(w, guard)
    ensures guard in w.held
  {
  }

  lemma InWorld(w: World, file: nat)
    requires Valid(w) && file in w.held
    ensures file in w.number
  {
  }

  /** Files alive at once with the same inode number are one file. */
  lemma SameNumberIff(w: World, f: nat, g: nat)
    requires Valid(w) && f in w.held && g in w.held
    ensures f in w.number && g in w.number && (w.number[f] == w.number[g] <==> f == g)
  {
    assert Live(w, f) && Live(w, g);
  }

  function Renamed(w: World, from: string, to: string): World
    requires from in w.entries
  {
    if to in w.entries && w.entries[to] == w.entries[from] then w
    else w.(entries := (w.entries - {from})[to := w.entries[from]])
  }

  function Clobbered(w: World, from: string, to: string): seq<nat>
    requires from in w.entries
  {
    if to in w.entries && w.entries[to] != w.entries[from] then [w.entries[to]] else []
  }

  lemma Reopened(w: World, file: nat)
    requires Valid(w) && file in w.entries.Values
    ensures Valid(w.(held := w.held + multiset{file}))
  {
    var next := w.(held := w.held + multiset{file});
    assert forall f :: Live(next, f) ==> Live(w, f);
  }

  lemma Closed(w: World, file: nat)
    requires Valid(w)
    ensures Valid(w.(held := w.held - multiset{file}))
  {
    var next := w.(held := w.held - multiset{file});
    assert forall f :: Live(next, f) ==> Live(w, f);
  }

  lemma RenamedValid(w: World, from: string, to: string)
    requires Valid(w) && from in w.entries
    ensures Valid(Renamed(w, from, to))
  {
    var next := Renamed(w, from, to);
    assert forall f :: f in next.entries.Values ==> f in w.entries.Values;
    assert forall f :: Live(next, f) ==> Live(w, f);
  }

  lemma UnlinkedValid(w: World, name: string)
    requires Valid(w)
    ensures Valid(w.(entries := w.entries - {name}))
  {
    var next := w.(entries := w.entries - {name});
    assert forall f :: f in next.entries.Values ==> f in w.entries.Values;
    assert forall f :: Live(next, f) ==> Live(w, f);
  }
}
