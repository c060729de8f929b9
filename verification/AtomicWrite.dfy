/** `write_file_atomic` of `symaira-core-fs` on Unix, with a crash possible after every system call
    and every system call able to fail: a list of faults says which do.

    A disk keeps what a running process sees apart from what a crash leaves: unsynced file data may
    come back as anything, and each name may come back as any entry it had since the directory was
    last synced, independently of the other names. */
module AtomicWrite {
  import opened Common

  type Directory = map<string, nat>
  type Data = seq<byte>

  datatype Disk = Disk(
    entries: Directory,           // what a running process sees
    files: map<nat, Data>,        // the data of each inode, ditto
    stable: set<nat>,             // inodes whose data is on the medium
    since: seq<Directory>)        // the directory at the last sync and after each change since

  ghost predicate ValidDisk(d: Disk) {
    && d.since != [] && d.since[|d.since| - 1] == d.entries
    && (forall n :: n in d.entries ==> d.entries[n] in d.files)
    && (forall k, n :: 0 <= k < |d.since| && n in d.since[k] ==> d.since[k][n] in d.files)
    && d.stable <= d.files.Keys
  }

  function Entry(entries: Directory, name: string): Option<nat> {
    if name in entries then Some(entries[name]) else None
  }

  /** The data found under a name. */
  function FileAt(entries: Directory, files: map<nat, Data>, name: string): Option<Data> {
    if name in entries && entries[name] in files then Some(files[entries[name]]) else None
  }

  function Seen(d: Disk, name: string): Option<Data> {
    FileAt(d.entries, d.files, name)
  }

  /** Whether the name had this entry at the last sync of the directory or at any time since. */
  ghost predicate Had(d: Disk, name: string, entry: Option<nat>) {
    exists k :: 0 <= k < |d.since| && Entry(d.since[k], name) == entry
  }

  /** What a crash can leave of the disk. */
  ghost predicate CrashImage(d: Disk, entries: Directory, files: map<nat, Data>) {
    && (forall n :: Had(d, n, Entry(entries, n)))
    && (forall i :: i in d.stable && i in d.files ==> i in files && files[i] == d.files[i])
  }

  ghost predicate SameElsewhere(before: Directory, entries: Directory, name: string, temporary: string) {
    forall n :: n != name && n != temporary ==> Entry(before, n) == Entry(entries, n)
  }

  /** A crash of `start` could have left the same with `before` in place of `entries`, except that
      `name` may now hold the new bytes; nothing is said of the temporary name. */
  ghost predicate LeftBefore(start: Disk, before: Directory, entries: Directory, files: map<nat, Data>,
                             name: string, temporary: string, data: Data)
  {
    && CrashImage(start, before, files)
    && SameElsewhere(before, entries, name, temporary)
    && (Entry(before, name) == Entry(entries, name) || FileAt(entries, files, name) == Some(data))
  }

  ghost predicate LeftAsBefore(start: Disk, entries: Directory, files: map<nat, Data>,
                               name: string, temporary: string, data: Data)
  {
    exists before :: LeftBefore(start, before, entries, files, name, temporary, data)
  }

  ghost predicate CrashSafe(d: Disk, start: Disk, name: string, temporary: string, data: Data) {
    forall entries, files :: CrashImage(d, entries, files) ==>
      LeftAsBefore(start, entries, files, name, temporary, data)
  }

  /** Whatever a crash leaves, the name holds one of the two. */
  ghost predicate OldOrNew(d: Disk, name: string, before: Option<Data>, data: Data) {
    forall entries, files :: CrashImage(d, entries, files) ==>
      FileAt(entries, files, name) == before || FileAt(entries, files, name) == Some(data)
  }

  ghost predicate Durable(d: Disk, name: string, data: Data) {
    forall entries, files :: CrashImage(d, entries, files) ==> FileAt(entries, files, name) == Some(data)
  }

  // ---------- Faults ----------

  /** Which system calls fail, and how many bytes each `write` takes: none is a failure, and a
      `write` beyond the list takes all it is given. */
  datatype Faults = Faults(
    create: bool,
    chmod: bool,
    writes: seq<nat>,
    sync: bool,
    rename: bool,
    syncDirectory: bool,
    unlink: bool)

  datatype WriteResult =
    | Success
    | OpenFailed | ChmodFailed
    | WriteFailed | SyncFailed | RenameFailed | DirectorySyncFailed

  /** Whether some `write` fails before `left` bytes are written. */
  predicate WritesFail(writes: seq<nat>, left: nat) {
    if left == 0 || writes == [] then false
    else writes[0] == 0 || (writes[0] < left && WritesFail(writes[1..], left - writes[0]))
  }

  /** The first fault that the guarded block meets. */
  function GuardedOutcome(faults: Faults, size: nat): WriteResult {
    if WritesFail(faults.writes, size) then WriteFailed
    else if faults.sync then SyncFailed
    else if faults.rename then RenameFailed
    else if faults.syncDirectory then DirectorySyncFailed
    else Success
  }

  /** The first fault that the whole call meets; `taken` says whether the temporary name exists. */
  function Outcome(faults: Faults, taken: bool, size: nat): WriteResult {
    if faults.create || taken then OpenFailed
    else if faults.chmod then ChmodFailed
    else GuardedOutcome(faults, size)
  }

  /** Whether the guarded block stopped with the temporary still under its own name. */
  predicate BeforeRename(r: WriteResult) {
    r in {WriteFailed, SyncFailed, RenameFailed}
  }

  // ---------- System calls ----------

  class FileSystem {
    const faults: Faults
    var disk: Disk
    var writes: seq<nat>            // how much the next calls of `write` take
    ghost var history: seq<Disk>    // the disk after every system call so far

    ghost predicate Valid()
      reads this
    {
      ValidDisk(disk) && history != [] && history[|history| - 1] == disk
    }

    constructor (disk: Disk, faults: Faults)
      requires ValidDisk(disk)
      ensures Valid() && this.disk == disk && history == [disk]
      ensures this.faults == faults && writes == faults.writes
    {
      this.disk, this.faults, writes, history := disk, faults, faults.writes, [disk];
    }

    /** `openat` with CREATE and EXCL: fails when the name exists, or for any other reason. */
    method CreateExclusive(name: string) returns (inode: Option<nat>)
      requires Valid()
      modifies this`disk, this`history
      ensures Valid()
      ensures inode.None? <==> faults.create || name in old(disk.entries)
      ensures inode.None? ==> disk == old(disk) && history == old(history)
      ensures inode.Some? ==> inode.value !in old(disk.files) && disk == Created(old(disk), name, inode.value)
      ensures inode.Some? ==> history == old(history) + [disk]
    {
      if faults.create || name in disk.entries { return None; }
      var next: nat := Unused(disk.files.Keys);
      disk := Created(disk, name, next);
      history := history + [disk];
      return Some(next);
    }

    /** `fchmod`; permission bits are not modelled. */
    method ChangeMode() returns (ok: bool)
      ensures ok == !faults.chmod
    {
      return !faults.chmod;
    }

    /** One `write`, of at least one byte unless it fails. */
    method Write(inode: nat, bytes: Data) returns (written: nat)
      requires Valid() && inode in disk.files && bytes != []
      modifies this
      ensures Valid() && written <= |bytes|
      ensures written == 0 ==> disk == old(disk) && history == old(history)
      ensures written > 0 ==> disk == Appended(old(disk), inode, bytes[..written]) && history == old(history) + [disk]
      ensures written == 0 ==> WritesFail(old(writes), |bytes|)
      ensures written > 0 ==> WritesFail(old(writes), |bytes|) == WritesFail(writes, |bytes| - written)
    {
      written := |bytes|;
      if writes != [] {
        if writes[0] < |bytes| { written := writes[0]; }
        writes := writes[1..];
      }
      if written > 0 {
        disk := Appended(disk, inode, bytes[..written]);
        history := history + [disk];
      }
    }

    method SyncFile(inode: nat) returns (ok: bool)
      requires Valid() && inode in disk.files
      modifies this`disk, this`history
      ensures Valid() && ok == !faults.sync
      ensures disk == (if ok then old(disk).(stable := old(disk).stable + {inode}) else old(disk))
      ensures history == (if ok then old(history) + [disk] else old(history))
    {
      ok := !faults.sync;
      if ok {
        disk := disk.(stable := disk.stable + {inode});
        history := history + [disk];
      }
    }

    method Rename(from: string, to: string) returns (ok: bool)
      requires Valid() && from in disk.entries && from != to
      modifies this`disk, this`history
      ensures Valid() && ok == !faults.rename
      ensures disk == (if ok then Renamed(old(disk), from, to) else old(disk))
      ensures history == (if ok then old(history) + [disk] else old(history))
    {
      ok := !faults.rename;
      if ok {
        disk := Renamed(disk, from, to);
        history := history + [disk];
      }
    }

    method SyncDirectory() returns (ok: bool)
      requires Valid()
      modifies this`disk, this`history
      ensures Valid() && ok == !faults.syncDirectory
      ensures disk == (if ok then old(disk).(since := [old(disk).entries]) else old(disk))
      ensures history == (if ok then old(history) + [disk] else old(history))
    {
      ok := !faults.syncDirectory;
      if ok {
        disk := disk.(since := [disk.entries]);
        history := history + [disk];
      }
    }

    method Unlink(name: string) returns (ok: bool)
      requires Valid()
      modifies this`disk, this`history
      ensures Valid() && ok == (!faults.unlink && name in old(disk).entries)
      ensures disk == (if ok then Unlinked(old(disk), name) else old(disk))
      ensures history == (if ok then old(history) + [disk] else old(history))
    {
      ok := !faults.unlink && name in disk.entries;
      if ok {
        disk := Unlinked(disk, name);
        history := history + [disk];
      }
    }

    /** The whole call, from any disk. `temporary` is the fresh sibling name; it differs from `name`
        (`TempNameDiffers`). */
    method WriteFileAtomic(name: string, temporary: string, data: Data) returns (r: WriteResult)
      requires Valid() && history == [disk] && writes == faults.writes
      requires name != temporary
      modifies this
      ensures Valid()
      // a crash at any point leaves what a crash before the call could have left, or all of the new
      // bytes under the name; a reader of the running system sees the old file or all of the new one
      ensures forall k :: 0 <= k < |history| ==> Good(history[k], old(disk), name, temporary, data)
      ensures Settled(old(disk), name) ==>
        forall k :: 0 <= k < |history| ==> OldOrNew(history[k], name, Seen(old(disk), name), data)
      // the first fault decides the result
      ensures r == Outcome(faults, temporary in old(disk).entries, |data|)
      // a failed sync of the directory leaves the new bytes in place, every earlier failure the old
      // file; only success makes the new bytes durable
      ensures Seen(disk, name) == if r.Success? || r.DirectorySyncFailed? then Some(data) else Seen(old(disk), name)
      ensures Durable(disk, name, data) <==> r.Success? || Durable(old(disk), name, data)
      // after a failed sync of the directory a crash may still undo the call; a later call may start there
      ensures Settled(disk, name) <==> r.Success? || (Settled(old(disk), name) && !r.DirectorySyncFailed?)
      // this call leaves a temporary behind exactly if `fchmod` failed, or if the guarded block
      // failed before the rename and the clean-up failed too
      ensures temporary in disk.entries <==>
        if r.OpenFailed? then temporary in old(disk).entries
        else r.ChmodFailed? || (BeforeRename(r) && faults.unlink)
    {
      hide CrashSafe, KeptApart, Durable, Settled, OldOrNew, WritesFail, ValidDisk, OldFilesKept, Had, Revertible;
      ghost var start := disk;
      StartSafe(start, name, temporary, data);
      var inode := CreateExclusive(temporary);
      if inode.None? {
        SettledAll(history, start, name, temporary, data);
        return OpenFailed;
      }
      CreatedStaged(start, name, temporary, inode.value);
      StagedSafe(disk, start, name, temporary, inode.value, [], data);
      var ok := ChangeMode();
      if ok {
        r := WriteSyncRename(name, temporary, data, inode.value, start);
      } else {
        r := ChmodFailed;
      }
      if !r.Success? && !r.ChmodFailed? {
        if BeforeRename(r) {
          ghost var done :| Staged(disk, start, name, temporary, inode.value, done);
          StagedSafe(disk, start, name, temporary, inode.value, done, data);
          RemovedSafe(disk, start, name, temporary, inode.value, done, data);
        } else {
          MovedSafe(disk, start, name, temporary, inode.value, data);
        }
        var _ := Unlink(temporary);
      }
      if !r.Success? { NotYetDurable(disk, start, name, temporary, inode.value, data); }
      SettledAll(history, start, name, temporary, data);
    }

    /** The guarded block: write, sync, rename, sync the directory, stopping at the first failure. */
    method WriteSyncRename(name: string, temporary: string, data: Data, inode: nat,
                           ghost start: Disk) returns (r: WriteResult)
      requires Valid() && ValidDisk(start) && writes == faults.writes
      requires Staged(disk, start, name, temporary, inode, []) && Revertible(disk, start, inode)
      requires forall k :: 0 <= k < |history| ==> Good(history[k], start, name, temporary, data)
      modifies this
      ensures Valid() && history != []
      ensures forall k :: 0 <= k < |history| ==> Good(history[k], start, name, temporary, data)
      ensures r == GuardedOutcome(faults, |data|)
      ensures r.Success? ==> Seen(disk, name) == Some(data) && Durable(disk, name, data) && temporary !in disk.entries
      ensures r.Success? ==> Settled(disk, name)
      ensures BeforeRename(r) ==> exists done :: Staged(disk, start, name, temporary, inode, done)
      ensures r.DirectorySyncFailed? ==> Moved(disk, start, name, temporary, inode, data)
      ensures !r.Success? ==> Revertible(disk, start, inode)
    {
      hide Good, Durable, ValidDisk, Moved, OldFilesKept, WritesFail, Had, Settled;
      var ok := WriteAll(name, temporary, data, inode, start);
      if !ok { return WriteFailed; }
      StagedSync(disk, start, name, temporary, inode, data);
      ok := SyncFile(inode);
      StagedSafe(disk, start, name, temporary, inode, data, data);
      if !ok { return SyncFailed; }
      StagedRename(disk, start, name, temporary, inode, data);
      ok := Rename(temporary, name);
      if !ok { return RenameFailed; }
      MovedSafe(disk, start, name, temporary, inode, data);
      MovedSync(disk, start, name, temporary, inode, data);
      ok := SyncDirectory();
      if !ok { return DirectorySyncFailed; }
      SyncedSafe(disk, start, name, temporary, inode, data);
      return Success;
    }

    /** `write_all`: writes of any size until everything is written or one fails. */
    method WriteAll(name: string, temporary: string, data: Data, inode: nat, ghost start: Disk) returns (ok: bool)
      requires Valid() && ValidDisk(start)
      requires Staged(disk, start, name, temporary, inode, []) && Revertible(disk, start, inode)
      requires forall k :: 0 <= k < |history| ==> Good(history[k], start, name, temporary, data)
      modifies this
      ensures Valid() && disk.since == old(disk.since) && Revertible(disk, start, inode)
      ensures forall k :: 0 <= k < |history| ==> Good(history[k], start, name, temporary, data)
      ensures ok <==> !WritesFail(old(writes), |data|)
      ensures ok ==> Staged(disk, start, name, temporary, inode, data)
      ensures !ok ==> exists done :: Staged(disk, start, name, temporary, inode, done)
    {
      hide Good, ValidDisk, OldFilesKept;
      var offset := 0;
      while offset < |data|
        invariant 0 <= offset <= |data|
        invariant Valid() && disk.since == old(disk.since) && Revertible(disk, start, inode)
        invariant WritesFail(writes, |data| - offset) == WritesFail(old(writes), |data|)
        invariant Staged(disk, start, name, temporary, inode, data[..offset])
        invariant forall k :: 0 <= k < |history| ==> Good(history[k], start, name, temporary, data)
      {
        ghost var before := disk;
        var written := Write(inode, data[offset..]);
        if written == 0 { return false; }
        StagedAppend(before, start, name, temporary, inode, data[..offset], data[offset..][..written]);
        assert data[..offset] + data[offset..][..written] == data[..offset + written];
        offset := offset + written;
        StagedSafe(disk, start, name, temporary, inode, data[..offset], data);
      }
      assert data[..offset] == data;
      return true;
    }
  }

  /** A temporary is left behind: every `write` fails, and so does the clean-up. */
  method LeftBehind() returns (r: WriteResult, left: bool)
    ensures r.WriteFailed? && left
  {
    var empty := Disk(map[], map[], {}, [map[]]);
    var temporary := TempName("f", "1a", "0");
    TempNameDiffers("f", "1a", "0");
    var fs := new FileSystem(empty, Faults(false, false, [0], false, false, false, true));
    r := fs.WriteFileAtomic("f", temporary, [1]);
    left := temporary in fs.disk.entries;
  }

  /** A write whose directory sync failed, and a second one that starts from what it left: in between a
      crash may undo the first, and afterwards it can undo neither. */
  method Retried(disk: Disk, name: string, first: string, second: string, data: Data)
    returns (r: WriteResult, again: WriteResult, ghost between: Disk, ghost after: Disk)
    requires ValidDisk(disk) && name != first && name != second
    requires first !in disk.entries && second !in disk.entries
    ensures r.DirectorySyncFailed? && Seen(between, name) == Some(data) && !Settled(between, name)
    ensures Durable(between, name, data) <==> Durable(disk, name, data)
    ensures again.Success? && Durable(after, name, data) && Settled(after, name)
  {
    hide CrashSafe, Durable, Settled, OldOrNew;
    var fs := new FileSystem(disk, Faults(false, false, [], false, false, true, false));
    r := fs.WriteFileAtomic(name, first, data);
    between := fs.disk;
    assert Good(fs.history[|fs.history| - 1], disk, name, first, data);
    assert Entry(between.entries, second) == Entry(disk.entries, second);
    var retry := new FileSystem(fs.disk, Faults(false, false, [], false, false, false, false));
    again := retry.WriteFileAtomic(name, second, data);
    after := retry.disk;
  }

  /** What the name holds, if anything, is on the medium under that name. */
  ghost predicate Settled(d: Disk, name: string) {
    && (forall entry :: Had(d, name, entry) ==> entry == Entry(d.entries, name))
    && (name in d.entries ==> d.entries[name] in d.stable)
  }

  ghost predicate Good(d: Disk, start: Disk, name: string, temporary: string, data: Data) {
    CrashSafe(d, start, name, temporary, data) && KeptApart(d, start, name, temporary, data)
  }

  /** A crash may still bring back every entry it could at the start, and no other file that existed
      then has reached the medium. */
  ghost predicate Revertible(d: Disk, start: Disk, inode: nat) {
    && start.since <= d.since
    && d.stable <= start.stable + {inode}
  }

  function Created(d: Disk, name: string, inode: nat): Disk {
    var entries := d.entries[name := inode];
    Disk(entries, d.files[inode := []], d.stable - {inode}, d.since + [entries])
  }

  function Appended(d: Disk, inode: nat, bytes: Data): Disk
    requires inode in d.files
  {
    d.(files := d.files[inode := d.files[inode] + bytes], stable := d.stable - {inode})
  }

  function Renamed(d: Disk, from: string, to: string): Disk
    requires from in d.entries
  {
    var entries := (d.entries - {from})[to := d.entries[from]];
    d.(entries := entries, since := d.since + [entries])
  }

  function Unlinked(d: Disk, name: string): Disk {
    var entries := d.entries - {name};
    d.(entries := entries, since := d.since + [entries])
  }

  /** An inode number that is not in use. */
  method Unused(used: set<nat>) returns (n: nat)
    ensures n !in used
  {
    n := 0;
    var left := used;
    while n in left
      invariant left <= used && forall m :: m in used && m !in left ==> m < n
      decreases left
    {
      left := left - {n};
      n := n + 1;
    }
  }

  // ---------- Temporary names ----------

  /** `.{name}.tmp-{stamp:x}-{n:x}`. */
  function TempName(name: string, stamp: string, count: string): string {
    "." + name + ".tmp-" + stamp + "-" + count
  }

  lemma TempNameDiffers(name: string, stamp: string, count: string)
    ensures TempName(name, stamp, count) != name
  {
    assert |TempName(name, stamp, count)| > |name|;
  }

  lemma LastDash(a: string, b: string, c: string, d: string)
    requires a + "-" + b == c + "-" + d && '-' !in b && '-' !in d
    ensures a == c && b == d
  {
    var s := a + "-" + b;
    assert s == c + "-" + d;
    assert s[|a|] == '-' && s[|c|] == '-';
    assert forall i :: |a| < i < |s| ==> s[i] == b[i - |a| - 1];
    assert forall i :: |c| < i < |s| ==> s[i] == d[i - |c| - 1];
    assert |a| == |c|;
    assert a == s[..|a|] == c && b == s[|a| + 1..] == d;
  }

  /** Temporaries are hidden files, and two calls share one only if they agree on the name, the time
      and the counter, whose hexadecimal texts hold no dash. */
  lemma TempNamesDistinct(name: string, stamp: string, count: string, name2: string, stamp2: string, count2: string)
    requires '-' !in stamp && '-' !in count && '-' !in stamp2 && '-' !in count2
    ensures TempName(name, stamp, count)[0] == '.'
    ensures TempName(name, stamp, count) == TempName(name2, stamp2, count2) ==>
              name == name2 && stamp == stamp2 && count == count2
  {
    if TempName(name, stamp, count) == TempName(name2, stamp2, count2) {
      LastDash("." + name + ".tmp-" + stamp, count, "." + name2 + ".tmp-" + stamp2, count2);
      var front, front2 := "." + name + ".tmp", "." + name2 + ".tmp";
      assert "." + name + ".tmp-" + stamp == front + "-" + stamp;
      assert "." + name2 + ".tmp-" + stamp2 == front2 + "-" + stamp2;
      LastDash(front, stamp, front2, stamp2);
      assert name == front[1..|front| - 4] && name2 == front2[1..|front2| - 4];
    }
  }

  /** Why the file is synced before the rename: without the sync a crash can leave any bytes at all
      under the name, whether or not some were written. */
  lemma UnsyncedRename(start: Disk, name: string, temporary: string, inode: nat, data: Data, other: Data)
    requires ValidDisk(start) && inode !in start.files
    ensures var empty := Renamed(Created(start, temporary, inode), temporary, name);
      exists entries, files :: CrashImage(empty, entries, files) && FileAt(entries, files, name) == Some(other)
    ensures var d := Renamed(Appended(Created(start, temporary, inode), inode, data), temporary, name);
      exists entries, files :: CrashImage(d, entries, files) && FileAt(entries, files, name) == Some(other)
  {
    AnyBytes(Renamed(Created(start, temporary, inode), temporary, name), name, inode, other);
    AnyBytes(Renamed(Appended(Created(start, temporary, inode), inode, data), temporary, name), name, inode, other);
  }

  lemma AnyBytes(d: Disk, name: string, inode: nat, other: Data)
    requires name in d.entries && d.entries[name] == inode && inode !in d.stable
    requires d.since != [] && d.since[|d.since| - 1] == d.entries
    ensures CrashImage(d, d.entries, d.files[inode := other])
    ensures FileAt(d.entries, d.files[inode := other], name) == Some(other)
  {
    forall n ensures Had(d, n, Entry(d.entries, n)) {
      assert Entry(d.since[|d.since| - 1], n) == Entry(d.entries, n);
    }
  }

  // ---------- The disk at each stage ----------

  /** The running system sees the old file or all of the new one under `name`; the other names and
      every file that existed are as they were. */
  ghost predicate KeptApart(d: Disk, start: Disk, name: string, temporary: string, data: Data) {
    && (Seen(d, name) == Seen(start, name) || Seen(d, name) == Some(data))
    && (forall n :: n != name && n != temporary ==> Entry(d.entries, n) == Entry(start.entries, n))
    && (forall i :: i in start.files ==> i in d.files && d.files[i] == start.files[i])
  }

  ghost predicate OldFilesKept(d: Disk, start: Disk) {
    && (forall i :: i in start.files ==> i in d.files && d.files[i] == start.files[i])
    && start.stable <= d.stable
  }

  /** No name has an entry that it did not have, other than the temporary and the target. */
  ghost predicate OthersKept(d: Disk, start: Disk, name: string, temporary: string) {
    forall n, entry :: n != name && n != temporary && Had(d, n, entry) ==> Had(start, n, entry)
  }

  /** The temporary exists with the bytes written so far; the target is untouched. */
  ghost predicate Staged(d: Disk, start: Disk, name: string, temporary: string, inode: nat, done: Data) {
    && name != temporary && temporary !in start.entries && inode !in start.files
    && inode in d.files && d.files[inode] == done
    && d.entries == start.entries[temporary := inode]
    && (forall entry :: Had(d, name, entry) ==> Had(start, name, entry))
    && OthersKept(d, start, name, temporary) && OldFilesKept(d, start)
  }

  /** The temporary was renamed over the target with all its bytes on the medium. */
  ghost predicate Moved(d: Disk, start: Disk, name: string, temporary: string, inode: nat, data: Data) {
    && name != temporary && temporary !in start.entries && inode !in start.files
    && inode in d.files && d.files[inode] == data && inode in d.stable
    && d.entries == start.entries[name := inode]
    && (forall entry :: Had(d, name, entry) ==> Had(start, name, entry) || entry == Some(inode))
    && OthersKept(d, start, name, temporary) && OldFilesKept(d, start)
  }

  lemma HadNow(d: Disk, name: string)
    requires ValidDisk(d)
    ensures Had(d, name, Entry(d.entries, name))
  {
    assert Entry(d.since[|d.since| - 1], name) == Entry(d.entries, name);
  }

  /** One more change of the directory adds one more entry for every name. */
  lemma HadAfter(d: Disk, later: Disk, entries: Directory, name: string, entry: Option<nat>)
    requires later.since == d.since + [entries]
    ensures Had(later, name, entry) <==> Had(d, name, entry) || entry == Entry(entries, name)
  {
    if Had(d, name, entry) {
      var k :| 0 <= k < |d.since| && Entry(d.since[k], name) == entry;
      assert later.since[k] == d.since[k];
    }
    assert later.since[|d.since|] == entries;
  }

  lemma StagedAppend(d: Disk, start: Disk, name: string, temporary: string, inode: nat, done: Data, bytes: Data)
    requires ValidDisk(start) && Staged(d, start, name, temporary, inode, done)
    ensures Staged(Appended(d, inode, bytes), start, name, temporary, inode, done + bytes)
  {
    assert forall n, entry :: Had(Appended(d, inode, bytes), n, entry) ==> Had(d, n, entry);
  }

  lemma StagedSync(d: Disk, start: Disk, name: string, temporary: string, inode: nat, data: Data)
    requires Staged(d, start, name, temporary, inode, data)
    ensures Staged(d.(stable := d.stable + {inode}), start, name, temporary, inode, data)
  {
    assert forall n, entry :: Had(d.(stable := d.stable + {inode}), n, entry) ==> Had(d, n, entry);
  }

  lemma StagedRename(d: Disk, start: Disk, name: string, temporary: string, inode: nat, data: Data)
    requires ValidDisk(start) && Staged(d, start, name, temporary, inode, data) && inode in d.stable
    ensures Moved(Renamed(d, temporary, name), start, name, temporary, inode, data)
  {
    var later := Renamed(d, temporary, name);
    assert later.entries == start.entries[name := inode];
    forall n, entry | n != temporary && Had(later, n, entry)
      ensures Had(start, n, entry) || (n == name && entry == Some(inode))
    {
      HadAfter(d, later, later.entries, n, entry);
      HadNow(start, n);
    }
  }

  lemma MovedSync(d: Disk, start: Disk, name: string, temporary: string, inode: nat, data: Data)
    requires ValidDisk(start) && Moved(d, start, name, temporary, inode, data)
    ensures Moved(d.(since := [d.entries]), start, name, temporary, inode, data)
  {
    forall n | n != name && n != temporary
      ensures Had(start, n, Entry(d.entries, n))
    {
      HadNow(start, n);
    }
  }

  /** The same entries, except for one name. */
  function With(entries: Directory, name: string, entry: Option<nat>): Directory {
    if entry.Some? then entries[name := entry.value] else entries - {name}
  }

  lemma WithEntry(entries: Directory, name: string, entry: Option<nat>, n: string)
    ensures Entry(With(entries, name, entry), n) == if n == name then entry else Entry(entries, n)
  {
  }

  /** If every entry the name had is one it had before or the finished new file, and the other names
      have no new entry, a crash leaves what it could have left before or the new bytes. */
  lemma CrashChoices(d: Disk, start: Disk, name: string, temporary: string, inode: nat, data: Data)
    requires ValidDisk(start) && OldFilesKept(d, start) && OthersKept(d, start, name, temporary) && name != temporary
    requires forall entry :: Had(d, name, entry) ==>
      Had(start, name, entry)
      || (entry == Some(inode) && inode in d.stable && inode in d.files && d.files[inode] == data)
    ensures CrashSafe(d, start, name, temporary, data)
  {
    forall entries, files | CrashImage(d, entries, files)
      ensures LeftAsBefore(start, entries, files, name, temporary, data)
    {
      var entry := if Had(start, name, Entry(entries, name)) then Entry(entries, name) else Entry(start.entries, name);
      HadNow(start, name);
      assert Had(d, name, Entry(entries, name));
      var before := BeforeCrash(d, start, name, temporary, entries, files, entry);
      assert LeftBefore(start, before, entries, files, name, temporary, data);
    }
  }

  lemma BeforeCrash(d: Disk, start: Disk, name: string, temporary: string,
                    entries: Directory, files: map<nat, Data>, entry: Option<nat>)
    returns (before: Directory)
    requires ValidDisk(start) && OldFilesKept(d, start) && OthersKept(d, start, name, temporary) && name != temporary
    requires CrashImage(d, entries, files) && Had(start, name, entry)
    ensures CrashImage(start, before, files)
    ensures SameElsewhere(before, entries, name, temporary) && Entry(before, name) == entry
  {
    hide Had, With, Entry, ValidDisk;
    var middle := With(entries, temporary, Entry(start.entries, temporary));
    before := With(middle, name, entry);
    HadNow(start, temporary);
    forall n
      ensures Entry(before, n) ==
        if n == name then entry else if n == temporary then Entry(start.entries, n) else Entry(entries, n)
      ensures Had(start, n, Entry(before, n))
    {
      WithEntry(entries, temporary, Entry(start.entries, temporary), n);
      WithEntry(middle, name, entry, n);
      assert Had(d, n, Entry(entries, n));
    }
    assert forall i :: i in start.stable && i in start.files ==> i in files && files[i] == start.files[i];
    assert SameElsewhere(before, entries, name, temporary);
    assert CrashImage(start, before, files);
  }

  /** What that means for the files: every other name has what a crash of the start disk could have
      left there, and so has the name unless it has the new bytes. */
  lemma CrashedFiles(d: Disk, start: Disk, name: string, temporary: string, data: Data,
                     entries: Directory, files: map<nat, Data>)
    returns (before: Directory)
    requires CrashSafe(d, start, name, temporary, data) && CrashImage(d, entries, files)
    ensures CrashImage(start, before, files)
    ensures forall n :: n != name && n != temporary ==> FileAt(entries, files, n) == FileAt(before, files, n)
    ensures FileAt(entries, files, name) == FileAt(before, files, name) || FileAt(entries, files, name) == Some(data)
  {
    assert LeftAsBefore(start, entries, files, name, temporary, data);
    before :| LeftBefore(start, before, entries, files, name, temporary, data);
    forall n | n != name && n != temporary
      ensures FileAt(entries, files, n) == FileAt(before, files, n)
    {
      assert Entry(before, n) == Entry(entries, n);
    }
  }

  /** If the old file was on the medium, the name holds the old file or the new bytes. */
  lemma SettledSafe(d: Disk, start: Disk, name: string, temporary: string, data: Data)
    requires ValidDisk(start) && Settled(start, name) && CrashSafe(d, start, name, temporary, data)
    ensures OldOrNew(d, name, Seen(start, name), data)
  {
    forall entries, files | CrashImage(d, entries, files)
      ensures FileAt(entries, files, name) == Seen(start, name) || FileAt(entries, files, name) == Some(data)
    {
      assert LeftAsBefore(start, entries, files, name, temporary, data);
      var before :| LeftBefore(start, before, entries, files, name, temporary, data);
      assert Had(start, name, Entry(before, name));
    }
  }

  lemma SettledAll(history: seq<Disk>, start: Disk, name: string, temporary: string, data: Data)
    requires ValidDisk(start)
    requires forall k :: 0 <= k < |history| ==> Good(history[k], start, name, temporary, data)
    ensures Settled(start, name) ==>
      forall k :: 0 <= k < |history| ==> OldOrNew(history[k], name, Seen(start, name), data)
  {
    if Settled(start, name) {
      forall k | 0 <= k < |history|
        ensures OldOrNew(history[k], name, Seen(start, name), data)
      {
        SettledSafe(history[k], start, name, temporary, data);
      }
    }
  }

  lemma HadStill(d: Disk, start: Disk, name: string, entry: Option<nat>)
    requires start.since <= d.since && Had(start, name, entry)
    ensures Had(d, name, entry)
  {
    var k :| 0 <= k < |start.since| && Entry(start.since[k], name) == entry;
    assert d.since[k] == start.since[k];
  }

  /** A target that has no new entry is settled if it was. */
  lemma SettledKept(d: Disk, start: Disk, name: string, inode: nat)
    requires ValidDisk(start) && Revertible(d, start, inode) && OldFilesKept(d, start) && inode !in start.files
    requires Entry(d.entries, name) == Entry(start.entries, name)
    requires forall entry :: Had(d, name, entry) ==> Had(start, name, entry)
    ensures Settled(d, name) <==> Settled(start, name)
  {
    forall entry
      ensures Had(d, name, entry) <==> Had(start, name, entry)
    {
      if Had(start, name, entry) { HadStill(d, start, name, entry); }
    }
    if name in start.entries {
      assert name in d.entries && d.entries[name] == start.entries[name];
      assert start.entries[name] in start.files;
    }
  }

  /** As long as a crash may bring back all it could at the start, the new bytes are durable only if
      they were before. */
  lemma NotYetDurable(d: Disk, start: Disk, name: string, temporary: string, inode: nat, data: Data)
    requires ValidDisk(start) && Revertible(d, start, inode) && inode !in start.files
    requires Good(d, start, name, temporary, data)
    ensures Durable(d, name, data) <==> Durable(start, name, data)
  {
    if Durable(d, name, data) {
      forall entries, files | CrashImage(start, entries, files)
        ensures FileAt(entries, files, name) == Some(data)
      {
        StillPossible(d, start, name, temporary, inode, data, entries, files);
      }
    }
    if Durable(start, name, data) {
      forall entries, files | CrashImage(d, entries, files)
        ensures FileAt(entries, files, name) == Some(data)
      {
        var _ := CrashedFiles(d, start, name, temporary, data, entries, files);
      }
    }
  }

  /** A crash of the start disk is one of the later disk too, but for the data of the new file. */
  lemma StillPossible(d: Disk, start: Disk, name: string, temporary: string, inode: nat, data: Data,
                      entries: Directory, files: map<nat, Data>)
    requires ValidDisk(start) && Revertible(d, start, inode) && inode !in start.files
    requires Good(d, start, name, temporary, data) && CrashImage(start, entries, files)
    ensures exists later ::
      CrashImage(d, entries, later) && FileAt(entries, later, name) == FileAt(entries, files, name)
  {
    var later := if inode in d.files then files[inode := d.files[inode]] else files;
    forall n
      ensures Had(d, n, Entry(entries, n)) && Entry(entries, n) != Some(inode)
    {
      HadStill(d, start, n, Entry(entries, n));
    }
    assert CrashImage(d, entries, later);
    assert Entry(entries, name) != Some(inode);
  }

  /** One call: the disk it found and the disk at some point of it, or after it. */
  datatype Call = Call(found: Disk, left: Disk, name: string, temporary: string, data: Data)

  /** Calls one after another; a call may find what a failed one left. */
  ghost predicate Linked(start: Disk, calls: seq<Call>, last: Disk) {
    if calls == [] then last == start
    else
      var call := calls[|calls| - 1];
      && Linked(start, calls[..|calls| - 1], call.found)
      && last == call.left
      && CrashSafe(call.left, call.found, call.name, call.temporary, call.data)
  }

  /** The name is a temporary, or it has its entry from before, or all the bytes of one of the calls. */
  ghost predicate LeftByCalls(calls: seq<Call>, before: Directory, entries: Directory, files: map<nat, Data>,
                              name: string)
  {
    || (exists call :: call in calls && call.temporary == name)
    || Entry(before, name) == Entry(entries, name)
    || (exists call :: call in calls && call.name == name && FileAt(entries, files, name) == Some(call.data))
  }

  ghost predicate LeftBeforeCalls(start: Disk, calls: seq<Call>, before: Directory, entries: Directory,
                                  files: map<nat, Data>)
  {
    CrashImage(start, before, files) && forall n :: LeftByCalls(calls, before, entries, files, n)
  }

  /** After any calls, whatever they did, a crash leaves each name as a crash before all of them could
      have left it, or with all the bytes of a call for that name. */
  lemma {:induction false} CallsCompose(start: Disk, calls: seq<Call>, last: Disk, entries: Directory,
                                        files: map<nat, Data>)
    requires Linked(start, calls, last) && CrashImage(last, entries, files)
    ensures exists before :: LeftBeforeCalls(start, calls, before, entries, files)
  {
    if calls == [] {
      assert LeftBeforeCalls(start, calls, entries, entries, files);
    } else {
      var call, earlier := calls[|calls| - 1], calls[..|calls| - 1];
      assert LeftAsBefore(call.found, entries, files, call.name, call.temporary, call.data);
      var middle :| LeftBefore(call.found, middle, entries, files, call.name, call.temporary, call.data);
      CallsCompose(start, earlier, call.found, middle, files);
      var before :| LeftBeforeCalls(start, earlier, before, middle, files);
      assert calls == earlier + [call];
      OneMoreCall(start, earlier, call, before, middle, entries, files);
    }
  }

  lemma OneMoreCall(start: Disk, earlier: seq<Call>, call: Call, before: Directory, middle: Directory,
                    entries: Directory,
                    files: map<nat, Data>)
    requires LeftBeforeCalls(start, earlier, before, middle, files)
    requires LeftBefore(call.found, middle, entries, files, call.name, call.temporary, call.data)
    ensures LeftBeforeCalls(start, earlier + [call], before, entries, files)
  {
    hide CrashImage;
    assert call in earlier + [call];
    assert forall c :: c in earlier ==> c in earlier + [call];
    forall n
      ensures LeftByCalls(earlier + [call], before, entries, files, n)
    {
      assert LeftByCalls(earlier, before, middle, files, n);
      if n != call.name && n != call.temporary { assert Entry(middle, n) == Entry(entries, n); }
    }
  }

  lemma StartSafe(start: Disk, name: string, temporary: string, data: Data)
    requires ValidDisk(start) && name != temporary
    ensures Good(start, start, name, temporary, data)
  {
    CrashChoices(start, start, name, temporary, 0, data);
  }

  lemma CreatedStaged(start: Disk, name: string, temporary: string, inode: nat)
    requires ValidDisk(start) && name != temporary
    requires temporary !in start.entries && inode !in start.files
    ensures Staged(Created(start, temporary, inode), start, name, temporary, inode, [])
    ensures Revertible(Created(start, temporary, inode), start, inode)
  {
    var later := Created(start, temporary, inode);
    forall n, entry | n != temporary && Had(later, n, entry)
      ensures Had(start, n, entry)
    {
      HadAfter(start, later, later.entries, n, entry);
      HadNow(start, n);
    }
  }

  lemma StagedSafe(d: Disk, start: Disk, name: string, temporary: string, inode: nat, done: Data, data: Data)
    requires ValidDisk(start) && Staged(d, start, name, temporary, inode, done)
    ensures Good(d, start, name, temporary, data)
    ensures Seen(d, name) == Seen(start, name)
    ensures Revertible(d, start, inode) ==> (Settled(d, name) <==> Settled(start, name))
  {
    if Revertible(d, start, inode) { SettledKept(d, start, name, inode); }
    CrashChoices(d, start, name, temporary, inode, data);
  }

  lemma MovedSafe(d: Disk, start: Disk, name: string, temporary: string, inode: nat, data: Data)
    requires ValidDisk(start) && Moved(d, start, name, temporary, inode, data)
    ensures Good(d, start, name, temporary, data)
    ensures Revertible(d, start, inode) ==> !Settled(d, name)
  {
    CrashChoices(d, start, name, temporary, inode, data);
    if Revertible(d, start, inode) {
      HadNow(start, name);
      HadStill(d, start, name, Entry(start.entries, name));
      assert Entry(start.entries, name) != Some(inode);
    }
  }

  lemma SyncedSafe(d: Disk, start: Disk, name: string, temporary: string, inode: nat, data: Data)
    requires ValidDisk(start) && Moved(d, start, name, temporary, inode, data) && d.since == [d.entries]
    ensures Good(d, start, name, temporary, data)
    ensures Durable(d, name, data) && Seen(d, name) == Some(data) && temporary !in d.entries
    ensures Settled(d, name)
  {
    MovedSafe(d, start, name, temporary, inode, data);
    forall entries, files | CrashImage(d, entries, files)
      ensures FileAt(entries, files, name) == Some(data)
    {
      assert Had(d, name, Entry(entries, name));
    }
  }

  /** Unlinking the temporary after a failure. */
  lemma RemovedSafe(d: Disk, start: Disk, name: string, temporary: string, inode: nat, done: Data, data: Data)
    requires ValidDisk(start) && Revertible(d, start, inode)
    requires Staged(d, start, name, temporary, inode, done)
    ensures Good(Unlinked(d, temporary), start, name, temporary, data)
    ensures Seen(Unlinked(d, temporary), name) == Seen(start, name)
    ensures Revertible(Unlinked(d, temporary), start, inode)
    ensures Settled(Unlinked(d, temporary), name) <==> Settled(start, name)
  {
    var later := Unlinked(d, temporary);
    forall n, entry | n != temporary && Had(later, n, entry)
      ensures Had(start, n, entry)
    {
      HadAfter(d, later, later.entries, n, entry);
      HadNow(start, n);
    }
    CrashChoices(later, start, name, temporary, inode, data);
    SettledKept(later, start, name, inode);
  }
}
