/**
 Files on a disk that can lose power. A directory binds paths to files; what is written to a
 file, and every change of the directory, is visible at once but survives a power cut only if
 it was synced or written back before.
 */
module Disks {
  import opened Bytes

  /** A file in a directory; the name has no slash and is not "..". */
  datatype Path = Path(dir: string, name: string)

  type Directory = map<Path, nat>

  datatype File = File(contents: seq<byte>, synced: bool)

  /** `past` lists the directory's states since it was last durable, the present one last. */
  datatype DiskState = DiskState(dir: Directory, files: seq<File>, past: seq<Directory>)

  ghost predicate IsSound(d: DiskState) {
    && d.past != [] && d.past[|d.past| - 1] == d.dir
    && forall k, p :: 0 <= k < |d.past| && p in d.past[k] ==> d.past[k][p] < |d.files|
  }

  type Disk = d: DiskState | IsSound(d) witness DiskState(map[], [], [map[]])

  const EMPTY_DISK: Disk := DiskState(map[], [], [map[]])

  function Contents(disk: Disk, path: Path): seq<byte>
    requires path in disk.dir
  {
    assert disk.past[|disk.past| - 1] == disk.dir;
    disk.files[disk.dir[path]].contents
  }

  // -------------------------------------------------------------------- operations

  /** An operation works, reports an error, or is cut off by the end of the process; `part` of it was done. */
  datatype Fate = Works | Fails(part: nat) | Dies(part: nat)

  datatype Completion = Done | Errored | Dead

  function CompletionOf(fate: Fate): Completion {
    match fate
    case Works => Done
    case Fails(_) => Errored
    case Dies(_) => Dead
  }

  /** Whether the whole of an operation took effect that has no parts. */
  predicate TookEffect(fate: Fate) {
    fate.Works? || (fate.Dies? && fate.part > 0)
  }

  function Least(a: nat, b: nat): nat {
    if a < b then a else b
  }

  /** A new file bound to the path. */
  function WithFile(disk: Disk, path: Path, file: File): Disk {
    var dir := disk.dir[path := |disk.files|];
    DiskState(dir, disk.files + [file], disk.past + [dir])
  }

  function WithDirectory(disk: Disk, dir: Directory): Disk
    requires forall p :: p in dir ==> dir[p] < |disk.files|
  {
    disk.(dir := dir, past := disk.past + [dir])
  }

  function Removed(disk: Disk, path: Path): Disk {
    assert disk.past[|disk.past| - 1] == disk.dir;
    WithDirectory(disk, disk.dir - {path})
  }

  function Moved(disk: Disk, from: Path, to: Path): Disk
    requires from in disk.dir
  {
    assert disk.past[|disk.past| - 1] == disk.dir;
    WithDirectory(disk, (disk.dir - {from})[to := disk.dir[from]])
  }

  function AfterCreate(disk: Disk, path: Path, fate: Fate): (Disk, Completion) {
    match fate
    case Works => if path in disk.dir then (disk, Errored) else (WithFile(disk, path, File([], false)), Done)
    case Fails(_) => (disk, Errored)
    case Dies(part) => (if path !in disk.dir && part > 0 then WithFile(disk, path, File([], false)) else disk, Dead)
  }

  function AfterWrite(disk: Disk, file: nat, bytes: seq<byte>, fate: Fate): (Disk, Completion)
    requires file < |disk.files|
  {
    var written := if fate.Works? then bytes else bytes[..Least(fate.part, |bytes|)];
    (disk.(files := disk.files[file := File(written, false)]), CompletionOf(fate))
  }

  function AfterSync(disk: Disk, file: nat, fate: Fate): (Disk, Completion)
    requires file < |disk.files|
  {
    (if TookEffect(fate) then disk.(files := disk.files[file := disk.files[file].(synced := true)]) else disk,
     CompletionOf(fate))
  }

  function AfterRename(disk: Disk, from: Path, to: Path, fate: Fate): (Disk, Completion)
    requires from in disk.dir
  {
    (if TookEffect(fate) then Moved(disk, from, to) else disk, CompletionOf(fate))
  }

  function AfterRemove(disk: Disk, path: Path, fate: Fate): (Disk, Completion) {
    (if TookEffect(fate) then Removed(disk, path) else disk, CompletionOf(fate))
  }

  class FileSystem {
    var disk: Disk

    constructor (disk: Disk)
      ensures this.disk == disk
    {
      this.disk := disk;
    }

    /** Creates a file that must not exist yet; `file` is the handle to it. */
    method CreateNew(path: Path, fate: Fate) returns (result: Completion, file: nat)
      modifies this
      ensures (disk, result) == AfterCreate(old(disk), path, fate)
      ensures result.Done? ==> file == |old(disk).files| < |disk.files|
    {
      file := |disk.files|;
      if fate.Fails? || (fate.Works? && path in disk.dir) {
        return Errored, file;
      }
      if path !in disk.dir && TookEffect(fate) {
        disk := WithFile(disk, path, File([], false));
      }
      return if fate.Works? then Done else Dead, file;
    }

    method WriteAll(file: nat, bytes: seq<byte>, fate: Fate) returns (result: Completion)
      requires file < |disk.files|
      modifies this
      ensures (disk, result) == AfterWrite(old(disk), file, bytes, fate)
    {
      match fate {
        case Works => disk := disk.(files := disk.files[file := File(bytes, false)]);
        case Fails(part) => disk := disk.(files := disk.files[file := File(bytes[..Least(part, |bytes|)], false)]);
        case Dies(part) => disk := disk.(files := disk.files[file := File(bytes[..Least(part, |bytes|)], false)]);
      }
      return CompletionOf(fate);
    }

    method SyncAll(file: nat, fate: Fate) returns (result: Completion)
      requires file < |disk.files|
      modifies this
      ensures (disk, result) == AfterSync(old(disk), file, fate)
    {
      if TookEffect(fate) {
        disk := disk.(files := disk.files[file := disk.files[file].(synced := true)]);
      }
      return CompletionOf(fate);
    }

    method Rename(from: Path, to: Path, fate: Fate) returns (result: Completion)
      requires from in disk.dir
      modifies this
      ensures (disk, result) == AfterRename(old(disk), from, to, fate)
    {
      if TookEffect(fate) {
        disk := Moved(disk, from, to);
      }
      return CompletionOf(fate);
    }

    method Remove(path: Path, fate: Fate) returns (result: Completion)
      modifies this
      ensures (disk, result) == AfterRemove(old(disk), path, fate)
    {
      if TookEffect(fate) {
        disk := Removed(disk, path);
      }
      return CompletionOf(fate);
    }
  }

  // --------------------------------------------------------------------- durability

  /**
   What a power cut may leave. A synced file keeps its contents, any other may hold anything.
   Each entry of the directory may fall back, on its own, to any state since the directory was
   last durable. What is left is durable.
   */
  ghost predicate CutMayLeave(before: Disk, after: Disk) {
    && |after.files| == |before.files| && after.past == [after.dir]
    && (forall i :: 0 <= i < |before.files| ==>
          after.files[i].synced && (before.files[i].synced ==> after.files[i].contents == before.files[i].contents))
    && (forall p :: p in after.dir ==> EntryWas(before, p, Some(after.dir[p])))
    && (forall p :: p !in after.dir ==> EntryWas(before, p, None))
  }

  /** The path's entry in one of the states the directory may fall back to. */
  ghost predicate EntryWas(disk: Disk, path: Path, entry: Option<nat>) {
    exists k :: 0 <= k < |disk.past| && entry == (if path in disk.past[k] then Some(disk.past[k][path]) else None)
  }

  /** The system writes everything back. */
  function WrittenBack(disk: Disk): Disk {
    assert disk.past[|disk.past| - 1] == disk.dir;
    DiskState(disk.dir,
              seq(|disk.files|, i requires 0 <= i < |disk.files| => disk.files[i].(synced := true)),
              [disk.dir])
  }

  /** One thing a cut may leave: the directory of long ago, and in the file numbered `torn` nothing unless synced. */
  function RolledBack(disk: Disk, k: nat, torn: nat): Disk
    requires k < |disk.past|
  {
    DiskState(disk.past[k],
              seq(|disk.files|, i requires 0 <= i < |disk.files| =>
                if i == torn && !disk.files[i].synced then File([], true) else disk.files[i].(synced := true)),
              [disk.past[k]])
  }

  lemma CutMayRollBack(disk: Disk, k: nat, torn: nat)
    requires k < |disk.past|
    ensures CutMayLeave(disk, RolledBack(disk, k, torn))
  {
    var after := RolledBack(disk, k, torn);
    forall p | p in after.dir ensures EntryWas(disk, p, Some(after.dir[p])) {
      assert p in disk.past[k];
    }
    forall p | p !in after.dir ensures EntryWas(disk, p, None) {
      assert p !in disk.past[k];
    }
  }
}
