/**
 The identity file: how a key is read from it or created through a temporary file that is
 written, synced and renamed. Every operation on the file system may fail or be the last
 thing the process does, and between runs the power may fail; one process runs at a time.
 */
module IdentityFile {
  import opened Bytes
  import opened Disks
  import opened SecretKeyText

  /** Where the last dot of the name is, if it is not the first character; else 0. */
  function LastDot(name: string): (i: nat)
    ensures i == 0 || (i < |name| && name[i] == '.' && forall j :: i < j < |name| ==> name[j] != '.')
    ensures i == 0 ==> forall j :: 0 < j < |name| ==> name[j] != '.'
  {
    if |name| <= 1 then 0
    else if name[|name| - 1] == '.' then |name| - 1
    else LastDot(name[..|name| - 1])
  }

  /** The path with its extension replaced by "tmp". */
  function TempPath(path: Path): Path {
    Path(path.dir, (if LastDot(path.name) == 0 then path.name else path.name[..LastDot(path.name)]) + ".tmp")
  }

  /** The temporary file is the file itself exactly for names that already end in ".tmp". */
  lemma TempPathDiffers(path: Path)
    ensures TempPath(path) == path <==> |path.name| > 4 && path.name[|path.name| - 4..] == ".tmp"
  {
    var name, dot := path.name, LastDot(path.name);
    if |name| > 4 && name[|name| - 4..] == ".tmp" {
      assert name[|name| - 4] == '.' && name[|name| - 3] == 't'
             && name[|name| - 2] == 'm' && name[|name| - 1] == 'p' by {
        assert forall k :: 0 <= k < 4 ==> name[|name| - 4 + k] == ".tmp"[k];
      }
      assert dot == |name| - 4;
    }
  }

  /** What stands behind the last dot of the name gives way to "tmp"; a dot that starts the name does not count. */
  lemma TempPathMeaning(dir: string, stem: string, extension: string)
    requires stem != []
    ensures '.' !in extension ==> TempPath(Path(dir, stem + "." + extension)) == Path(dir, stem + ".tmp")
    ensures '.' !in stem[1..] ==> TempPath(Path(dir, stem)) == Path(dir, stem + ".tmp")
  {
    var name := stem + "." + extension;
    if '.' !in extension {
      assert name[|stem|] == '.' && forall j :: |stem| < j < |name| ==> name[j] == extension[j - |stem| - 1];
      assert LastDot(name) == |stem| && name[..|stem|] == stem;
    }
    if '.' !in stem[1..] {
      assert forall j :: 0 < j < |stem| ==> stem[j] == stem[1..][j - 1];
    }
  }

  // -------------------------------------------------------------------------- one run

  /** The fates of the operations of one run. `statFails`: the file is taken to be absent. */
  datatype Plan = Plan(statFails: bool, read: Fate, mkdir: Fate, create: Fate, write: Fate,
                       flush: Fate, sync: Fate, remove: Fate, rename: Fate)

  const CLEAN: Plan := Plan(false, Works, Works, Works, Works, Works, Works, Works, Works)

  datatype Outcome = Returned(key: SecretKey) | Failed | Crashed

  /** Creating, writing, flushing and syncing the temporary file. */
  function AfterTemp(disk: Disk, temp: Path, bytes: seq<byte>, plan: Plan): (Disk, Completion)
  {
    var (created, creation) := AfterCreate(disk, temp, plan.create);
    if !creation.Done? then (created, creation)
    else
      var file := |disk.files|;
      var (written, writing) := AfterWrite(created, file, bytes, plan.write);
      if !writing.Done? then (written, writing)
      else if !plan.flush.Works? then (written, CompletionOf(plan.flush))
      else AfterSync(written, file, plan.sync)
  }

  /** At most one new file was bound to the temporary path; when all worked, whole and synced. */
  lemma AfterTempMeaning(disk: Disk, temp: Path, bytes: seq<byte>, plan: Plan) returns (file: File)
    ensures var (after, result) := AfterTemp(disk, temp, bytes, plan);
            && (after == disk || (temp !in disk.dir && after == WithFile(disk, temp, file)))
            && (result.Done? <==> temp !in disk.dir && plan.create.Works? && plan.write.Works?
                                  && plan.flush.Works? && plan.sync.Works?)
            && (result.Done? ==> after == WithFile(disk, temp, File(bytes, true)))
  {
    var (after, result) := AfterTemp(disk, temp, bytes, plan);
    var created := WithFile(disk, temp, File([], false));
    file := if |after.files| > |disk.files| then after.files[|disk.files|] else File([], false);
    if after != disk {
      assert after.files == disk.files + [file];
    }
  }

  function AfterRun(disk: Disk, path: Path, generated: SecretKey, plan: Plan): (Disk, Outcome)
  {
    if path in disk.dir && !plan.statFails then
      (disk, match plan.read
             case Works => (match Decode(Contents(disk, path)) case Ok(key) => Returned(key) case Err(_) => Failed)
             case Fails(_) => Failed
             case Dies(_) => Crashed)
    else if !plan.mkdir.Works? then (disk, if plan.mkdir.Fails? then Failed else Crashed)
    else
      var temp := TempPath(path);
      var (written, result) := AfterTemp(disk, temp, Encoded(generated), plan);
      match result
      case Dead => (written, Crashed)
      case Errored =>
        var (removed, removal) := AfterRemove(written, temp, plan.remove);
        (removed, if removal.Dead? then Crashed else Failed)
      case Done =>
        var (renamed, renaming) := AfterRename(written, temp, path, plan.rename);
        (renamed, match renaming case Done => Returned(generated) case Errored => Failed case Dead => Crashed)
  }

  method WriteTemp(fs: FileSystem, temp: Path, bytes: seq<byte>, plan: Plan) returns (result: Completion)
    modifies fs
    ensures (fs.disk, result) == AfterTemp(old(fs.disk), temp, bytes, plan)
  {
    var file;
    result, file := fs.CreateNew(temp, plan.create);
    if !result.Done? { return; }
    result := fs.WriteAll(file, bytes, plan.write);
    if !result.Done? { return; }
    result := CompletionOf(plan.flush);
    if !result.Done? { return; }
    result := fs.SyncAll(file, plan.sync);
  }

  method LoadOrCreateSecretKey(fs: FileSystem, path: Path, generated: SecretKey, plan: Plan) returns (outcome: Outcome)
    modifies fs
    ensures (fs.disk, outcome) == AfterRun(old(fs.disk), path, generated, plan)
  {
    if path in fs.disk.dir && !plan.statFails {
      if plan.read.Fails? {
        return Failed;
      }
      if plan.read.Dies? {
        return Crashed;
      }
      var key := DecodeSecretKey(Contents(fs.disk, path));
      return if key.Ok? then Returned(key.value) else Failed;
    }
    if !plan.mkdir.Works? {
      return if plan.mkdir.Fails? then Failed else Crashed;
    }
    var encoded := EncodeSecretKey(generated);
    var temp := TempPath(path);
    ghost var _ := AfterTempMeaning(fs.disk, temp, encoded, plan);
    var result := WriteTemp(fs, temp, encoded, plan);
    if result.Dead? {
      return Crashed;
    }
    if result.Errored? {
      result := fs.Remove(temp, plan.remove);
      return if result.Dead? then Crashed else Failed;
    }
    result := fs.Rename(temp, path, plan.rename);
    match result
    case Dead => return Crashed;
    case Errored => return Failed;
    case Done => return Returned(generated);
  }

  // -------------------------------------------------------------------- what is whole

  ghost predicate IsEncoded(contents: seq<byte>) {
    exists key: SecretKey :: contents == Encoded(key)
  }

  /** The file is absent or holds one complete encoded key. */
  ghost predicate Whole(disk: Disk, path: Path) {
    path in disk.dir ==> IsEncoded(Contents(disk, path))
  }

  /** So it is, synced, in every state of the directory that a power cut may fall back to. */
  ghost predicate DurablyWhole(disk: Disk, path: Path) {
    forall k :: 0 <= k < |disk.past| && path in disk.past[k] ==>
                  disk.files[disk.past[k][path]].synced && IsEncoded(disk.files[disk.past[k][path]].contents)
  }

  lemma DurablyWholeIsWhole(disk: Disk, path: Path)
    requires DurablyWhole(disk, path)
    ensures Whole(disk, path)
  {
    assert disk.past[|disk.past| - 1] == disk.dir;
  }

  lemma CutKeepsWhole(before: Disk, after: Disk, path: Path)
    requires DurablyWhole(before, path) && CutMayLeave(before, after)
    ensures DurablyWhole(after, path)
  {
    if path in after.dir {
      assert EntryWas(before, path, Some(after.dir[path]));
    }
  }

  lemma BackKeepsWhole(disk: Disk, path: Path)
    requires DurablyWhole(disk, path)
    ensures DurablyWhole(WrittenBack(disk), path)
  {
    assert disk.past[|disk.past| - 1] == disk.dir;
  }

  lemma OtherFileKeepsWhole(disk: Disk, path: Path, other: Path, file: File)
    requires DurablyWhole(disk, path) && other != path
    ensures DurablyWhole(WithFile(disk, other, file), path)
  {
    assert disk.past[|disk.past| - 1] == disk.dir;
  }

  lemma RemovalKeepsWhole(disk: Disk, path: Path, other: Path)
    requires DurablyWhole(disk, path) && other != path
    ensures DurablyWhole(Removed(disk, other), path)
  {
    assert disk.past[|disk.past| - 1] == disk.dir;
  }

  lemma MoveKeepsWhole(disk: Disk, path: Path, other: Path)
    requires DurablyWhole(disk, path) && other in disk.dir
    requires disk.dir[other] < |disk.files|
    requires disk.files[disk.dir[other]].synced && IsEncoded(disk.files[disk.dir[other]].contents)
    ensures DurablyWhole(Moved(disk, other, path), path)
  {
  }

  /** Writing, syncing where `synced` says so, and renaming: how a key gets to its place. */
  function Installed(disk: Disk, path: Path, key: SecretKey, synced: bool): Disk
  {
    Moved(WithFile(disk, TempPath(path), File(Encoded(key), synced)), TempPath(path), path)
  }

  /** The run looks for no existing file, or is told there is none, and gets as far as the rename. */
  predicate Installs(disk: Disk, path: Path, plan: Plan) {
    && (path !in disk.dir || plan.statFails)
    && plan.mkdir.Works? && plan.create.Works? && TempPath(path) !in disk.dir
    && plan.write.Works? && plan.flush.Works? && plan.sync.Works? && TookEffect(plan.rename)
  }

  /** Unless a run installs its key, it leaves the path bound as it was. */
  lemma RunMeaning(disk: Disk, path: Path, generated: SecretKey, plan: Plan)
    requires TempPath(path) != path
    ensures var (after, outcome) := AfterRun(disk, path, generated, plan);
            if Installs(disk, path, plan) then
              && after == Installed(disk, path, generated, true) && (outcome.Returned? ==> outcome.key == generated)
              && path in after.dir && Contents(after, path) == Encoded(generated)
            else
              && (path in after.dir <==> path in disk.dir)
              && (path in disk.dir ==> Contents(after, path) == Contents(disk, path))
              && (outcome.Returned? ==> path in disk.dir && Decode(Contents(disk, path)) == Ok(outcome.key))
  {
    assert disk.past[|disk.past| - 1] == disk.dir;
    if (path !in disk.dir || plan.statFails) && plan.mkdir.Works? {
      var _ := AfterTempMeaning(disk, TempPath(path), Encoded(generated), plan);
    }
  }

  predicate NothingDies(plan: Plan) {
    && !plan.read.Dies? && !plan.mkdir.Dies? && !plan.create.Dies? && !plan.write.Dies?
    && !plan.flush.Dies? && !plan.sync.Dies? && !plan.remove.Dies? && !plan.rename.Dies?
  }

  /**
   A run that nothing kills does not crash. If it fails it leaves no temporary file behind,
   unless the removal fails too or it is the rename that failed.
   */
  lemma FailedRunCleansUp(disk: Disk, path: Path, generated: SecretKey, plan: Plan)
    requires TempPath(path) != path && NothingDies(plan)
    ensures var (after, outcome) := AfterRun(disk, path, generated, plan);
            && !outcome.Crashed?
            && ((path !in disk.dir || plan.statFails) && plan.mkdir.Works? && outcome.Failed? && plan.remove.Works? ==>
                  (TempPath(path) in after.dir <==> AfterTemp(disk, TempPath(path), Encoded(generated), plan).1.Done?))
  {
    var _ := AfterTempMeaning(disk, TempPath(path), Encoded(generated), plan);
  }

  lemma RunKeepsWhole(disk: Disk, path: Path, generated: SecretKey, plan: Plan)
    requires TempPath(path) != path && DurablyWhole(disk, path)
    ensures DurablyWhole(AfterRun(disk, path, generated, plan).0, path)
  {
    if (path !in disk.dir || plan.statFails) && plan.mkdir.Works? {
      var temp := TempPath(path);
      var file := AfterTempMeaning(disk, temp, Encoded(generated), plan);
      var (written, result) := AfterTemp(disk, temp, Encoded(generated), plan);
      OtherFileKeepsWhole(disk, path, temp, file);
      RemovalKeepsWhole(written, path, temp);
      if result.Done? {
        assert IsEncoded(Encoded(generated));
        MoveKeepsWhole(written, path, temp);
      }
    }
  }

  // ------------------------------------------------------------------------ every run

  /** A run, a power cut and what it left, or the system writing everything back. */
  datatype Event = Run(generated: SecretKey, plan: Plan) | PowerCut(left: Disk) | WriteBack

  datatype World = World(disk: Disk, returned: seq<SecretKey>)

  /** A cut that cannot leave what it is said to leave does not happen. */
  ghost function Next(w: World, path: Path, event: Event): World {
    match event
    case WriteBack => w.(disk := WrittenBack(w.disk))
    case PowerCut(left) => if CutMayLeave(w.disk, left) then w.(disk := left) else w
    case Run(generated, plan) =>
      var (disk, outcome) := AfterRun(w.disk, path, generated, plan);
      World(disk, if outcome.Returned? then w.returned + [outcome.key] else w.returned)
  }

  ghost function After(disk: Disk, path: Path, events: seq<Event>): World {
    if events == [] then World(disk, [])
    else Next(After(disk, path, events[..|events| - 1]), path, events[|events| - 1])
  }

  lemma NextKeepsWhole(w: World, path: Path, event: Event)
    requires TempPath(path) != path && DurablyWhole(w.disk, path)
    ensures DurablyWhole(Next(w, path, event).disk, path)
  {
    match event
    case WriteBack => BackKeepsWhole(w.disk, path);
    case Run(generated, plan) => RunKeepsWhole(w.disk, path, generated, plan);
    case PowerCut(left) =>
      if CutMayLeave(w.disk, left) {
        CutKeepsWhole(w.disk, left, path);
      }
  }

  /**
   However the runs end, and whatever power cuts make of unsynced bytes and of the directory,
   the file is never seen half written, nor would it be after a cut at that moment.
   */
  lemma {:induction false} NeverTorn(disk: Disk, path: Path, events: seq<Event>)
    requires TempPath(path) != path && DurablyWhole(disk, path)
    ensures Whole(After(disk, path, events).disk, path) && DurablyWhole(After(disk, path, events).disk, path)
  {
    if events != [] {
      var last := |events| - 1;
      NeverTorn(disk, path, events[..last]);
      NextKeepsWhole(After(disk, path, events[..last]), path, events[last]);
    }
    DurablyWholeIsWhole(After(disk, path, events).disk, path);
  }

  ghost predicate SurvivesCuts(disk: Disk, path: Path) {
    forall left :: CutMayLeave(disk, left) ==> Whole(left, path)
  }

  /** It is the sync that does it: installing a key is safe from power cuts exactly if its bytes were synced first. */
  lemma SyncDecides(disk: Disk, path: Path, key: SecretKey, synced: bool)
    requires TempPath(path) != path && DurablyWhole(disk, path)
    ensures SurvivesCuts(Installed(disk, path, key, synced), path) <==> synced
  {
    var temp, file := TempPath(path), File(Encoded(key), synced);
    var written, installed := WithFile(disk, temp, file), Installed(disk, path, key, synced);
    if synced {
      assert IsEncoded(Encoded(key));
      OtherFileKeepsWhole(disk, path, temp, file);
      MoveKeepsWhole(written, path, temp);
      forall left | CutMayLeave(installed, left) ensures Whole(left, path) {
        CutKeepsWhole(installed, left, path);
        DurablyWholeIsWhole(left, path);
      }
    } else {
      var left := RolledBack(installed, |installed.past| - 1, |disk.files|);
      CutMayRollBack(installed, |installed.past| - 1, |disk.files|);
      assert Contents(left, path) == [];
      assert !Whole(left, path);
    }
  }

  ghost predicate TearsNever(path: Path, generated: SecretKey) {
    forall disk: Disk, plan :: path !in disk.dir ==> Whole(AfterRun(disk, path, generated, plan).0, path)
  }

  /** A name ending in ".tmp" is exactly what makes a torn file possible without any power cut. */
  lemma TearsNeverIffTempDiffers(path: Path, generated: SecretKey)
    ensures TearsNever(path, generated) <==> TempPath(path) != path
  {
    if TempPath(path) == path {
      var plan := CLEAN.(write := Dies(0));
      assert Contents(AfterRun(EMPTY_DISK, path, generated, plan).0, path) == [];
      assert !Whole(AfterRun(EMPTY_DISK, path, generated, plan).0, path);
    } else {
      forall disk: Disk, plan | path !in disk.dir ensures Whole(AfterRun(disk, path, generated, plan).0, path) {
        assert IsEncoded(Encoded(generated));
        RunMeaning(disk, path, generated, plan);
      }
    }
  }

  // ---------------------------------------------------------------------- one key only

  ghost predicate OneKey(w: World, path: Path)
  {
    && DurablyWhole(w.disk, path)
    && forall i :: 0 <= i < |w.returned| ==> path in w.disk.dir && Contents(w.disk, path) == Encoded(w.returned[i])
  }

  /** Every state of the directory that a power cut may fall back to has that key in place. */
  ghost predicate Settled(disk: Disk, path: Path, key: SecretKey) {
    forall k :: 0 <= k < |disk.past| ==>
                  path in disk.past[k] && disk.files[disk.past[k][path]].contents == Encoded(key)
  }

  lemma ReturnedIsInPlace(w: World, path: Path)
    requires OneKey(w, path) && w.returned != []
    ensures path in w.disk.dir && Contents(w.disk, path) == Encoded(w.returned[0])
  {
    var key := w.returned[0];
    assert path in w.disk.dir && Contents(w.disk, path) == Encoded(key);
  }

  /** A run parts the file from a key handed out exactly if, told wrongly that there is none, it installs another. */
  lemma RunLosesKeyIff(w: World, path: Path, generated: SecretKey, plan: Plan)
    requires TempPath(path) != path && OneKey(w, path) && w.returned != []
    ensures OneKey(Next(w, path, Run(generated, plan)), path) <==>
            (Installs(w.disk, path, plan) ==> generated == w.returned[0])
  {
    var next, key := Next(w, path, Run(generated, plan)), w.returned[0];
    ReturnedIsInPlace(w, path);
    DecodeInvertsEncode(key);
    RunMeaning(w.disk, path, generated, plan);
    RunKeepsWhole(w.disk, path, generated, plan);
    assert next.returned[0] == key;
    if Installs(w.disk, path, plan) && OneKey(next, path) {
      EncodedIsInjective(key, generated);
    }
  }

  ghost predicate KeptByCuts(w: World, path: Path) {
    forall left :: CutMayLeave(w.disk, left) ==> OneKey(w.(disk := left), path)
  }

  /** No power cut can part the file from a key handed out exactly if the key is settled. */
  lemma CutsKeepKeyIff(w: World, path: Path)
    requires OneKey(w, path) && w.returned != []
    ensures KeptByCuts(w, path) <==> Settled(w.disk, path, w.returned[0])
  {
    var key := w.returned[0];
    ReturnedIsInPlace(w, path);
    if Settled(w.disk, path, key) {
      forall left | CutMayLeave(w.disk, left) ensures OneKey(w.(disk := left), path) {
        SettledStays(w, path, left);
      }
    } else {
      var k :| 0 <= k < |w.disk.past|
               && !(path in w.disk.past[k] && w.disk.files[w.disk.past[k][path]].contents == Encoded(key));
      var left := RolledBack(w.disk, k, |w.disk.files|);
      CutMayRollBack(w.disk, k, |w.disk.files|);
      assert w.(disk := left).returned[0] == key;
      assert !OneKey(w.(disk := left), path);
    }
  }

  lemma EntryIsKept(disk: Disk, path: Path, key: SecretKey, entry: Option<nat>)
    requires Settled(disk, path, key) && EntryWas(disk, path, entry)
    ensures entry.Some? && entry.value < |disk.files| && disk.files[entry.value].contents == Encoded(key)
  {
  }

  lemma SettledStays(w: World, path: Path, left: Disk)
    requires OneKey(w, path) && w.returned != [] && Settled(w.disk, path, w.returned[0]) && CutMayLeave(w.disk, left)
    ensures OneKey(w.(disk := left), path)
  {
    CutKeepsWhole(w.disk, left, path);
    ReturnedIsInPlace(w, path);
    EntryIsKept(w.disk, path, w.returned[0], if path in left.dir then Some(left.dir[path]) else None);
  }

  /** Writing back settles a key; installing it does not. */
  lemma WriteBackSettles(w: World, path: Path)
    requires OneKey(w, path) && w.returned != []
    ensures Settled(Next(w, path, WriteBack).disk, path, w.returned[0]) && OneKey(Next(w, path, WriteBack), path)
  {
    ReturnedIsInPlace(w, path);
    BackKeepsWhole(w.disk, path);
  }

  lemma InstallingDoesNotSettle(disk: Disk, path: Path, key: SecretKey)
    requires TempPath(path) != path && path !in disk.dir
    ensures !Settled(Installed(disk, path, key, true), path, key)
  {
    var k := |disk.past| - 1;
    assert Installed(disk, path, key, true).past[k] == disk.past[k] == disk.dir;
  }

  /** The events after which the keys handed out still are the one in the file; see the two lemmas above. */
  ghost predicate IsHarmless(w: World, path: Path, event: Event) {
    match event
    case WriteBack => true
    case PowerCut(_) => w.returned == [] || Settled(w.disk, path, w.returned[0])
    case Run(generated, plan) =>
      plan.statFails && w.returned != [] && Installs(w.disk, path, plan) ==> generated == w.returned[0]
  }

  lemma HarmlessKeepsOneKey(w: World, path: Path, event: Event)
    requires TempPath(path) != path && OneKey(w, path) && IsHarmless(w, path, event)
    ensures OneKey(Next(w, path, event), path)
  {
    if w.returned == [] {
      NextKeepsWhole(w, path, event);
      if event.Run? {
        FirstKey(w, path, event.generated, event.plan);
      }
    } else {
      ReturnedIsInPlace(w, path);
      match event
      case WriteBack => WriteBackSettles(w, path);
      case PowerCut(left) =>
        if CutMayLeave(w.disk, left) {
          SettledStays(w, path, left);
        }
      case Run(generated, plan) => RunLosesKeyIff(w, path, generated, plan);
    }
  }

  lemma FirstKey(w: World, path: Path, generated: SecretKey, plan: Plan)
    requires TempPath(path) != path && DurablyWhole(w.disk, path) && w.returned == []
    ensures OneKey(Next(w, path, Run(generated, plan)), path)
  {
    RunMeaning(w.disk, path, generated, plan);
    RunKeepsWhole(w.disk, path, generated, plan);
    if path in w.disk.dir {
      DurablyWholeIsWhole(w.disk, path);
      var key :| Contents(w.disk, path) == Encoded(key);
      DecodeInvertsEncode(key);
    }
  }

  /** All runs that succeed return the same key, the one in the file, as long as every event is harmless. */
  lemma {:induction false} RunsAgree(disk: Disk, path: Path, events: seq<Event>)
    requires TempPath(path) != path && DurablyWhole(disk, path)
    requires forall i :: 0 <= i < |events| ==> IsHarmless(After(disk, path, events[..i]), path, events[i])
    ensures OneKey(After(disk, path, events), path)
    ensures var keys := After(disk, path, events).returned;
            forall i, j :: 0 <= i < |keys| && 0 <= j < |keys| ==> keys[i] == keys[j]
  {
    if events != [] {
      var last := |events| - 1;
      var front := events[..last];
      forall i | 0 <= i < |front| ensures IsHarmless(After(disk, path, front[..i]), path, front[i]) {
        assert front[..i] == events[..i];
      }
      RunsAgree(disk, path, front);
      HarmlessKeepsOneKey(After(disk, path, front), path, events[last]);
    }
    var w := After(disk, path, events);
    forall i, j | 0 <= i < |w.returned| && 0 <= j < |w.returned| ensures w.returned[i] == w.returned[j] {
      EncodedIsInjective(w.returned[i], w.returned[j]);
    }
  }

  /** Without a crash or an error, a run can fail only over a stale temporary file, which it then removes. */
  lemma CleanRun(disk: Disk, path: Path, generated: SecretKey)
    requires TempPath(path) != path && Whole(disk, path)
    ensures var (after, outcome) := AfterRun(disk, path, generated, CLEAN);
            && (outcome.Returned? <==> path in disk.dir || TempPath(path) !in disk.dir)
            && (outcome.Returned? || (outcome.Failed? && after == Removed(disk, TempPath(path))))
  {
    if path in disk.dir {
      var key :| Contents(disk, path) == Encoded(key);
      DecodeInvertsEncode(key);
    }
  }

  /** So of two such runs after any history the second succeeds. */
  lemma StaleTempCostsOneRun(disk: Disk, path: Path, events: seq<Event>, first: SecretKey, second: SecretKey)
    requires TempPath(path) != path && DurablyWhole(disk, path)
    ensures var w := After(disk, path, events);
            var (between, _) := AfterRun(w.disk, path, first, CLEAN);
            AfterRun(between, path, second, CLEAN).1.Returned?
  {
    NeverTorn(disk, path, events);
    var w := After(disk, path, events);
    CleanRun(w.disk, path, first);
    RunKeepsWhole(w.disk, path, first, CLEAN);
    DurablyWholeIsWhole(AfterRun(w.disk, path, first, CLEAN).0, path);
    CleanRun(AfterRun(w.disk, path, first, CLEAN).0, path, second);
  }

  lemma AfterOneMore(disk: Disk, path: Path, events: seq<Event>, event: Event)
    ensures After(disk, path, events + [event]) == Next(After(disk, path, events), path, event)
  {
    assert (events + [event])[..|events|] == events;
  }

  lemma CleanInstall(disk: Disk, path: Path, key: SecretKey, plan: Plan)
    requires TempPath(path) != path && Installs(disk, path, plan) && plan.rename.Works?
    ensures AfterRun(disk, path, key, plan) == (Installed(disk, path, key, true), Returned(key))
  {
    var _ := AfterTempMeaning(disk, TempPath(path), Encoded(key), plan);
  }

  /** Neither condition is idle: from nothing, a cut or a wrong answer makes two successful runs return two keys. */
  lemma KeysCanDiffer(path: Path, a: SecretKey, b: SecretKey) returns (left: Disk)
    requires TempPath(path) != path
    ensures After(EMPTY_DISK, path, [Run(a, CLEAN)] + [PowerCut(left)] + [Run(b, CLEAN)]).returned == [a, b]
    ensures After(EMPTY_DISK, path, [Run(a, CLEAN)] + [Run(b, CLEAN.(statFails := true))]).returned == [a, b]
  {
    var first, again := [Run(a, CLEAN)], CLEAN.(statFails := true);
    var installed := Installed(EMPTY_DISK, path, a, true);
    AfterOneMore(EMPTY_DISK, path, [], first[0]);
    assert [] + first == first;
    CleanInstall(EMPTY_DISK, path, a, CLEAN);
    left := RolledBack(installed, 0, 0);
    CutMayRollBack(installed, 0, 0);
    assert installed.past[0] == map[];
    AfterOneMore(EMPTY_DISK, path, first, PowerCut(left));
    AfterOneMore(EMPTY_DISK, path, first + [PowerCut(left)], Run(b, CLEAN));
    CleanInstall(left, path, b, CLEAN);
    AfterOneMore(EMPTY_DISK, path, first, Run(b, again));
    CleanInstall(installed, path, b, again);
  }
}
