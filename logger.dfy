/**
 * `Logger` and the file handlers it keeps, as objects whose methods change
 * the disk and the handler fields step by step. Each method is proved to
 * leave the disk in the state the pure functions of `ArchiveEngine` and
 * `RotationEngine` describe, and to leave the handler fields as the source
 * does: opened by `CreateHandler`, closed and cleared by `CloseHandler`.
 */
module RfLogger {
  import opened Wrappers
  import opened Calendar
  import opened DateText
  import opened LogNames
  import opened FileSystem
  import opened ArchiveEngine
  import opened RotationEngine

  /** `os.path.join(folder, name)` on POSIX for a relative `name`. */
  function JoinPath(folder: string, name: string): (r: string)
    ensures folder == "" ==> r == name
    ensures folder != "" ==> StartsWith(r, folder) && EndsWith(r, "/" + name)
    ensures folder != "" ==> |r| == |folder| + |name| + (if folder[|folder| - 1] == '/' then 0 else 1)
  {
    if folder == "" then name
    else if folder[|folder| - 1] == '/' then folder + name
    else folder + "/" + name
  }

  lemma SameKeyTwice<K, V>(m: map<K, V>, k: K, a: V, b: V)
    ensures m[k := a][k := b] == m[k := b]
  {
  }

  /** Copying one more old entry extends the copied entries by that name. */
  lemma EntriesStep(prior: Archive, done: set<string>, x: string)
    requires done <= prior.Keys && x in prior
    ensures Entries(prior, done)[x := prior[x]] == Entries(prior, done + {x})
  {
  }

  /** Writing one more file into a rebuilt archive. */
  lemma FileEntriesStep(copied: Archive, files: map<Path, string>, folder: string, done: set<string>, x: string)
    requires forall n | n in done :: Path(folder, n) in files
    requires Path(folder, x) in files
    ensures (copied + FileEntries(files, folder, done))[x := files[Path(folder, x)]]
            == copied + FileEntries(files, folder, done + {x})
  {
  }

  lemma RemoveUpdated<K, V>(m: map<K, V>, k: K, v: V)
    ensures m[k := v] - {k} == m - {k}
  {
  }

  /** Removing the old archive, then the temporary one, loses both. */
  lemma LoseBoth<K, V>(m: map<K, V>, temp: K, archive: K, v: V)
    requires temp != archive
    ensures m[temp := v] - {archive} - {temp} == m - {temp, archive}
    ensures archive !in m ==> m[temp := v] - {temp} == m - {temp, archive}
  {
  }

  /** Removing the old archive, then renaming the temporary one over it, puts the new entries in its place. */
  lemma SwapInto<K, V>(m: map<K, V>, temp: K, archive: K, v: V)
    requires temp != archive
    ensures var a := m[temp := v] - {archive}; (a - {temp})[archive := a[temp]] == (m - {temp})[archive := v]
    ensures archive !in m ==> var a := m[temp := v]; (a - {temp})[archive := a[temp]] == (m - {temp})[archive := v]
  {
  }

  /** A `logging.FileHandler` reduced to the file it appends to and whether it has been closed. */
  class FileHandler {
    const path: Path
    var closed: bool

    constructor (path: Path)
      ensures this.path == path && !closed
    {
      this.path := path;
      closed := false;
    }

    method Close()
      modifies this
      ensures closed
    {
      closed := true;
    }
  }

  class Logger {
    const disk: Disk
    const logFolder: string
    const errorFolder: string
    const archiveDays: int
    var loggerHandler: FileHandler?
    var errorHandler: FileHandler?

    /** The handler objects the logger holds. */
    function Handlers(): set<object>
      reads this
    {
      (if loggerHandler == null then {} else {loggerHandler})
      + (if errorHandler == null then {} else {errorHandler})
    }

    /** Both handlers are held, open, and append to the two active files. */
    predicate HandlersOpen()
      reads this, loggerHandler, errorHandler
    {
      && loggerHandler != null && errorHandler != null
      && !loggerHandler.closed && !errorHandler.closed
      && loggerHandler.path == ActiveLog(logFolder)
      && errorHandler.path == ActiveErrorLog(errorFolder)
    }

    /**
     * `Logger.__init__` up to its final `warm_up` call, which the caller
     * makes as `WarmUp`. An absent or empty error folder defaults to the
     * `errors` folder inside the log folder.
     */
    constructor (disk: Disk, logFolder: string, errorFolder: Option<string>, archiveDays: int)
      ensures this.disk == disk && this.logFolder == logFolder && this.archiveDays == archiveDays
      ensures errorFolder.Some? && errorFolder.value != "" ==> this.errorFolder == errorFolder.value
      ensures errorFolder.None? || errorFolder.value == "" ==> this.errorFolder == JoinPath(logFolder, ErrorsSubfolder)
      ensures loggerHandler == null && errorHandler == null
    {
      this.disk := disk;
      this.logFolder := logFolder;
      this.archiveDays := archiveDays;
      this.errorFolder := if errorFolder.Some? && errorFolder.value != "" then errorFolder.value
                          else JoinPath(logFolder, ErrorsSubfolder);
      loggerHandler, errorHandler := null, null;
    }

    // -------------------------------------------------------------------
    // Archiving

    /** The scan of `archive_old_logs`: the eligible files of `folder`, each once. */
    method SelectFiles(folder: string, cutoff: int) returns (toArchive: seq<string>)
      ensures forall n :: n in toArchive <==> n in Selected(disk.State(), folder, cutoff)
      ensures forall i, j | 0 <= i < j < |toArchive| :: toArchive[i] != toArchive[j]
    {
      toArchive := [];
      var pending := DirNames(disk.files, folder);
      while pending != {}
        invariant pending <= DirNames(disk.files, folder)
        invariant forall n :: n in toArchive <==> n in Selected(disk.State(), folder, cutoff) && n !in pending
        invariant forall i, j | 0 <= i < j < |toArchive| :: toArchive[i] != toArchive[j]
        decreases |pending|
      {
        var name :| name in pending;
        if MatchesLogGlob(name) && !IsActiveName(name) {
          match FileDate(name)
          case Some(d) =>
            if Ordinal(d) <= cutoff {
              toArchive := toArchive + [name];
            }
          case None =>
            // the date part does not parse: a warning, and the file stays
        }
        pending := pending - {name};
      }
    }

    /** Copies the entries `existing` of the old archive into the archive being written, until a read raises. */
    method CopyEntries(prior: Archive, existing: set<string>, copy: Progress) returns (copied: Archive)
      requires existing <= prior.Keys
      ensures copied == Entries(prior, CopiedNames(existing, copy))
    {
      copied := map[];
      var pending := existing;
      assert Entries(prior, {}) == map[];
      ghost var done: set<string> := {};
      while pending != {}
        invariant pending <= existing && done <= existing && done !! pending
        invariant forall n | n in existing :: n in done || n in pending
        invariant forall n | n in done :: Reaches(copy, n)
        invariant copied == Entries(prior, done)
        decreases |pending|
      {
        var reachable := set n | n in pending && Reaches(copy, n);
        if reachable == {} {
          // reading the next entry raises: the copy ends, the pass goes on
          assert forall n | n in pending :: n !in reachable;
          break;
        }
        var name :| name in reachable;
        EntriesStep(prior, done, name);
        copied := copied[name := prior[name]];
        pending, done := pending - {name}, done + {name};
      }
      assert forall n :: n in done <==> n in CopiedNames(existing, copy);
      assert done == CopiedNames(existing, copy);
    }

    /** Writes each selected file the old archive does not list into the archive being written, under its base name. */
    method AddFiles(folder: string, toArchive: seq<string>, existing: set<string>, copied: Archive) returns (built: Archive)
      requires forall n | n in toArchive :: Path(folder, n) in disk.files
      ensures built == copied + FileEntries(disk.files, folder, (set n | n in toArchive) - existing)
    {
      var files := disk.files;
      built := copied;
      ghost var done: set<string> := {};
      for i := 0 to |toArchive|
        invariant forall n :: n in done <==> n in toArchive[..i] && n !in existing
        invariant forall n | n in done :: Path(folder, n) in files
        invariant built == copied + FileEntries(files, folder, done)
      {
        var name := toArchive[i];
        assert toArchive[..i + 1] == toArchive[..i] + [name];
        if name !in existing {
          FileEntriesStep(copied, files, folder, done, name);
          built := built[name := files[Path(folder, name)]];
          done := done + {name};
        }
      }
      assert toArchive[..|toArchive|] == toArchive;
      assert done == (set n | n in toArchive) - existing;
    }

    /** Removes the archived source files until a removal raises. */
    method RemoveSources(folder: string, toArchive: seq<string>, removal: Progress)
      requires disk.Valid()
      requires forall n | n in toArchive :: Path(folder, n) in disk.files
      modifies disk
      ensures disk.Valid()
      ensures disk.State() == old(disk.State()).(files :=
        old(disk.files) - PathsIn(folder, set n | n in toArchive && Reaches(removal, n)))
    {
      var pending := set n | n in toArchive;
      ghost var done: set<string> := {};
      assert old(disk.files) - PathsIn(folder, {}) == old(disk.files);
      while pending != {}
        invariant disk.Valid()
        invariant forall n :: n in toArchive <==> n in done || n in pending
        invariant done !! pending
        invariant forall n | n in done :: Reaches(removal, n)
        invariant forall n | n in pending :: Path(folder, n) in disk.files
        invariant disk.State() == old(disk.State()).(files := old(disk.files) - PathsIn(folder, done))
        decreases |pending|
      {
        var reachable := set n | n in pending && Reaches(removal, n);
        if reachable == {} {
          // `os.remove` raises: the pass's handler ends the pass
          assert forall n | n in pending :: n !in reachable;
          break;
        }
        var name :| name in reachable;
        assert old(disk.files) - PathsIn(folder, done + {name}) == disk.files - {Path(folder, name)};
        disk.Remove(Path(folder, name));
        pending, done := pending - {name}, done + {name};
      }
      assert forall n :: n in done <==> n in toArchive && Reaches(removal, n);
      assert done == set n | n in toArchive && Reaches(removal, n);
    }

    /**
     * Writes the temporary archive of a pass: the entry names of the old
     * archive (none when there is none or listing them raises), the old
     * entries copied, then the selected files the old archive does not list.
     */
    method WriteTemporary(folder: string, archiveName: string, toArchive: seq<string>, ghost sel: set<string>, f: ArchiveFaults)
      requires disk.Valid() && folder in disk.dirs
      requires forall n :: n in toArchive <==> n in sel
      requires forall n | n in sel :: Path(folder, n) in disk.files
      modifies disk
      ensures disk.Valid()
      ensures disk.State() == old(disk.State()).(archives := old(disk.archives)[Path(folder, TempArchiveName(archiveName)) :=
        Rebuilt(old(disk.State()), folder, Path(folder, archiveName), sel, f)])
    {
      ghost var s := disk.State();
      var archive := Path(folder, archiveName);
      var temp := Path(folder, TempArchiveName(archiveName));
      ghost var prior := OldArchive(s, archive);
      var existing: set<string> := {};
      if archive in disk.archives && !f.namelistFails {
        existing := disk.archives[archive].Keys;
      }
      assert existing == ExistingNames(s, archive, f);
      var built: Archive := map[];
      if existing != {} {
        built := CopyEntries(disk.archives[archive], existing, f.copy);
      } else {
        assert Entries(prior, CopiedNames(existing, f.copy)) == map[];
      }
      built := AddFiles(folder, toArchive, existing, built);
      assert (set n | n in toArchive) == sel;
      assert built == Rebuilt(s, folder, archive, sel, f);
      disk.CreateArchive(temp);
      disk.CloseArchive(temp, built);
      SameKeyTwice(s.archives, temp, map[], built);
    }

    /**
     * Replaces the archive with the written temporary archive: remove the
     * old archive, rename the temporary one, remove the archived files; on
     * an error, remove the temporary archive.
     */
    method SwapTemporary(folder: string, archiveName: string, toArchive: seq<string>,
                         ghost s: DiskState, ghost sel: set<string>, f: ArchiveFaults)
      requires forall n :: n in toArchive <==> n in sel
      requires forall n | n in sel :: Path(folder, n) in s.files
      requires disk.Valid() && folder in disk.dirs && Path(folder, archiveName) != Path(folder, TempArchiveName(archiveName))
      requires disk.State() == s.(archives := s.archives[Path(folder, TempArchiveName(archiveName)) :=
        Rebuilt(s, folder, Path(folder, archiveName), sel, f)])
      modifies disk
      ensures disk.Valid()
      ensures disk.State() == Swapped(s, folder, archiveName, sel, f)
    {
      var archive := Path(folder, archiveName);
      var temp := Path(folder, TempArchiveName(archiveName));
      ghost var rebuilt := Rebuilt(s, folder, archive, sel, f);
      match f.swap
      case FailsBeforeSwap =>
        disk.RemoveArchive(temp);
        RemoveUpdated(s.archives, temp, rebuilt);
      case RenameFails =>
        if archive in disk.archives {
          disk.RemoveArchive(archive);
        }
        disk.RemoveArchive(temp);
        LoseBoth(s.archives, temp, archive, rebuilt);
      case Swaps =>
        ReplaceArchive(folder, archive, temp, toArchive, s, sel, rebuilt, f.removal);
    }

    /** The successful end of a pass: the temporary archive replaces the archive, then the archived files go. */
    method ReplaceArchive(folder: string, archive: Path, temp: Path, toArchive: seq<string>,
                          ghost s: DiskState, ghost sel: set<string>, ghost rebuilt: Archive, removal: Progress)
      requires forall n :: n in toArchive <==> n in sel
      requires forall n | n in sel :: Path(folder, n) in s.files
      requires disk.Valid() && archive.dir in disk.dirs && archive != temp
      requires disk.State() == s.(archives := s.archives[temp := rebuilt])
      modifies disk
      ensures disk.Valid()
      ensures disk.State() == s.(archives := (s.archives - {temp})[archive := rebuilt],
                                 files := s.files - PathsIn(folder, set n | n in sel && Reaches(removal, n)))
    {
      if archive in disk.archives {
        disk.RemoveArchive(archive);
      }
      disk.RenameArchive(temp, archive);
      SwapInto(s.archives, temp, archive, rebuilt);
      RemoveSources(folder, toArchive, removal);
      assert (set n | n in toArchive && Reaches(removal, n)) == set n | n in sel && Reaches(removal, n);
    }

    /** One pass of `archive_old_logs`: archive the old files of `folder` into `archiveName`. */
    method ArchiveFolder(folder: string, archiveName: string, cutoff: int, f: ArchiveFaults)
      requires disk.Valid()
      modifies disk
      ensures disk.Valid()
      ensures disk.State() == ArchivePass(old(disk.State()), folder, archiveName, cutoff, f)
    {
      if folder !in disk.dirs {
        return;
      }
      var toArchive := SelectFiles(folder, cutoff);
      ghost var s := disk.State();
      ghost var sel := Selected(s, folder, cutoff);
      if toArchive == [] {
        assert sel == {};
        return;
      }
      assert toArchive[0] in sel;
      WriteTemporary(folder, archiveName, toArchive, sel, f);
      SwapTemporary(folder, archiveName, toArchive, s, sel, f);
    }

    /** `archive_old_logs` at `today`: the log folder, then the error folder. */
    method ArchiveOldLogs(today: Date, mainFaults: ArchiveFaults, errorFaults: ArchiveFaults)
      requires disk.Valid() && ValidDate(today)
      modifies disk
      ensures disk.Valid()
      ensures disk.State() == ArchiveBoth(old(disk.State()), logFolder, errorFolder,
                                          Cutoff(today, archiveDays), mainFaults, errorFaults)
    {
      var cutoff := Cutoff(today, archiveDays);
      ArchiveFolder(logFolder, LogArchive, cutoff, mainFaults);
      ArchiveFolder(errorFolder, ErrorArchive, cutoff, errorFaults);
    }

    // -------------------------------------------------------------------
    // Handlers

    /**
     * `create_handler`: open `.latest.log` for append, create the error
     * folder when needed, open `.latest_error.log`, and hold both handlers.
     * Opening `.latest.log` raises when the log folder does not exist, and
     * each step can raise under `open`; a raise leaves the fields as they were.
     */
    method CreateHandler(open: OpenFault) returns (raised: bool)
      requires disk.Valid()
      modifies this, disk
      ensures disk.Valid()
      ensures disk.State() == Opened(old(disk.State()), logFolder, errorFolder, open)
      ensures raised <==> OpenRaises(old(disk.State()), logFolder, errorFolder, open)
      ensures raised ==> loggerHandler == old(loggerHandler) && errorHandler == old(errorHandler)
      ensures !raised ==> HandlersOpen() && fresh(loggerHandler) && fresh(errorHandler)
    {
      if logFolder !in disk.dirs || open == MainOpenFails {
        return true;
      }
      var main := OpenHandler(ActiveLog(logFolder));
      if errorFolder !in disk.dirs {
        if open == ErrorDirFails {
          return true;
        }
        disk.MakeDir(errorFolder);
      }
      if open == ErrorOpenFails {
        return true;
      }
      var err := OpenHandler(ActiveErrorLog(errorFolder));
      loggerHandler, errorHandler := main, err;
      raised := false;
    }

    /** `logging.FileHandler(p, mode="a")`: opens `p` for append, creating it empty when absent. */
    method OpenHandler(p: Path) returns (h: FileHandler)
      requires disk.Valid() && p.dir in disk.dirs
      modifies disk
      ensures disk.Valid()
      ensures disk.State() == old(disk.State()).(files := Touched(old(disk.files), p))
      ensures fresh(h) && h.path == p && !h.closed
    {
      disk.OpenForAppend(p);
      h := new FileHandler(p);
    }

    /** `close_handler`: close whichever handlers are held, then hold none. */
    method CloseHandler()
      modifies this, Handlers()
      ensures loggerHandler == null && errorHandler == null
      ensures old(loggerHandler) != null ==> old(loggerHandler).closed
      ensures old(errorHandler) != null ==> old(errorHandler).closed
    {
      if loggerHandler != null {
        loggerHandler.Close();
      }
      if errorHandler != null {
        errorHandler.Close();
      }
      loggerHandler, errorHandler := null, null;
    }

    // -------------------------------------------------------------------
    // Rotation

    /**
     * `rotate_log_files` at clock reading `now`. When the active pair is
     * missing nothing changes and nothing raises. Reading `.latest.log` can
     * raise, with nothing changed. When its first line is unparsable or from
     * today nothing changes and nothing raises; otherwise the handlers are closed, the pair is renamed by its creation
     * date, `.latest.log` is stamped `now`, old logs are archived and new
     * handlers are opened, unless a rename, the stamp write or reopening the
     * handlers raises.
     */
    method RotateLogFiles(now: Timestamp, faults: Faults) returns (raised: bool)
      requires disk.Valid() && ValidTimestamp(now)
      modifies this, disk, Handlers()
      ensures disk.Valid()
      ensures disk.State() == RotationOutcome(old(disk.State()), logFolder, errorFolder, now, archiveDays, faults)
      ensures raised <==> RotationRaises(old(disk.State()), logFolder, errorFolder, now.date, faults)
      ensures !ClosesHandlers(old(disk.State()), logFolder, errorFolder, now.date, faults) ==>
        && loggerHandler == old(loggerHandler) && errorHandler == old(errorHandler)
        && (loggerHandler != null ==> loggerHandler.closed == old(loggerHandler.closed))
        && (errorHandler != null ==> errorHandler.closed == old(errorHandler.closed))
      ensures ClosesHandlers(old(disk.State()), logFolder, errorFolder, now.date, faults) ==>
        && (old(loggerHandler) != null ==> old(loggerHandler).closed)
        && (old(errorHandler) != null ==> old(errorHandler).closed)
      ensures raised && ClosesHandlers(old(disk.State()), logFolder, errorFolder, now.date, faults) ==>
        loggerHandler == null && errorHandler == null
      ensures ClosesHandlers(old(disk.State()), logFolder, errorFolder, now.date, faults) && !raised ==>
        HandlersOpen() && fresh(loggerHandler) && fresh(errorHandler)
    {
      raised := false;
      var main := ActiveLog(logFolder);
      var err := ActiveErrorLog(errorFolder);
      if main !in disk.files || err !in disk.files {
        // logged as an error
        return;
      }
      if faults.readFails {
        return true;
      }
      var firstLine := Strip(FirstLine(disk.files[main]));
      var created := ParseTimestamp(firstLine);
      if created.None? {
        // logged as an error
        return;
      }
      var previous := created.value.date;
      if previous == now.date {
        return;
      }
      assert RotationCheck(disk.State(), logFolder, errorFolder, now.date) == Stale(previous);
      CloseHandler();
      raised := RotatePair(previous, now, faults);
    }

    /**
     * The rotation of a stale pair created on `created`, once the handlers
     * are closed: rename both active files by that date, stamp a new
     * `.latest.log`, archive old logs and open new handlers. A failing
     * rename, stamp write or reopen raises out of the rotation.
     */
    method RotatePair(created: Date, now: Timestamp, faults: Faults) returns (raised: bool)
      requires disk.Valid() && ValidDate(created) && ValidTimestamp(now)
      requires ActiveLog(logFolder) in disk.files && ActiveErrorLog(errorFolder) in disk.files
      requires loggerHandler == null && errorHandler == null
      modifies this, disk
      ensures disk.Valid()
      ensures disk.State() == Rotated(old(disk.State()), logFolder, errorFolder, created, now, archiveDays, faults)
      ensures raised <==> faults.rotation != NoRotationFault || OpenRaises(old(disk.State()), logFolder, errorFolder, faults.reopen)
      ensures raised ==> loggerHandler == null && errorHandler == null
      ensures !raised ==> HandlersOpen() && fresh(loggerHandler) && fresh(errorHandler)
    {
      var main := ActiveLog(logFolder);
      var err := ActiveErrorLog(errorFolder);
      ghost var s := disk.State();
      RotatedNamesCarryDate(created);
      raised := true;
      if faults.rotation == MainRenameFails {
        return;
      }
      disk.Rename(main, Path(logFolder, RotatedLogName(created)));
      if faults.rotation == ErrorRenameFails {
        return;
      }
      disk.Rename(err, Path(errorFolder, RotatedErrorLogName(created)));
      if faults.rotation == StampWriteFails {
        return;
      }
      disk.WriteText(main, StampLine(now));
      raised := false;
      ghost var stamped := disk.State();
      assert stamped == RenamedAndStamped(s, logFolder, errorFolder, created, now);
      ghost var cutoff := Cutoff(now.date, archiveDays);
      ArchiveOldLogs(now.date, faults.mainArchive, faults.errorArchive);
      RotationKeepsFolders(s, logFolder, errorFolder, created, now, cutoff, faults.mainArchive, faults.errorArchive);
      raised := CreateHandler(faults.reopen);
    }

    /** The first branch of `warm_up`: create the log folder when needed, then stamp a new `.latest.log`. */
    method WriteFirstStamp(now: Timestamp, stamp: StampFault) returns (raised: bool)
      requires disk.Valid() && ValidTimestamp(now)
      modifies disk
      ensures disk.Valid()
      ensures disk.State() == FirstStamp(old(disk.State()), logFolder, now, stamp)
      ensures raised <==> StampRaises(old(disk.State()), logFolder, stamp)
    {
      if logFolder !in disk.dirs {
        if stamp == MakeDirFails {
          return true;
        }
        disk.MakeDir(logFolder);
      }
      if stamp == StampOpenFails {
        return true;
      }
      disk.WriteText(ActiveLog(logFolder), StampLine(now));
      raised := false;
    }

    /**
     * `warm_up` at clock reading `now`: with no `.latest.log`, create the
     * log folder when needed, stamp a new `.latest.log` and open the
     * handlers; otherwise open the handlers and run a rotation check. It
     * opens new handlers without closing the ones already held.
     */
    method WarmUp(now: Timestamp, stamp: StampFault, open: OpenFault, faults: Faults) returns (raised: bool)
      requires disk.Valid() && ValidTimestamp(now)
      modifies this, disk
      ensures disk.Valid()
      ensures disk.State() == WarmUpOutcome(old(disk.State()), logFolder, errorFolder, now, archiveDays, stamp, open, faults)
      ensures raised <==> WarmUpRaises(old(disk.State()), logFolder, errorFolder, now, stamp, open, faults)
      ensures raised && (ActiveLog(logFolder) !in old(disk.files) || OpenRaises(old(disk.State()), logFolder, errorFolder, open)) ==>
        loggerHandler == old(loggerHandler) && errorHandler == old(errorHandler)
      ensures raised && ActiveLog(logFolder) in old(disk.files) && !OpenRaises(old(disk.State()), logFolder, errorFolder, open) ==>
        if faults.readFails then HandlersOpen() else loggerHandler == null && errorHandler == null
      ensures !raised ==> HandlersOpen()
      ensures old(loggerHandler) != null ==> old(loggerHandler).closed == old(loggerHandler.closed)
      ensures old(errorHandler) != null ==> old(errorHandler).closed == old(errorHandler.closed)
    {
      if ActiveLog(logFolder) !in disk.files {
        raised := WriteFirstStamp(now, stamp);
        if !raised {
          raised := CreateHandler(open);
        }
      } else {
        raised := CreateHandler(open);
        if !raised {
          raised := RotateLogFiles(now, faults);
        }
      }
    }
  }
}
