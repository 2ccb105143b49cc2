/**
 * What a rotation check (`Logger.rotate_log_files`), opening the handlers
 * (`Logger.create_handler`, its disk side) and warming up (`Logger.warm_up`)
 * do to the disk, as functions of the disk before, the folders, the clock
 * reading and the faults. The lemmas state the rotation guarantees: same-day
 * checks do nothing, a stale pair is renamed by its creation date, and after a
 * rotation or a warm-up the active files are fresh for today.
 */
module RotationEngine {
  import opened Wrappers
  import opened Calendar
  import opened DateText
  import opened LogNames
  import opened FileSystem
  import opened ArchiveEngine

  /** What a rotation check finds. */
  datatype Check =
    | ActiveMissing        // `.latest.log` or `.latest_error.log` does not exist
    | Unparsable           // the first line of `.latest.log` is not a timestamp
    | SameDay              // the recorded creation date is today
    | Stale(created: Date) // any other creation date, earlier or later

  /** Where a rotation raises; renaming and writing are not guarded, so the exception leaves the check. */
  datatype RotationFault = NoRotationFault | MainRenameFails | ErrorRenameFails | StampWriteFails

  /**
   * Where `create_handler` raises: opening `.latest.log`, creating the error
   * folder, or opening `.latest_error.log`. None of them is guarded.
   */
  datatype OpenFault = NoOpenFault | MainOpenFails | ErrorDirFails | ErrorOpenFails

  /**
   * The faults of one rotation check: opening and reading `.latest.log`, the
   * renames and the stamp write, the archive passes it runs, and reopening
   * the handlers at its end.
   */
  datatype Faults = Faults(readFails: bool, rotation: RotationFault, mainArchive: ArchiveFaults,
                           errorArchive: ArchiveFaults, reopen: OpenFault)

  const NoFaults: Faults := Faults(false, NoRotationFault, NoArchiveFaults, NoArchiveFaults, NoOpenFault)

  function ActiveLog(logFolder: string): Path {
    Path(logFolder, LatestLog)
  }

  function ActiveErrorLog(errorFolder: string): Path {
    Path(errorFolder, LatestErrorLog)
  }

  function RotationCheck(s: DiskState, logFolder: string, errorFolder: string, today: Date): (c: Check)
    ensures c.Stale? ==> ValidDate(c.created) && c.created != today
  {
    if ActiveLog(logFolder) !in s.files || ActiveErrorLog(errorFolder) !in s.files then ActiveMissing
    else match ReadCreation(s.files[ActiveLog(logFolder)])
      case None => Unparsable
      case Some(t) => if t.date == today then SameDay else Stale(t.date)
  }

  /** `open(p, "a")` on a map of files: creates `p` empty when absent. */
  function Touched(files: map<Path, string>, p: Path): (r: map<Path, string>)
    ensures r.Keys == files.Keys + {p}
    ensures forall q | q in files :: r[q] == files[q]
    ensures p !in files ==> r[p] == ""
  {
    if p in files then files else files[p := ""]
  }

  /** The disk side of `create_handler`: open `.latest.log`, create the error folder, open `.latest_error.log`. */
  function OpenActiveFiles(s: DiskState, logFolder: string, errorFolder: string): DiskState {
    s.(dirs := s.dirs + {errorFolder},
       files := Touched(Touched(s.files, ActiveLog(logFolder)), ActiveErrorLog(errorFolder)))
  }

  /**
   * `create_handler` raises: opening `.latest.log` raises when the log folder
   * is missing or the open fails, and the error folder is only created when
   * it is missing.
   */
  predicate OpenRaises(s: DiskState, logFolder: string, errorFolder: string, open: OpenFault) {
    || logFolder !in s.dirs
    || open == MainOpenFails
    || (open == ErrorDirFails && errorFolder !in s.dirs)
    || open == ErrorOpenFails
  }

  /** The disk after `create_handler`, stopping where it raises. */
  function Opened(s: DiskState, logFolder: string, errorFolder: string, open: OpenFault): DiskState {
    if logFolder !in s.dirs || open == MainOpenFails then s
    else
      var withMain := s.(files := Touched(s.files, ActiveLog(logFolder)));
      if open == ErrorDirFails && errorFolder !in s.dirs then withMain
      else if open == ErrorOpenFails then withMain.(dirs := s.dirs + {errorFolder})
      else OpenActiveFiles(s, logFolder, errorFolder)
  }

  /** Both archive passes of `archive_old_logs`: the log folder, then the error folder. */
  function ArchiveBoth(s: DiskState, logFolder: string, errorFolder: string, cutoff: int,
                       mainFaults: ArchiveFaults, errorFaults: ArchiveFaults): DiskState {
    var s1 := ArchivePass(s, logFolder, LogArchive, cutoff, mainFaults);
    ArchivePass(s1, errorFolder, ErrorArchive, cutoff, errorFaults)
  }

  /** `.latest.log` renamed to `{created}.log`. */
  function RenameMain(s: DiskState, logFolder: string, created: Date): DiskState
    requires ActiveLog(logFolder) in s.files && ValidDate(created)
  {
    var main := ActiveLog(logFolder);
    s.(files := (s.files - {main})[Path(logFolder, RotatedLogName(created)) := s.files[main]])
  }

  /** `.latest_error.log` renamed to `{created}_error.log`. */
  function RenameError(s: DiskState, errorFolder: string, created: Date): DiskState
    requires ActiveErrorLog(errorFolder) in s.files && ValidDate(created)
  {
    var err := ActiveErrorLog(errorFolder);
    s.(files := (s.files - {err})[Path(errorFolder, RotatedErrorLogName(created)) := s.files[err]])
  }

  /** Both active files renamed by their creation date, then a fresh `.latest.log` stamped `now`. */
  function RenamedAndStamped(s: DiskState, logFolder: string, errorFolder: string, created: Date, now: Timestamp): DiskState
    requires ActiveLog(logFolder) in s.files && ActiveErrorLog(errorFolder) in s.files
    requires ValidDate(created) && ValidTimestamp(now)
  {
    RotatedNamesCarryDate(created);
    var s1 := RenameMain(s, logFolder, created);
    var s2 := RenameError(s1, errorFolder, created);
    s2.(files := s2.files[ActiveLog(logFolder) := StampLine(now)])
  }

  /** The disk after rotating a stale pair created on `created`, stopping where a fault raises. */
  function Rotated(s: DiskState, logFolder: string, errorFolder: string, created: Date,
                   now: Timestamp, archiveDays: int, faults: Faults): DiskState
    requires ActiveLog(logFolder) in s.files && ActiveErrorLog(errorFolder) in s.files
    requires ValidDate(created) && ValidTimestamp(now)
  {
    RotatedNamesCarryDate(created);
    match faults.rotation
    case MainRenameFails => s
    case ErrorRenameFails => RenameMain(s, logFolder, created)
    case StampWriteFails => RenameError(RenameMain(s, logFolder, created), errorFolder, created)
    case NoRotationFault =>
      var stamped := RenamedAndStamped(s, logFolder, errorFolder, created, now);
      var cutoff := Cutoff(now.date, archiveDays);
      var archived := ArchiveBoth(stamped, logFolder, errorFolder, cutoff, faults.mainArchive, faults.errorArchive);
      Opened(archived, logFolder, errorFolder, faults.reopen)
  }

  /**
   * Opening and reading the first line of `.latest.log` raises. Neither is
   * guarded, and both only happen once both active files are found.
   */
  predicate ReadRaises(s: DiskState, logFolder: string, errorFolder: string, faults: Faults) {
    faults.readFails && ActiveLog(logFolder) in s.files && ActiveErrorLog(errorFolder) in s.files
  }

  /**
   * The disk after one rotation check at `now`: unchanged when the read
   * raises, and otherwise unless the check finds the pair stale.
   */
  function RotationOutcome(s: DiskState, logFolder: string, errorFolder: string,
                           now: Timestamp, archiveDays: int, faults: Faults): DiskState
    requires ValidTimestamp(now)
  {
    if ReadRaises(s, logFolder, errorFolder, faults) then s
    else match RotationCheck(s, logFolder, errorFolder, now.date)
      case Stale(created) => Rotated(s, logFolder, errorFolder, created, now, archiveDays, faults)
      case _ => s
  }

  /**
   * A rotation check at `today` raises: reading `.latest.log` raises, or the
   * pair is stale and a rename, the stamp write or reopening the handlers
   * raises. The renames, the stamp and the archive passes create no folder,
   * so reopening sees the folders of `s`.
   */
  predicate RotationRaises(s: DiskState, logFolder: string, errorFolder: string, today: Date, faults: Faults) {
    || ReadRaises(s, logFolder, errorFolder, faults)
    || (&& RotationCheck(s, logFolder, errorFolder, today).Stale?
        && (faults.rotation != NoRotationFault || OpenRaises(s, logFolder, errorFolder, faults.reopen)))
  }

  /** The check gets as far as closing the handlers: the read does not raise and the pair is stale. */
  predicate ClosesHandlers(s: DiskState, logFolder: string, errorFolder: string, today: Date, faults: Faults) {
    !ReadRaises(s, logFolder, errorFolder, faults) && RotationCheck(s, logFolder, errorFolder, today).Stale?
  }

  /**
   * Where `warm_up` raises while creating a missing `.latest.log`: creating
   * the log folder, or opening the file to write its stamp. Neither is guarded.
   */
  datatype StampFault = NoStampFault | MakeDirFails | StampOpenFails

  /** The stamp fault raises: the folder is only created when it is missing. */
  predicate StampRaises(s: DiskState, logFolder: string, stamp: StampFault) {
    (stamp == MakeDirFails && logFolder !in s.dirs) || stamp == StampOpenFails
  }

  /** The first branch of `warm_up`: create the log folder when missing, then write the stamp of `now` to `.latest.log`. */
  function FirstStamp(s: DiskState, logFolder: string, now: Timestamp, stamp: StampFault): DiskState
    requires ValidTimestamp(now)
  {
    if stamp == MakeDirFails && logFolder !in s.dirs then s
    else
      var withFolder := s.(dirs := s.dirs + {logFolder});
      if stamp == StampOpenFails then withFolder
      else withFolder.(files := s.files[ActiveLog(logFolder) := StampLine(now)])
  }

  /**
   * The disk after `warm_up` at `now`: `stamp` and `open` are the faults of
   * its own stamp and `create_handler` call, `faults` those of the rotation
   * check that follows when `.latest.log` existed.
   */
  function WarmUpOutcome(s: DiskState, logFolder: string, errorFolder: string, now: Timestamp,
                         archiveDays: int, stamp: StampFault, open: OpenFault, faults: Faults): DiskState
    requires ValidTimestamp(now)
  {
    if ActiveLog(logFolder) !in s.files then
      var created := FirstStamp(s, logFolder, now, stamp);
      if StampRaises(s, logFolder, stamp) then created else Opened(created, logFolder, errorFolder, open)
    else if OpenRaises(s, logFolder, errorFolder, open) then
      Opened(s, logFolder, errorFolder, open)
    else
      RotationOutcome(OpenActiveFiles(s, logFolder, errorFolder), logFolder, errorFolder, now, archiveDays, faults)
  }

  /** `warm_up` at `now` raises: its stamp step, its `create_handler` call, or the rotation check after it. */
  predicate WarmUpRaises(s: DiskState, logFolder: string, errorFolder: string, now: Timestamp,
                         stamp: StampFault, open: OpenFault, faults: Faults)
    requires ValidTimestamp(now)
  {
    if ActiveLog(logFolder) !in s.files then
      StampRaises(s, logFolder, stamp) || OpenRaises(FirstStamp(s, logFolder, now, stamp), logFolder, errorFolder, open)
    else
      OpenRaises(s, logFolder, errorFolder, open)
      || RotationRaises(OpenActiveFiles(s, logFolder, errorFolder), logFolder, errorFolder, now.date, faults)
  }

  // ---------------------------------------------------------------------
  // The check

  /**
   * The check is an equality test: it finds the pair fresh exactly when the
   * recorded date is today, and stale for every other date, earlier or later
   * than today.
   */
  lemma CheckIsEquality(s: DiskState, logFolder: string, errorFolder: string, today: Date, t: Timestamp)
    requires ActiveLog(logFolder) in s.files && ActiveErrorLog(errorFolder) in s.files
    requires ReadCreation(s.files[ActiveLog(logFolder)]) == Some(t)
    ensures RotationCheck(s, logFolder, errorFolder, today) == (if t.date == today then SameDay else Stale(t.date))
  {
  }

  /**
   * A missing active file or an unparsable first line of `.latest.log` ends
   * the check with only a logged error: the disk is left as it was, and the
   * check raises only when reading the first line does.
   */
  lemma AbortsWithoutChange(s: DiskState, logFolder: string, errorFolder: string,
                            now: Timestamp, archiveDays: int, faults: Faults)
    requires ValidTimestamp(now)
    requires || ActiveLog(logFolder) !in s.files
             || ActiveErrorLog(errorFolder) !in s.files
             || ReadCreation(s.files[ActiveLog(logFolder)]) == None
    ensures RotationOutcome(s, logFolder, errorFolder, now, archiveDays, faults) == s
    ensures RotationRaises(s, logFolder, errorFolder, now.date, faults) <==> ReadRaises(s, logFolder, errorFolder, faults)
    ensures ActiveLog(logFolder) !in s.files || ActiveErrorLog(errorFolder) !in s.files ==>
      !RotationRaises(s, logFolder, errorFolder, now.date, faults)
  {
  }

  /** A check that does not find the pair stale (missing, unparsable or same day) changes nothing, whatever its faults. */
  lemma OnlyStaleChecksChangeTheDisk(s: DiskState, logFolder: string, errorFolder: string,
                                     now: Timestamp, archiveDays: int, faults: Faults)
    requires ValidTimestamp(now)
    requires !RotationCheck(s, logFolder, errorFolder, now.date).Stale?
    ensures RotationOutcome(s, logFolder, errorFolder, now, archiveDays, faults) == s
  {
  }

  // ---------------------------------------------------------------------
  // Rotation

  /**
   * Rotation names the files by their creation date, not by today:
   * `.latest.log` becomes `{created}.log`, `.latest_error.log` becomes
   * `{created}_error.log`, `.latest.log` is written again holding only the
   * stamp line of `now`, and no other file changes.
   */
  lemma RenamedByCreationDate(s: DiskState, logFolder: string, errorFolder: string, created: Date, now: Timestamp)
    requires ActiveLog(logFolder) in s.files && ActiveErrorLog(errorFolder) in s.files
    requires ValidDate(created) && ValidTimestamp(now)
    ensures var t := RenamedAndStamped(s, logFolder, errorFolder, created, now);
      var main, err := ActiveLog(logFolder), ActiveErrorLog(errorFolder);
      var rotated, rotatedError := Path(logFolder, RotatedLogName(created)), Path(errorFolder, RotatedErrorLogName(created));
      && t.dirs == s.dirs && t.archives == s.archives
      && t.files.Keys == (s.files.Keys - {err}) + {rotated, rotatedError}
      && t.files[rotated] == s.files[main]
      && t.files[rotatedError] == s.files[err]
      && t.files[main] == StampLine(now)
      && (forall p | p in s.files && p !in {main, err, rotated, rotatedError} :: t.files[p] == s.files[p])
  {
    RotatedNamesCarryDate(created);
  }

  /** Opening the handlers keeps every file's contents and leaves both active files present. */
  lemma OpenKeepsContents(s: DiskState, logFolder: string, errorFolder: string)
    ensures var t := OpenActiveFiles(s, logFolder, errorFolder);
      && t.files.Keys == s.files.Keys + {ActiveLog(logFolder), ActiveErrorLog(errorFolder)}
      && (forall p | p in s.files :: t.files[p] == s.files[p])
      && t.archives == s.archives
  {
  }

  /**
   * Opening the handlers stops where it raises: every file keeps its contents,
   * the only files added are the active ones, created empty, and the archives
   * do not change. An open that does not raise opens both active files; one
   * that raises leaves a missing `.latest_error.log` missing.
   */
  lemma OpenStopsWhereItRaises(s: DiskState, logFolder: string, errorFolder: string, open: OpenFault)
    ensures var t := Opened(s, logFolder, errorFolder, open);
      && t.archives == s.archives
      && s.dirs <= t.dirs <= s.dirs + {errorFolder}
      && s.files.Keys <= t.files.Keys <= s.files.Keys + {ActiveLog(logFolder), ActiveErrorLog(errorFolder)}
      && (forall p | p in s.files :: t.files[p] == s.files[p])
      && (forall p | p in t.files && p !in s.files :: t.files[p] == "")
      && (!OpenRaises(s, logFolder, errorFolder, open) ==> t == OpenActiveFiles(s, logFolder, errorFolder))
      && (OpenRaises(s, logFolder, errorFolder, open) && ActiveErrorLog(errorFolder) !in s.files ==>
            ActiveErrorLog(errorFolder) !in t.files)
  {
    if logFolder in s.dirs && open != MainOpenFails {
      OpenKeepsContents(s, logFolder, errorFolder);
    }
  }

  /** Renaming, stamping and both archive passes create and remove no folder. */
  lemma RotationKeepsFolders(s: DiskState, logFolder: string, errorFolder: string, created: Date,
                             now: Timestamp, cutoff: int, mainFaults: ArchiveFaults, errorFaults: ArchiveFaults)
    requires ActiveLog(logFolder) in s.files && ActiveErrorLog(errorFolder) in s.files
    requires ValidDate(created) && ValidTimestamp(now)
    ensures var stamped := RenamedAndStamped(s, logFolder, errorFolder, created, now);
      ArchiveBoth(stamped, logFolder, errorFolder, cutoff, mainFaults, errorFaults).dirs == s.dirs
  {
    var stamped := RenamedAndStamped(s, logFolder, errorFolder, created, now);
    PassOnlyRemoves(stamped, logFolder, LogArchive, cutoff, mainFaults);
    PassOnlyRemoves(ArchivePass(stamped, logFolder, LogArchive, cutoff, mainFaults), errorFolder, ErrorArchive, cutoff, errorFaults);
  }

  /** Archive passes keep the active files; a rotation that raises nothing therefore ends with the pair fresh for today. */
  lemma RotationLeavesPairFresh(s: DiskState, logFolder: string, errorFolder: string,
                                now: Timestamp, archiveDays: int, faults: Faults)
    requires ValidTimestamp(now)
    requires RotationCheck(s, logFolder, errorFolder, now.date).Stale?
    requires !RotationRaises(s, logFolder, errorFolder, now.date, faults)
    ensures RotationCheck(RotationOutcome(s, logFolder, errorFolder, now, archiveDays, faults),
                          logFolder, errorFolder, now.date) == SameDay
  {
    var created := RotationCheck(s, logFolder, errorFolder, now.date).created;
    var main := ActiveLog(logFolder);
    var stamped := RenamedAndStamped(s, logFolder, errorFolder, created, now);
    RenamedByCreationDate(s, logFolder, errorFolder, created, now);
    var cutoff := Cutoff(now.date, archiveDays);
    var a1 := ArchivePass(stamped, logFolder, LogArchive, cutoff, faults.mainArchive);
    PassKeepsActiveFiles(stamped, logFolder, LogArchive, cutoff, faults.mainArchive, main);
    PassKeepsActiveFiles(a1, errorFolder, ErrorArchive, cutoff, faults.errorArchive, main);
    var a2 := ArchiveBoth(stamped, logFolder, errorFolder, cutoff, faults.mainArchive, faults.errorArchive);
    RotationKeepsFolders(s, logFolder, errorFolder, created, now, cutoff, faults.mainArchive, faults.errorArchive);
    OpenStopsWhereItRaises(a2, logFolder, errorFolder, faults.reopen);
    OpenKeepsContents(a2, logFolder, errorFolder);
    ReadCreationOfStamp(now, "");
    assert StampLine(now) + "" == StampLine(now);
  }

  /**
   * Same-day rotation is idempotent: after a check that raised nothing, a
   * second check at any clock reading of the same day changes nothing,
   * whatever its faults.
   */
  lemma RotationIsIdempotent(s: DiskState, logFolder: string, errorFolder: string,
                             now: Timestamp, later: Timestamp, archiveDays: int, faults: Faults, again: Faults)
    requires ValidTimestamp(now) && ValidTimestamp(later) && later.date == now.date
    requires !RotationRaises(s, logFolder, errorFolder, now.date, faults)
    ensures var t := RotationOutcome(s, logFolder, errorFolder, now, archiveDays, faults);
      RotationOutcome(t, logFolder, errorFolder, later, archiveDays, again) == t
  {
    if RotationCheck(s, logFolder, errorFolder, now.date).Stale? {
      RotationLeavesPairFresh(s, logFolder, errorFolder, now, archiveDays, faults);
    }
  }

  /** A fault-free rotation is the renaming and stamping, both archive passes, then opening the handlers. */
  lemma FaultFreeRotation(s: DiskState, logFolder: string, errorFolder: string, now: Timestamp, archiveDays: int)
    requires ValidTimestamp(now) && logFolder in s.dirs
    requires RotationCheck(s, logFolder, errorFolder, now.date).Stale?
    ensures var created := RotationCheck(s, logFolder, errorFolder, now.date).created;
      var cutoff := Cutoff(now.date, archiveDays);
      var stamped := RenamedAndStamped(s, logFolder, errorFolder, created, now);
      var a1 := ArchivePass(stamped, logFolder, LogArchive, cutoff, NoArchiveFaults);
      var a2 := ArchivePass(a1, errorFolder, ErrorArchive, cutoff, NoArchiveFaults);
      RotationOutcome(s, logFolder, errorFolder, now, archiveDays, NoFaults) == OpenActiveFiles(a2, logFolder, errorFolder)
  {
    var created := RotationCheck(s, logFolder, errorFolder, now.date).created;
    var cutoff := Cutoff(now.date, archiveDays);
    var stamped := RenamedAndStamped(s, logFolder, errorFolder, created, now);
    var a2 := ArchiveBoth(stamped, logFolder, errorFolder, cutoff, NoArchiveFaults, NoArchiveFaults);
    RotationKeepsFolders(s, logFolder, errorFolder, created, now, cutoff, NoArchiveFaults, NoArchiveFaults);
    assert Opened(a2, logFolder, errorFolder, NoOpenFault) == OpenActiveFiles(a2, logFolder, errorFolder);
    assert RotationOutcome(s, logFolder, errorFolder, now, archiveDays, NoFaults)
        == Rotated(s, logFolder, errorFolder, created, now, archiveDays, NoFaults);
  }

  /**
   * A rotated main log younger than the cutoff stays on disk with the old
   * active contents after a fault-free rotation (a file two days old under a
   * 30-day retention, say).
   */
  lemma YoungRotatedLogStays(s: DiskState, logFolder: string, errorFolder: string, now: Timestamp, archiveDays: int)
    requires ValidTimestamp(now) && logFolder in s.dirs
    requires RotationCheck(s, logFolder, errorFolder, now.date).Stale?
    requires Ordinal(RotationCheck(s, logFolder, errorFolder, now.date).created) > Cutoff(now.date, archiveDays)
    ensures var created := RotationCheck(s, logFolder, errorFolder, now.date).created;
      var t := RotationOutcome(s, logFolder, errorFolder, now, archiveDays, NoFaults);
      var rotated := Path(logFolder, RotatedLogName(created));
      rotated in t.files && t.files[rotated] == s.files[ActiveLog(logFolder)]
  {
    var created := RotationCheck(s, logFolder, errorFolder, now.date).created;
    var cutoff := Cutoff(now.date, archiveDays);
    var rotated := Path(logFolder, RotatedLogName(created));
    var stamped := RenamedAndStamped(s, logFolder, errorFolder, created, now);
    RenamedByCreationDate(s, logFolder, errorFolder, created, now);
    RotatedNamesCarryDate(created);
    var a1 := ArchivePass(stamped, logFolder, LogArchive, cutoff, NoArchiveFaults);
    var a2 := ArchivePass(a1, errorFolder, ErrorArchive, cutoff, NoArchiveFaults);
    PassKeepsUnselected(stamped, logFolder, LogArchive, cutoff, NoArchiveFaults, rotated);
    PassKeepsUnselected(a1, errorFolder, ErrorArchive, cutoff, NoArchiveFaults, rotated);
    OpenKeepsContents(a2, logFolder, errorFolder);
    FaultFreeRotation(s, logFolder, errorFolder, now, archiveDays);
  }

  /**
   * A rotated main log dated on or before the cutoff is archived under its
   * own name by the same fault-free rotation and is no longer on disk.
   */
  lemma OldRotatedLogIsArchived(s: DiskState, logFolder: string, errorFolder: string, now: Timestamp, archiveDays: int)
    requires ValidTimestamp(now) && logFolder in s.dirs
    requires RotationCheck(s, logFolder, errorFolder, now.date).Stale?
    requires Ordinal(RotationCheck(s, logFolder, errorFolder, now.date).created) <= Cutoff(now.date, archiveDays)
    ensures var created := RotationCheck(s, logFolder, errorFolder, now.date).created;
      var t := RotationOutcome(s, logFolder, errorFolder, now, archiveDays, NoFaults);
      && Path(logFolder, RotatedLogName(created)) !in t.files
      && Path(logFolder, LogArchive) in t.archives
      && RotatedLogName(created) in t.archives[Path(logFolder, LogArchive)]
  {
    var created := RotationCheck(s, logFolder, errorFolder, now.date).created;
    var cutoff := Cutoff(now.date, archiveDays);
    var rotated := Path(logFolder, RotatedLogName(created));
    var stamped := RenamedAndStamped(s, logFolder, errorFolder, created, now);
    RenamedByCreationDate(s, logFolder, errorFolder, created, now);
    RotatedNamesCarryDate(created);
    assert RotatedLogName(created) in Selected(stamped, logFolder, cutoff);
    SuccessfulPassEntries(stamped, logFolder, LogArchive, cutoff);
    var a1 := ArchivePass(stamped, logFolder, LogArchive, cutoff, NoArchiveFaults);
    PassOnlyRemoves(a1, errorFolder, ErrorArchive, cutoff, NoArchiveFaults);
    PassKeepsOtherArchives(a1, errorFolder, ErrorArchive, cutoff, NoArchiveFaults, Path(logFolder, LogArchive));
    var a2 := ArchivePass(a1, errorFolder, ErrorArchive, cutoff, NoArchiveFaults);
    OpenKeepsContents(a2, logFolder, errorFolder);
    FaultFreeRotation(s, logFolder, errorFolder, now, archiveDays);
  }

  // ---------------------------------------------------------------------
  // Warm-up

  /**
   * After a warm-up that raised nothing, both active files exist and the
   * pair is fresh for today, unless `.latest.log` existed already with a
   * first line that does not parse: then it is left as it was, and stays so.
   */
  lemma WarmUpLeavesPairFresh(s: DiskState, logFolder: string, errorFolder: string, now: Timestamp,
                              archiveDays: int, stamp: StampFault, open: OpenFault, faults: Faults)
    requires ValidTimestamp(now)
    requires !WarmUpRaises(s, logFolder, errorFolder, now, stamp, open, faults)
    ensures var t := WarmUpOutcome(s, logFolder, errorFolder, now, archiveDays, stamp, open, faults);
      var c := RotationCheck(t, logFolder, errorFolder, now.date);
      && (c == SameDay || c == Unparsable)
      && (c == Unparsable ==>
            ActiveLog(logFolder) in s.files && ReadCreation(s.files[ActiveLog(logFolder)]) == None
            && t.files[ActiveLog(logFolder)] == s.files[ActiveLog(logFolder)])
  {
    var main := ActiveLog(logFolder);
    if main !in s.files {
      var created := s.(dirs := s.dirs + {logFolder}, files := s.files[main := StampLine(now)]);
      assert FirstStamp(s, logFolder, now, stamp) == created;
      OpenStopsWhereItRaises(created, logFolder, errorFolder, open);
      OpenKeepsContents(created, logFolder, errorFolder);
      ReadCreationOfStamp(now, "");
      assert StampLine(now) + "" == StampLine(now);
    } else {
      var withHandlers := OpenActiveFiles(s, logFolder, errorFolder);
      OpenKeepsContents(s, logFolder, errorFolder);
      if RotationCheck(withHandlers, logFolder, errorFolder, now.date).Stale? {
        RotationLeavesPairFresh(withHandlers, logFolder, errorFolder, now, archiveDays, faults);
      }
    }
  }
}
