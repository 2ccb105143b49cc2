/**
 * What one archive pass over one folder does to the disk (the body of the
 * folder loop in `Logger.archive_old_logs`), as a function of the disk before
 * the pass, the retention cutoff and the I/O faults the environment raises.
 * The lemmas state the pass's guarantees: which files it selects, that the
 * archive keeps every old entry and gains the selected names, that sources are
 * removed only after the swap, and where the code keeps less than that.
 */
module ArchiveEngine {
  import opened Wrappers
  import opened Calendar
  import opened DateText
  import opened LogNames
  import opened FileSystem

  /**
   * How far a loop over items got before an exception ended it. The loops run
   * in directory order and in archive-entry order, which are unspecified here,
   * so a fault is named by the set of items handled before it.
   */
  datatype Progress = Completes | AbortsAfter(done: set<string>)

  /** Where the copy-then-swap part of a pass stops. */
  datatype SwapStep =
    | Swaps            // the temporary archive replaces the archive
    | FailsBeforeSwap  // creating, writing or closing the temporary archive, or removing the old one, raises
    | RenameFails      // the old archive is gone, then renaming the temporary archive raises

  /** The faults of one pass. */
  datatype ArchiveFaults = ArchiveFaults(
    namelistFails: bool,  // reading the old archive's entry names raises
    copy: Progress,       // copying the old entries into the temporary archive
    swap: SwapStep,
    removal: Progress)    // removing the archived source files

  const NoArchiveFaults: ArchiveFaults := ArchiveFaults(false, Completes, Swaps, Completes)

  predicate Reaches(p: Progress, n: string) {
    p.Completes? || n in p.done
  }

  /** The day number of `today - timedelta(days=archiveDays)`. */
  function Cutoff(today: Date, archiveDays: int): int
    requires ValidDate(today)
  {
    Ordinal(today) - archiveDays
  }

  /** The scan's test for one name: a dated `*.log` that is not active, dated on or before the cutoff. */
  predicate Eligible(name: string, cutoff: int) {
    && MatchesLogGlob(name)
    && !IsActiveName(name)
    && FileDate(name).Some?
    && Ordinal(FileDate(name).value) <= cutoff
  }

  /** `files_to_archive`, as a set: the eligible files of the folder. */
  function Selected(s: DiskState, dir: string, cutoff: int): (r: set<string>)
    ensures forall n :: n in r <==> Path(dir, n) in s.files && Eligible(n, cutoff)
  {
    set n | n in DirNames(s.files, dir) && Eligible(n, cutoff)
  }

  /** The archive at `arch`, or no entries when there is none. */
  function OldArchive(s: DiskState, arch: Path): Archive {
    if arch in s.archives then s.archives[arch] else map[]
  }

  /** `existing_files_in_archive`: the old entry names, or none when there is no archive or reading it fails. */
  function ExistingNames(s: DiskState, arch: Path, f: ArchiveFaults): (r: set<string>)
    ensures r <= OldArchive(s, arch).Keys
  {
    if arch in s.archives && !f.namelistFails then s.archives[arch].Keys else {}
  }

  /** The entries `names` of the archive `prior`, as copied into another archive. */
  function Entries(prior: Archive, names: set<string>): (r: Archive)
    requires names <= prior.Keys
    ensures r.Keys == names && forall n | n in names :: r[n] == prior[n]
  {
    map n | n in names :: prior[n]
  }

  /** The files `names` of folder `dir`, as entries named by their base names. */
  function FileEntries(files: map<Path, string>, dir: string, names: set<string>): (r: Archive)
    requires forall n | n in names :: Path(dir, n) in files
    ensures r.Keys == names && forall n | n in names :: r[n] == files[Path(dir, n)]
  {
    map n | n in names :: files[Path(dir, n)]
  }

  /** The names whose copy the fault lets through. */
  function CopiedNames(existing: set<string>, copy: Progress): (r: set<string>)
    ensures forall n :: n in r <==> n in existing && Reaches(copy, n)
  {
    set n | n in existing && Reaches(copy, n)
  }

  /** The temporary archive once written: the old entries copied, then each selected file not already listed. */
  function Rebuilt(s: DiskState, dir: string, arch: Path, sel: set<string>, f: ArchiveFaults): Archive
    requires forall n | n in sel :: Path(dir, n) in s.files
  {
    var prior := OldArchive(s, arch);
    var existing := ExistingNames(s, arch, f);
    Entries(prior, CopiedNames(existing, f.copy)) + FileEntries(s.files, dir, sel - existing)
  }

  /** The disk after the temporary archive of a pass with selection `sel` has been written and swapped in, or not. */
  function Swapped(s: DiskState, dir: string, archiveName: string, sel: set<string>, f: ArchiveFaults): DiskState
    requires forall n | n in sel :: Path(dir, n) in s.files
  {
    var arch := Path(dir, archiveName);
    var temp := Path(dir, TempArchiveName(archiveName));
    match f.swap
    case FailsBeforeSwap => s.(archives := s.archives - {temp})
    case RenameFails => s.(archives := s.archives - {temp, arch})
    case Swaps =>
      s.(archives := (s.archives - {temp})[arch := Rebuilt(s, dir, arch, sel, f)],
         files := s.files - PathsIn(dir, set n | n in sel && Reaches(f.removal, n)))
  }

  /** The disk after one archive pass over folder `dir` into the archive named `archiveName`. */
  function ArchivePass(s: DiskState, dir: string, archiveName: string, cutoff: int, f: ArchiveFaults): DiskState {
    var sel := Selected(s, dir, cutoff);
    if dir !in s.dirs || sel == {} then s else Swapped(s, dir, archiveName, sel, f)
  }

  // ---------------------------------------------------------------------
  // Selection

  /**
   * The ordinal test is Python's date test: with `c` the cutoff date
   * (`today - timedelta(days)`), a file is selected exactly when its name is
   * a non-active `*.log` whose date part parses and is `<= c`.
   */
  lemma SelectionByCutoffDate(s: DiskState, dir: string, today: Date, archiveDays: int, c: Date, n: string)
    requires ValidDate(today) && ValidDate(c) && Ordinal(c) == Ordinal(today) - archiveDays
    ensures n in Selected(s, dir, Cutoff(today, archiveDays)) <==>
      && Path(dir, n) in s.files
      && MatchesLogGlob(n) && !IsActiveName(n)
      && FileDate(n).Some? && NotAfter(FileDate(n).value, c)
  {
    if MatchesLogGlob(n) && FileDate(n).Some? {
      OrdinalOrder(FileDate(n).value, c);
    }
  }

  /** A rotated file is selected exactly when its creation date is on or before the cutoff. */
  lemma RotatedFileSelection(s: DiskState, dir: string, cutoff: int, d: Date)
    requires ValidDate(d)
    ensures Path(dir, RotatedLogName(d)) in s.files ==>
      (RotatedLogName(d) in Selected(s, dir, cutoff) <==> Ordinal(d) <= cutoff)
    ensures Path(dir, RotatedErrorLogName(d)) in s.files ==>
      (RotatedErrorLogName(d) in Selected(s, dir, cutoff) <==> Ordinal(d) <= cutoff)
  {
    RotatedNamesCarryDate(d);
  }

  // ---------------------------------------------------------------------
  // What a pass leaves alone

  /**
   * A pass creates no file or folder, and every file it does not select
   * (active files, undated names, files of other folders, files too young)
   * stays with its contents.
   */
  lemma PassKeepsUnselected(s: DiskState, dir: string, archiveName: string, cutoff: int, f: ArchiveFaults, p: Path)
    requires p in s.files && !(p.dir == dir && Eligible(p.name, cutoff))
    ensures var t := ArchivePass(s, dir, archiveName, cutoff, f);
      t.dirs == s.dirs && t.files.Keys <= s.files.Keys && p in t.files && t.files[p] == s.files[p]
  {
  }

  /** A pass creates no file and no folder. */
  lemma PassOnlyRemoves(s: DiskState, dir: string, archiveName: string, cutoff: int, f: ArchiveFaults)
    ensures var t := ArchivePass(s, dir, archiveName, cutoff, f);
      t.dirs == s.dirs && t.files.Keys <= s.files.Keys
  {
  }

  /** A pass changes no archive but its own archive and temporary archive. */
  lemma PassKeepsOtherArchives(s: DiskState, dir: string, archiveName: string, cutoff: int, f: ArchiveFaults, q: Path)
    requires q in s.archives && q != Path(dir, archiveName) && q != Path(dir, TempArchiveName(archiveName))
    ensures var t := ArchivePass(s, dir, archiveName, cutoff, f);
      q in t.archives && t.archives[q] == s.archives[q]
  {
  }

  /** Active files survive every pass unchanged, whatever fails. */
  lemma PassKeepsActiveFiles(s: DiskState, dir: string, archiveName: string, cutoff: int, f: ArchiveFaults, p: Path)
    requires p in s.files && IsActiveName(p.name)
    ensures var t := ArchivePass(s, dir, archiveName, cutoff, f);
      p in t.files && t.files[p] == s.files[p]
  {
    PassKeepsUnselected(s, dir, archiveName, cutoff, f, p);
  }

  /** Names whose date part does not parse are skipped and stay on disk. */
  lemma PassKeepsUndatedFiles(s: DiskState, dir: string, archiveName: string, cutoff: int, f: ArchiveFaults, p: Path)
    requires p in s.files && MatchesLogGlob(p.name) && FileDate(p.name) == None
    ensures var t := ArchivePass(s, dir, archiveName, cutoff, f);
      p in t.files && t.files[p] == s.files[p]
  {
    PassKeepsUnselected(s, dir, archiveName, cutoff, f, p);
  }

  /** With nothing selected, the folder's archive, its files and everything else stay exactly as they were. */
  lemma EmptySelectionChangesNothing(s: DiskState, dir: string, archiveName: string, cutoff: int, f: ArchiveFaults)
    requires Selected(s, dir, cutoff) == {}
    ensures ArchivePass(s, dir, archiveName, cutoff, f) == s
  {
  }

  // ---------------------------------------------------------------------
  // A successful pass

  /** A fault-free pass leaves the old names plus the selected names, old entries unchanged, new ones with the files' contents. */
  lemma SuccessfulPassEntries(s: DiskState, dir: string, archiveName: string, cutoff: int)
    requires dir in s.dirs && Selected(s, dir, cutoff) != {}
    ensures var t := ArchivePass(s, dir, archiveName, cutoff, NoArchiveFaults);
      var arch := Path(dir, archiveName);
      var prior := OldArchive(s, arch);
      var sel := Selected(s, dir, cutoff);
      && arch in t.archives
      && t.archives[arch].Keys == prior.Keys + sel
      && (forall n | n in prior :: t.archives[arch][n] == prior[n])
      && (forall n | n in sel && n !in prior :: t.archives[arch][n] == s.files[Path(dir, n)])
      && (forall n | n in sel :: Path(dir, n) !in t.files)
  {
    var f := NoArchiveFaults;
    var arch := Path(dir, archiveName);
    var prior := OldArchive(s, arch);
    var sel := Selected(s, dir, cutoff);
    assert ArchivePass(s, dir, archiveName, cutoff, f) == Swapped(s, dir, archiveName, sel, f);
    assert ExistingNames(s, arch, f) == prior.Keys;
    assert CopiedNames(prior.Keys, f.copy) == prior.Keys;
    var r := Rebuilt(s, dir, arch, sel, f);
    assert r == Entries(prior, prior.Keys) + FileEntries(s.files, dir, sel - prior.Keys);
    assert r.Keys == prior.Keys + sel;
  }

  /**
   * The archive never re-adds a name it listed: an entry that was already
   * there keeps its old contents even when a file of the same name was
   * selected and removed (a file restored from a backup, say).
   */
  lemma ListedNameIsNotReplaced(s: DiskState, dir: string, archiveName: string, cutoff: int, f: ArchiveFaults, n: string)
    requires dir in s.dirs && f.swap == Swaps
    requires n in ExistingNames(s, Path(dir, archiveName), f) && Reaches(f.copy, n)
    requires n in Selected(s, dir, cutoff)
    ensures var t := ArchivePass(s, dir, archiveName, cutoff, f);
      var arch := Path(dir, archiveName);
      t.archives[arch][n] == s.archives[arch][n]
  {
  }

  /** Whatever the faults, no temporary archive is left behind by a pass that selected files. */
  lemma NoTemporaryArchiveLeft(s: DiskState, dir: string, archiveName: string, cutoff: int, f: ArchiveFaults)
    requires dir in s.dirs && Selected(s, dir, cutoff) != {}
    ensures Path(dir, TempArchiveName(archiveName)) !in ArchivePass(s, dir, archiveName, cutoff, f).archives
  {
    assert TempArchiveName(archiveName) != archiveName;
  }

  /**
   * Sources are removed only after the swap: a pass that raises before the
   * rename has completed leaves every file as it was (and, failing before
   * the old archive is removed, the old archive as well); any file a pass
   * removes was selected, and its pass put the rebuilt archive in place.
   */
  lemma RemovalOnlyAfterSwap(s: DiskState, dir: string, archiveName: string, cutoff: int, f: ArchiveFaults)
    ensures var t := ArchivePass(s, dir, archiveName, cutoff, f);
      var arch := Path(dir, archiveName);
      && (f.swap != Swaps ==> t.files == s.files)
      && (f.swap == FailsBeforeSwap ==> OldArchive(t, arch) == OldArchive(s, arch))
      && (forall p | p in s.files && p !in t.files ::
            && p.dir == dir && p.name in Selected(s, dir, cutoff)
            && f.swap == Swaps
            && arch in t.archives
            && t.archives[arch] == Rebuilt(s, dir, arch, Selected(s, dir, cutoff), f))
  {
    var t := ArchivePass(s, dir, archiveName, cutoff, f);
    assert TempArchiveName(archiveName) != archiveName;
    forall p | p in s.files && p !in t.files
      ensures p.dir == dir && p.name in Selected(s, dir, cutoff) && f.swap == Swaps
    {
      if !(p.dir == dir && Eligible(p.name, cutoff)) {
        PassKeepsUnselected(s, dir, archiveName, cutoff, f, p);
      }
    }
  }

  /**
   * When the old entries were all copied, every file a pass removes is in the
   * new archive under its own name, and with its own contents unless that
   * name was already listed.
   */
  lemma RemovedFilesAreArchived(s: DiskState, dir: string, archiveName: string, cutoff: int, f: ArchiveFaults, p: Path)
    requires f.copy == Completes
    requires p in s.files && p !in ArchivePass(s, dir, archiveName, cutoff, f).files
    ensures var t := ArchivePass(s, dir, archiveName, cutoff, f);
      var arch := Path(dir, archiveName);
      && arch in t.archives && p.name in t.archives[arch]
      && (p.name !in ExistingNames(s, arch, f) ==> t.archives[arch][p.name] == s.files[p])
  {
    RemovalOnlyAfterSwap(s, dir, archiveName, cutoff, f);
  }

  /**
   * Passes compose: after a pass that swapped and removed all it selected,
   * another pass with the same cutoff finds nothing, whatever its faults, so
   * the entry set stays the union however many passes run.
   */
  lemma SecondPassChangesNothing(s: DiskState, dir: string, archiveName: string, cutoff: int, f: ArchiveFaults, g: ArchiveFaults)
    requires f.swap == Swaps && f.removal == Completes
    ensures var t := ArchivePass(s, dir, archiveName, cutoff, f);
      ArchivePass(t, dir, archiveName, cutoff, g) == t
  {
    var t := ArchivePass(s, dir, archiveName, cutoff, f);
    if dir in s.dirs && Selected(s, dir, cutoff) != {} {
      forall n | n in Selected(t, dir, cutoff) ensures false {
        PassKeepsUnselected(s, dir, archiveName, cutoff, f, Path(dir, n));
      }
    }
  }

  // ---------------------------------------------------------------------
  // Where the pass keeps less than an all-or-nothing swap

  /**
   * An unreadable archive counts as empty: the new archive holds only the
   * selected files, and the old entries are gone once it is swapped in.
   */
  lemma UnreadableArchiveIsReplaced(s: DiskState, dir: string, archiveName: string, cutoff: int, f: ArchiveFaults)
    requires dir in s.dirs && Selected(s, dir, cutoff) != {}
    requires f.namelistFails && f.swap == Swaps
    ensures ArchivePass(s, dir, archiveName, cutoff, f).archives[Path(dir, archiveName)].Keys
            == Selected(s, dir, cutoff)
  {
  }

  /**
   * A copy that aborts still blocks the names it did not get to: a selected
   * file whose name was listed but not copied is removed from disk and is in
   * neither the new archive nor the folder afterwards.
   */
  lemma AbortedCopyLosesListedFile(s: DiskState, dir: string, archiveName: string, cutoff: int, f: ArchiveFaults, n: string)
    requires dir in s.dirs && f.swap == Swaps && Reaches(f.removal, n)
    requires n in Selected(s, dir, cutoff) && n in ExistingNames(s, Path(dir, archiveName), f)
    requires !Reaches(f.copy, n)
    ensures var t := ArchivePass(s, dir, archiveName, cutoff, f);
      Path(dir, n) !in t.files && n !in t.archives[Path(dir, archiveName)]
  {
  }

  /**
   * The swap is remove-then-rename: when the rename fails the old archive has
   * already been removed, and the temporary one is cleaned up, so the folder
   * is left with no archive at all (its sources are still there).
   */
  lemma FailedRenameLeavesNoArchive(s: DiskState, dir: string, archiveName: string, cutoff: int, f: ArchiveFaults)
    requires dir in s.dirs && Selected(s, dir, cutoff) != {} && f.swap == RenameFails
    ensures var t := ArchivePass(s, dir, archiveName, cutoff, f);
      Path(dir, archiveName) !in t.archives && t.files == s.files
  {
  }

  // ---------------------------------------------------------------------
  // The pass as its docstring and comments intend

  /**
   * The rebuild with the duplicate test made against the names actually
   * copied, not the names listed: a listed name whose copy was cut short is
   * added from its file.
   */
  function IntendedRebuilt(s: DiskState, dir: string, arch: Path, sel: set<string>, f: ArchiveFaults): Archive
    requires forall n | n in sel :: Path(dir, n) in s.files
  {
    var copied := CopiedNames(ExistingNames(s, arch, f), f.copy);
    Entries(OldArchive(s, arch), copied) + FileEntries(s.files, dir, sel - copied)
  }

  /**
   * The swap done as one replacing rename (`os.replace`): when it fails, the
   * old archive is still in place and only the temporary one is cleaned up.
   */
  function IntendedSwapped(s: DiskState, dir: string, archiveName: string, sel: set<string>, f: ArchiveFaults): DiskState
    requires forall n | n in sel :: Path(dir, n) in s.files
  {
    var arch := Path(dir, archiveName);
    var temp := Path(dir, TempArchiveName(archiveName));
    match f.swap
    case FailsBeforeSwap => s.(archives := s.archives - {temp})
    case RenameFails => s.(archives := s.archives - {temp})
    case Swaps =>
      s.(archives := (s.archives - {temp})[arch := IntendedRebuilt(s, dir, arch, sel, f)],
         files := s.files - PathsIn(dir, set n | n in sel && Reaches(f.removal, n)))
  }

  /** One archive pass with both corrections. */
  function IntendedPass(s: DiskState, dir: string, archiveName: string, cutoff: int, f: ArchiveFaults): DiskState {
    var sel := Selected(s, dir, cutoff);
    if dir !in s.dirs || sel == {} then s else IntendedSwapped(s, dir, archiveName, sel, f)
  }

  /**
   * With the corrected duplicate test, every file a pass removes is in the new
   * archive under its own name, whatever the faults: with its old entry when
   * that was copied, and with its own contents otherwise.
   */
  lemma IntendedPassArchivesRemovedFiles(s: DiskState, dir: string, archiveName: string, cutoff: int, f: ArchiveFaults)
    ensures var t := IntendedPass(s, dir, archiveName, cutoff, f);
      var arch := Path(dir, archiveName);
      var copied := CopiedNames(ExistingNames(s, arch, f), f.copy);
      forall p | p in s.files && p !in t.files ::
        && arch in t.archives && p.name in t.archives[arch]
        && t.archives[arch][p.name] == (if p.name in copied then OldArchive(s, arch)[p.name] else s.files[p])
  {
    var t := IntendedPass(s, dir, archiveName, cutoff, f);
    var arch := Path(dir, archiveName);
    var sel := Selected(s, dir, cutoff);
    var copied := CopiedNames(ExistingNames(s, arch, f), f.copy);
    if dir in s.dirs && sel != {} && f.swap == Swaps {
      var r := IntendedRebuilt(s, dir, arch, sel, f);
      assert r == Entries(OldArchive(s, arch), copied) + FileEntries(s.files, dir, sel - copied);
      assert t.archives[arch] == r;
      forall p | p in s.files && p !in t.files
        ensures p.dir == dir && p.name in sel && p.name in r
      {
      }
    }
  }

  /**
   * With the replacing rename the swap is all or nothing: a folder that had an
   * archive still has one after any pass, a pass that does not swap leaves
   * the archive and every file as they were, and one that swaps installs the
   * whole rebuilt archive.
   */
  lemma IntendedPassKeepsAnArchive(s: DiskState, dir: string, archiveName: string, cutoff: int, f: ArchiveFaults)
    ensures var t := IntendedPass(s, dir, archiveName, cutoff, f);
      var arch := Path(dir, archiveName);
      && (arch in s.archives ==> arch in t.archives)
      && (f.swap != Swaps ==> OldArchive(t, arch) == OldArchive(s, arch) && t.files == s.files)
      && (f.swap == Swaps && dir in s.dirs && Selected(s, dir, cutoff) != {} ==>
            t.archives[arch] == IntendedRebuilt(s, dir, arch, Selected(s, dir, cutoff), f))
  {
    assert TempArchiveName(archiveName) != archiveName;
  }

  /** The corrections change only what a cut-short copy or a failed rename does. */
  lemma IntendedPassAgreesWithoutThoseFaults(s: DiskState, dir: string, archiveName: string, cutoff: int, f: ArchiveFaults)
    requires f.copy == Completes && f.swap != RenameFails
    ensures IntendedPass(s, dir, archiveName, cutoff, f) == ArchivePass(s, dir, archiveName, cutoff, f)
  {
    var arch := Path(dir, archiveName);
    var sel := Selected(s, dir, cutoff);
    if dir in s.dirs && sel != {} && f.swap == Swaps {
      assert CopiedNames(ExistingNames(s, arch, f), f.copy) == ExistingNames(s, arch, f);
      assert IntendedRebuilt(s, dir, arch, sel, f) == Rebuilt(s, dir, arch, sel, f);
    }
  }
}
