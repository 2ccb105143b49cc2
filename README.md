# rflog rotation and archival, modelled in Dafny

`rflog` keeps two log streams. The main stream goes to `.latest.log` in the log folder, and the error stream goes to `.latest_error.log` in the error folder. The first line of `.latest.log` records when the pair was created, as `YYYY-MM-DD HH:MM:SS`.

On a rotation check, `Logger.rotate_log_files` reads that line. If the recorded date is not today, it:
- closes the handlers;
- renames the pair to `{YYYYMMDD}.log` and `{YYYYMMDD}_error.log`, using the creation date;
- stamps a new `.latest.log`;
- runs the archive passes of `Logger.archive_old_logs`;
- opens new handlers.

For each folder, an archive pass:
- selects the dated `*.log` files whose date is on or before `today - archive_days`;
- rebuilds the folder's archive into a temporary archive. The rebuild holds the old entries first, then the selected files whose names the old archive did not list;
- swaps the temporary archive in, by removing the old archive and renaming the temporary one;
- removes the sources, and only then.

A failure while listing or copying the old archive's entries is caught, and the pass goes on. A failure from writing the temporary archive through removing the sources is caught by the pass's outer handler, which removes the temporary archive. Scanning the folder is not guarded.

The model has three layers.

**Naming and time.** These are pure definitions:
- `Calendar`: proleptic Gregorian dates, timestamps, and day ordinals;
- `DateText`: fixed-width digit text, the `%Y%m%d` and `%Y-%m-%d %H:%M:%S` formats with their strict parsers, and the "first line, stripped" reading of `.latest.log`;
- `LogNames`: the reserved names, the file-name date of the archive scan, and the rotated names.

**Specification functions.** These describe the disk after each operation, as functions of the disk before it:
- `ArchiveEngine.ArchivePass`: one archive pass;
- `RotationEngine.RotationOutcome`: one rotation check;
- `RotationEngine.WarmUpOutcome`: a warm-up.

The disk (`FileSystem.DiskState`) holds folders, text files, and archives (an archive maps entry names to contents). Failures are parameters:
- Each loop whose order the model does not fix takes a `Progress`. `AbortsAfter(done)` means the exception came after exactly the items in `done` were handled.
- The swap takes a `SwapStep`, saying where it raised.
- The removal of the sources takes a `Progress` too. The pass's outer handler catches a failure there, so the files the loop did not reach stay on disk beside the swapped-in archive.
- `warm_up` takes a `StampFault` for creating the log folder or opening the new `.latest.log`, neither of which is guarded.
- The rotation check takes a read fault, for opening and reading `.latest.log` (lines 253-254), and a `RotationFault`, saying which unguarded rename or write raised.
- `create_handler` takes an `OpenFault` for opening `.latest.log`, creating the error folder, or opening `.latest_error.log`, none of which is guarded. A rotation carries one for reopening the handlers at its end, and `warm_up` one for its own call.

**Imperative layer.** The `RfLogger` module holds `FileSystem.Disk`, a class whose primitive operations change its fields, and the `Logger` and `FileHandler` classes. Each `Logger` method does what the Python method does, step by step, with loops and invariants. It is proved to leave the disk exactly as the specification function says, and to leave the handler fields in the stated state.

## Model

| member | source | states |
|---|---|---|
| Calendar.OrdinalOrder | src/rflog/_logger_utils.py:105-106 | comparing day ordinals is comparing dates (`file_date <= cutoff_date`), in both directions; equal ordinals mean equal dates |
| DateText.DigitsValueOfPad | src/rflog/_logger_utils.py:272 | reading back a zero-padded number gives the number, when it fits the width |
| DateText.PadOfDigitsValue | src/rflog/_logger_utils.py:105 | any digit string is the zero-padded form of its value, and that value fits the width |
| DateText.ParseFormatCompactDate | src/rflog/_logger_utils.py:272 | `%Y%m%d` text of a valid date parses back to that date |
| DateText.FormatParseCompactDate | src/rflog/_logger_utils.py:105 | text the strict `%Y%m%d` parser accepts is exactly the formatting of the date it yields |
| DateText.ParseFormatTimestamp | src/rflog/_logger_utils.py:192 | the stamp written to `.latest.log` parses back to the same timestamp |
| DateText.FormatParseTimestamp | src/rflog/_logger_utils.py:256-257 | text the strict timestamp parser accepts is exactly the formatting of the timestamp it yields |
| DateText.FirstLineOfLine | src/rflog/_logger_utils.py:254 | `readline()` of text whose first line is `a`, ended by `\n`, yields `a` |
| DateText.ReadCreationOfStamp | src/rflog/_logger_utils.py:253-257 | reading the first line of a stamped `.latest.log`, stripped and parsed, yields the stamp, whatever was appended after it |
| LogNames.TempArchiveName | src/rflog/_logger_utils.py:113-114 | the temporary archive's name differs from the archive's name |
| LogNames.Stem | src/rflog/_logger_utils.py:103 | the stem followed by `.log` is the file name |
| LogNames.BeforeErrorMarker | src/rflog/_logger_utils.py:103-104 | `split('_error')[0]` is a prefix of the stem |
| LogNames.SplitAtFirstMarker | src/rflog/_logger_utils.py:103-104 | the split is at the first `_error`: none starts inside the result, and the result is followed by nothing or by `_error` |
| LogNames.BeforeErrorMarkerOf | src/rflog/_logger_utils.py:103-104 | splitting at `_error` recovers a name part that has no `_`, whether or not `_error...` follows it |
| LogNames.RotatedNamesCarryDate | src/rflog/_logger_utils.py:272-279 | both rotated names match `*.log`, are not reserved, differ from each other and from the active names, and the archive scan reads back the creation date they were made from |
| FileSystem.DirNames | src/rflog/_logger_utils.py:98 | the names the scan sees are exactly the files present in the folder |
| ArchiveEngine.Entries | src/rflog/_logger_utils.py:136-143 | the copied entries are exactly the given names, each with its old contents |
| ArchiveEngine.FileEntries | src/rflog/_logger_utils.py:154-158 | the added entries are exactly the given names, each with its file's contents |
| ArchiveEngine.SelectionByCutoffDate | src/rflog/_logger_utils.py:84-110 | a file is selected iff it is in the folder, matches `*.log`, is not `.latest*`, and its date part parses to a date on or before `today - archive_days` |
| ArchiveEngine.RotatedFileSelection | src/rflog/_logger_utils.py:98-107 | a rotated file on disk is selected iff its creation date is on or before the cutoff |
| ArchiveEngine.PassKeepsUnselected | src/rflog/_logger_utils.py:91-177 | a pass creates no file or folder, and keeps every unselected file with its contents |
| ArchiveEngine.PassOnlyRemoves | src/rflog/_logger_utils.py:91-177 | a pass adds no folder and no file |
| ArchiveEngine.PassKeepsOtherArchives | src/rflog/_logger_utils.py:113-177 | a pass changes no archive except its own archive and its temporary archive |
| ArchiveEngine.PassKeepsActiveFiles | src/rflog/_logger_utils.py:99-100 | the active files survive every pass unchanged, whatever fails |
| ArchiveEngine.PassKeepsUndatedFiles | src/rflog/_logger_utils.py:108-110 | names whose date part does not parse are skipped and stay on disk |
| ArchiveEngine.EmptySelectionChangesNothing | src/rflog/_logger_utils.py:112 | with nothing selected, the pass leaves the whole disk as it was |
| ArchiveEngine.SuccessfulPassEntries | src/rflog/_logger_utils.py:113-172 | a fault-free pass gives an archive whose names are the old names plus the selected ones; old entries keep their contents, new ones have the files' contents, and the selected files are gone |
| ArchiveEngine.ListedNameIsNotReplaced | src/rflog/_logger_utils.py:157 | after a swap, a name the old archive listed, whose listing succeeded and whose copy was reached, keeps its old contents even when a file of that name was selected |
| ArchiveEngine.NoTemporaryArchiveLeft | src/rflog/_logger_utils.py:163-177 | whatever the faults, a pass that selected files leaves no temporary archive |
| ArchiveEngine.RemovalOnlyAfterSwap | src/rflog/_logger_utils.py:160-177 | a pass that raises before the rename completes keeps every file (and, failing before the removal, the old archive); any file a pass removes was selected, and the rebuilt archive is in place |
| ArchiveEngine.RemovedFilesAreArchived | src/rflog/_logger_utils.py:154-172 | when the old entries were all copied, every removed file is in the new archive under its name, with its contents unless the name was listed before |
| ArchiveEngine.SecondPassChangesNothing | src/rflog/_logger_utils.py:91-177 | after a pass that swapped and removed everything, a second pass with the same cutoff changes nothing, whatever its faults |
| ArchiveEngine.UnreadableArchiveIsReplaced | src/rflog/_logger_utils.py:118-124 | when reading the old archive's names fails, the swapped-in archive holds exactly the selected names |
| ArchiveEngine.AbortedCopyLosesListedFile | src/rflog/_logger_utils.py:131-172 | a listed name whose copy was cut short, when its file was selected, ends up in neither the new archive nor the folder |
| ArchiveEngine.FailedRenameLeavesNoArchive | src/rflog/_logger_utils.py:161-177 | when the rename fails after the old archive was removed, the folder has no archive, but all its files remain |
| RotationEngine.RotationCheck | src/rflog/_logger_utils.py:248-267 | a stale finding carries a valid creation date that differs from today |
| RotationEngine.Touched | src/rflog/_logger_utils.py:203-216 | opening for append adds the path, creates it empty when absent, and keeps every existing file's contents |
| RotationEngine.CheckIsEquality | src/rflog/_logger_utils.py:263-267 | with a readable stamp the check finds `SameDay` exactly when the recorded date is today, and `Stale` with the recorded date for every other date, earlier or later |
| RotationEngine.OnlyStaleChecksChangeTheDisk | src/rflog/_logger_utils.py:248-267 | a check that finds the pair missing, unparsable or from today leaves the disk unchanged, whatever its faults |
| RotationEngine.RenamedByCreationDate | src/rflog/_logger_utils.py:272-286 | the pair is renamed by its creation date; `.latest.log` holds only the new stamp; the old error file is gone; nothing else changes |
| RotationEngine.OpenKeepsContents | src/rflog/_logger_utils.py:198-226 | opening the handlers keeps every file's contents and the archives, and leaves both active files present |
| RotationEngine.RotationLeavesPairFresh | src/rflog/_logger_utils.py:238-292 | after a stale check in which no rename, stamp write or reopen raised, a check of the new disk on the same day finds the pair fresh, whatever the archive passes did |
| RotationEngine.RotationIsIdempotent | src/rflog/_logger_utils.py:238-292 | after a check that raised nothing, a second check at any clock reading of the same day changes nothing, whatever its faults |
| RotationEngine.FaultFreeRotation | src/rflog/_logger_utils.py:270-292 | a fault-free rotation is the rename and stamp, then the log-folder pass, then the error-folder pass, then opening the handlers |
| RotationEngine.YoungRotatedLogStays | src/rflog/_logger_utils.py:277-289 | a rotated main log younger than the cutoff stays on disk with the old active contents |
| RotationEngine.OldRotatedLogIsArchived | src/rflog/_logger_utils.py:277-289 | a rotated main log dated on or before the cutoff ends up in the log archive and off the disk |
| RotationEngine.WarmUpLeavesPairFresh | src/rflog/_logger_utils.py:180-196 | after a warm-up that raised nothing (its stamp step, its `create_handler` call, the rotation check), the pair is fresh for today, unless `.latest.log` already existed with an unreadable first line, which is then left as it was |
| DateText.FormatCompactDate | src/rflog/_logger_utils.py:272 | `strftime("%Y%m%d")`: eight digits; `ParseFormatCompactDate` and `FormatParseCompactDate` pair it with its parser |
| DateText.ParseCompactDate | src/rflog/_logger_utils.py:105 | `strptime(.., "%Y%m%d")`, strict: a parsed date is a valid calendar date; the two round-trip lemmas state what it accepts |
| DateText.FormatTimestamp | src/rflog/_logger_utils.py:192 | `strftime("%Y-%m-%d %H:%M:%S")`: always 19 characters; paired with `ParseTimestamp` by the two round-trip lemmas |
| DateText.ParseTimestamp | src/rflog/_logger_utils.py:256-257 | `strptime(.., "%Y-%m-%d %H:%M:%S")`, strict: a parsed timestamp is valid |
| DateText.ReadCreation | src/rflog/_logger_utils.py:253-257 | the creation time read from `.latest.log`'s first line, stripped; `ReadCreationOfStamp` states that a stamped file reads back its stamp |
| LogNames.RotatedLogName | src/rflog/_logger_utils.py:272-277 | `{YYYYMMDD}.log`; `RotatedNamesCarryDate` states its properties |
| LogNames.RotatedErrorLogName | src/rflog/_logger_utils.py:272-279 | `{YYYYMMDD}_error.log`; `RotatedNamesCarryDate` states its properties |
| LogNames.FileDate | src/rflog/_logger_utils.py:103-105 | the date read from a `*.log` name's stem up to `_error`, which is a valid date when it parses |
| FileSystem.Disk.MakeDir | src/rflog/_logger_utils.py:189-190 | adds the folder; nothing else changes |
| FileSystem.Disk.WriteText | src/rflog/_logger_utils.py:285-286 | `open(p, "w").write(text)`: the file holds exactly `text`; nothing else changes |
| FileSystem.Disk.OpenForAppend | src/rflog/_logger_utils.py:203-206 | `open(p, "a")`: creates the file empty when absent, otherwise changes nothing |
| FileSystem.Disk.Rename | src/rflog/_logger_utils.py:281-282 | the file moves to the new path with its contents; the old path is gone |
| FileSystem.Disk.Remove | src/rflog/_logger_utils.py:171-172 | the file is gone; nothing else changes |
| FileSystem.Disk.CreateArchive | src/rflog/_logger_utils.py:127-129 | `ZipFile(p, "w")`: an empty archive at `p`, replacing any archive there |
| FileSystem.Disk.CloseArchive | src/rflog/_logger_utils.py:127-158 | closing the writer leaves the archive holding exactly the entries written |
| FileSystem.Disk.RemoveArchive | src/rflog/_logger_utils.py:161-162 | the archive is gone; nothing else changes |
| FileSystem.Disk.RenameArchive | src/rflog/_logger_utils.py:163-164 | the archive moves to the new path with its entries; the old path is gone |
| ArchiveEngine.Selected | src/rflog/_logger_utils.py:97-110 | `files_to_archive`: a name is in it iff its file is in the folder and passes the scan's test; `SelectionByCutoffDate` restates the test with dates |
| ArchiveEngine.ExistingNames | src/rflog/_logger_utils.py:115-124 | `existing_files_in_archive`: listed names of the old archive, none when it is missing or cannot be read |
| ArchiveEngine.CopiedNames | src/rflog/_logger_utils.py:136-151 | the listed names the copy loop reached before any exception |
| ArchiveEngine.Cutoff | src/rflog/_logger_utils.py:84-85 | the day number of `today - timedelta(days=archive_days)`; `SelectionByCutoffDate` ties it to the date comparison |
| ArchiveEngine.Rebuilt | src/rflog/_logger_utils.py:126-158 | the temporary archive's entries: old entries copied, then selected files whose names were not listed; `SuccessfulPassEntries` and `ListedNameIsNotReplaced` state its contents |
| ArchiveEngine.Swapped | src/rflog/_logger_utils.py:160-177 | the disk after the swap for each `SwapStep`: `RemovalOnlyAfterSwap`, `NoTemporaryArchiveLeft` and `FailedRenameLeavesNoArchive` state its promises |
| ArchiveEngine.ArchivePass | src/rflog/_logger_utils.py:93-177 | the disk after one folder's pass; the `ArchiveEngine` lemmas above state its promises, and `RfLogger.Logger.ArchiveFolder` is proved to end in it |
| ArchiveEngine.IntendedRebuilt | src/rflog/_logger_utils.py:154-158 | the rebuild with the duplicate test against the names actually copied (see Findings) |
| ArchiveEngine.IntendedSwapped | src/rflog/_logger_utils.py:160-177 | the swap as one replacing rename, so a failure keeps the old archive (see Findings) |
| ArchiveEngine.IntendedPass | src/rflog/_logger_utils.py:93-177 | the pass with both corrections (see Findings) |
| ArchiveEngine.IntendedPassArchivesRemovedFiles | src/rflog/_logger_utils.py:170-172 | with the corrected duplicate test, every removed file is in the new archive under its name, whatever the faults |
| ArchiveEngine.IntendedPassKeepsAnArchive | src/rflog/_logger_utils.py:160-164 | with the replacing rename, a folder that had an archive keeps one; a pass that does not swap keeps the old archive and every file; one that swaps installs the whole rebuilt archive |
| ArchiveEngine.IntendedPassAgreesWithoutThoseFaults | src/rflog/_logger_utils.py:126-177 | when the copy completes and the rename does not fail, the corrected pass and the pass as written give the same disk |
| RotationEngine.OpenActiveFiles | src/rflog/_logger_utils.py:203-216 | the disk side of `create_handler`; `OpenKeepsContents` states what it keeps and adds |
| RotationEngine.RenamedAndStamped | src/rflog/_logger_utils.py:272-286 | both renames and the new stamp; `RenamedByCreationDate` states the resulting files |
| RotationEngine.Rotated | src/rflog/_logger_utils.py:270-292 | the disk after rotating a stale pair, stopping at the rename, stamp write or reopen that raises; `FaultFreeRotation` and `RotationLeavesPairFresh` state its promises |
| RotationEngine.RotationOutcome | src/rflog/_logger_utils.py:238-292 | the disk after one rotation check: unchanged when the read raises, otherwise `Rotated` for a stale pair; `OnlyStaleChecksChangeTheDisk` and `RotationIsIdempotent` state its promises |
| RotationEngine.StampRaises | src/rflog/_logger_utils.py:187-192 | which stamp faults raise: creating the folder only raises when the folder is missing |
| RotationEngine.FirstStamp | src/rflog/_logger_utils.py:187-192 | the disk after creating a missing log folder and stamping a new `.latest.log`, stopping where the folder creation or the open raises |
| RotationEngine.WarmUpOutcome | src/rflog/_logger_utils.py:180-196 | the disk after `warm_up`, stopping where the stamp step or its `create_handler` call raises; `WarmUpLeavesPairFresh` states its promise |
| RotationEngine.AbortsWithoutChange | src/rflog/_logger_utils.py:248-260 | a missing `.latest.log` or `.latest_error.log`, or a first line that does not parse, leaves the disk as it was; the check then raises iff reading the first line raises, and never when an active file is missing |
| RotationEngine.OpenRaises | src/rflog/_logger_utils.py:203-216 | which open faults raise: opening `.latest.log` also raises when the log folder is missing, and creating the error folder only raises when it is missing |
| RotationEngine.Opened | src/rflog/_logger_utils.py:203-216 | the disk after `create_handler`, stopping at the open or folder creation that raises; `OpenStopsWhereItRaises` states its promises |
| RotationEngine.OpenStopsWhereItRaises | src/rflog/_logger_utils.py:203-216 | whatever raises, every file keeps its contents, only the active files are added, empty, and archives do not change; without a raise both active files are opened; a raise leaves a missing `.latest_error.log` missing |
| RotationEngine.RotationKeepsFolders | src/rflog/_logger_utils.py:281-289 | the renames, the stamp and both archive passes leave the set of folders as it was, so reopening at line 292 sees the folders the check saw |
| RotationEngine.ReadRaises | src/rflog/_logger_utils.py:248-254 | reading `.latest.log` raises under the read fault, and only once both active files are found |
| RotationEngine.ClosesHandlers | src/rflog/_logger_utils.py:253-270 | the check reaches `close_handler`: the read does not raise and the pair is stale |
| RotationEngine.RotationRaises | src/rflog/_logger_utils.py:248-292 | a rotation check raises iff opening or reading `.latest.log` raises once both active files are found, or the pair is stale and a rename, the stamp write or reopening the handlers raises |
| RotationEngine.WarmUpRaises | src/rflog/_logger_utils.py:187-196 | `warm_up` raises iff its stamp step or its `create_handler` call raises, or, with `.latest.log` present, the rotation check after it does (its read included) |
| RotationEngine.ArchiveBoth | src/rflog/_logger_utils.py:91-92 | the log-folder pass, then the error-folder pass; `OldRotatedLogIsArchived` and `RotationKeepsFolders` state what it does |
| RotationEngine.RenameMain | src/rflog/_logger_utils.py:281 | `.latest.log` moved to `{YYYYMMDD}.log` with its contents; `RenamedByCreationDate` states the result |
| RotationEngine.RenameError | src/rflog/_logger_utils.py:282 | `.latest_error.log` moved to `{YYYYMMDD}_error.log` with its contents; `RenamedByCreationDate` states the result |
| ArchiveEngine.Eligible | src/rflog/_logger_utils.py:98-107 | the scan's test for one name; `SelectionByCutoffDate` states it with dates |
| DateText.StampLine | src/rflog/_logger_utils.py:192 | the stamp text and its `\n`; `ReadCreationOfStamp` states that it reads back as its timestamp |
| DateText.FirstLine | src/rflog/_logger_utils.py:254 | `readline()` up to the first `\n` or `\r`, never longer than the text; `FirstLineOfLine` states what it yields |
| DateText.Strip | src/rflog/_logger_utils.py:254 | `str.strip()`; `ReadCreationOfStamp` states that a stamp line strips to its timestamp text |
| LogNames.MatchesLogGlob | src/rflog/_logger_utils.py:98 | the names `glob("*.log")` yields; `RotatedNamesCarryDate` states that the rotated names match |
| LogNames.IsActiveName | src/rflog/_logger_utils.py:99 | names starting with `.latest`; `PassKeepsActiveFiles` states that such files survive every pass |
| LogNames.ActiveNamesAreUndated | src/rflog/_logger_utils.py:99-105 | an active name has no date, so the date test alone would also skip it |
| Calendar.NotAfter | src/rflog/_logger_utils.py:106 | Python's `<=` on dates; `OrdinalOrder` states that it agrees with comparing day ordinals |
| RfLogger.JoinPath | src/rflog/_logger_utils.py:74-75 | joins the folder and the name with one separator; an empty folder gives the name alone |
| RfLogger.FileHandler.constructor | src/rflog/_logger_utils.py:203-206 | a new handler is open on its path |
| RfLogger.FileHandler.Close | src/rflog/_logger_utils.py:231 | the handler is closed afterwards |
| RfLogger.Logger.constructor | src/rflog/_logger_utils.py:60-75 | keeps the folders and the retention; an absent or empty error folder becomes `errors` inside the log folder; no handlers are held |
| RfLogger.Logger.SelectFiles | src/rflog/_logger_utils.py:93-110 | returns each selected name exactly once: a name is in the result iff the specification selects it |
| RfLogger.Logger.CopyEntries | src/rflog/_logger_utils.py:131-151 | the copied entries are the old archive's listed names that the copy reached, with their old contents |
| RfLogger.Logger.AddFiles | src/rflog/_logger_utils.py:153-158 | adds every selected file not listed in the old archive, under its base name, with its contents |
| RfLogger.Logger.RemoveSources | src/rflog/_logger_utils.py:170-172 | removes exactly the selected files the removal loop reached; everything else is unchanged |
| RfLogger.Logger.WriteTemporary | src/rflog/_logger_utils.py:113-158 | the temporary archive holds the rebuilt entries; nothing else changes |
| RfLogger.Logger.SwapTemporary | src/rflog/_logger_utils.py:160-177 | the disk ends as the specification's swap says, for every swap fault, with the temporary archive cleaned up |
| RfLogger.Logger.ReplaceArchive | src/rflog/_logger_utils.py:161-172 | a successful swap puts the rebuilt archive in place of the old one, then removes the reached sources |
| RfLogger.Logger.ArchiveFolder | src/rflog/_logger_utils.py:93-177 | one pass over a folder leaves the disk exactly as `ArchivePass` says |
| RfLogger.Logger.ArchiveOldLogs | src/rflog/_logger_utils.py:78-177 | the log-folder pass, then the error-folder pass, at the cutoff for `today` |
| RfLogger.Logger.CreateHandler | src/rflog/_logger_utils.py:198-226 | the disk ends as `Opened`; it raises iff `OpenRaises`, and then keeps the handler fields as they were; otherwise both new handlers are open on the active files |
| RfLogger.Logger.OpenHandler | src/rflog/_logger_utils.py:203-206 | opens the path for append, creating it empty when absent, and returns a new open handler on it |
| RfLogger.Logger.CloseHandler | src/rflog/_logger_utils.py:228-236 | every handler that was held is closed, and none is held afterwards |
| RfLogger.Logger.RotateLogFiles | src/rflog/_logger_utils.py:238-292 | the disk ends as `RotationOutcome`. It raises iff `RotationRaises`: the read of `.latest.log` failed, or the pair was stale and a rename, the stamp write or reopening the handlers failed. Unless the check gets past the read to a stale pair (`ClosesHandlers`), the handlers are left as they were. Otherwise it closes them, then holds none if it raised and new open ones if it did not. |
| RfLogger.Logger.RotatePair | src/rflog/_logger_utils.py:272-292 | the disk ends as `Rotated`; it raises iff a rename, the stamp write or reopening the handlers fails, and then holds no handlers; otherwise it holds new open handlers |
| RfLogger.Logger.WriteFirstStamp | src/rflog/_logger_utils.py:187-192 | the disk ends as `FirstStamp`; it raises iff creating the missing folder or opening the file raises |
| RfLogger.Logger.WarmUp | src/rflog/_logger_utils.py:180-196 | the disk ends as `WarmUpOutcome`, and it raises iff `WarmUpRaises`. A raise in the stamp step or in its own `create_handler` call keeps the handler fields it had. A raise in the rotation's read keeps the handlers it just opened. Any other raise in the rotation check leaves none. When it does not raise, both handlers are open. Handlers held before are never closed. |

## Findings

The docstring of `archive_old_logs` (lines 79-83) promises that the logs already in the archive are kept. The comment at line 170 promises that the sources are removed only after compression succeeds. Two fault paths of the code break these promises. Each row below has two members:
- a lemma about the pass as written that exhibits the loss;
- a corrected pass with the intended property proved.

`ArchiveEngine.IntendedPassAgreesWithoutThoseFaults` shows that the two passes differ only under those faults. The `RfLogger.Logger` methods follow the code as written, so they are proved against `ArchivePass`, not against `IntendedPass`.

| source | as written | input that shows it | evidently intended | confidence | as-written member | corrected member |
|---|---|---|---|---|---|---|
| src/rflog/_logger_utils.py:131-172 | line 157 skips a selected file whose name the old archive listed, even when the copy of the old entries (lines 132-151) raised before reaching that name; lines 171-172 then remove the file | an earlier pass swapped but failed while removing, so `20240101.log` is both listed and still on disk; the next pass selects it again and its copy raises before that entry; the file is then in neither archive and is removed | every removed file is in the new archive: test against the names actually copied | not executed | ArchiveEngine.AbortedCopyLosesListedFile | ArchiveEngine.IntendedPassArchivesRemovedFiles |
| src/rflog/_logger_utils.py:161-177 | the old archive is removed before the temporary one is renamed; when the rename raises, the handler at lines 174-177 removes the temporary archive too | `os.rename` raising (a permission or I/O error) after `os.remove(archive_path)` succeeded: the folder is left with no archive | the old archive stays until the new one replaces it: one replacing rename (`os.replace`) | not executed | ArchiveEngine.FailedRenameLeavesNoArchive | ArchiveEngine.IntendedPassKeepsAnArchive |

## Edge cases of the code

These are proved about the code as written. They read as deliberate, or at least harmless.

- `ArchiveEngine.UnreadableArchiveIsReplaced`: when the old archive cannot be listed, it is treated as empty, as the comment at line 124 says, and it is overwritten by an archive of only the new files.
- `RotationEngine.CheckIsEquality`: the check at line 266 compares the creation date with today for equality. A creation date later than today, such as after a clock is set back, also causes a rotation.
- `RfLogger.Logger.WarmUp`: `warm_up` (lines 193-195) opens new handlers without closing any that are already held. The method's contract states that the handlers held before are left open.

## Left out

- The `Formatter` class (record layout, timezone conversion of record times) is not part of this model.
- The `logging` registry, levels, `addHandler`/`removeHandler`, the root logger and the `main_logger` property are left out. A handler is modelled only by its path and whether it is closed.
- Writing log records through the handlers is left out. The model covers only creating, stamping, renaming, archiving and removing files.
- The wall clock and the timezone are left out. Each public call takes one clock reading `now` (or `today`), where the source reads the clock up to three times in one rotation.
- Zip compression, entry metadata (`getinfo`), deflate and byte formats are left out. An archive is a map from entry names to text.
- Duplicate entry names inside one zip are not modelled: an archive has one entry per name.
- The iteration order of `glob` and `namelist` is abstracted. A loop that raises is given the set of items handled before the exception, and the model handles those first.
- The `KeyError` branch at lines 144-147 is left out. With one entry per name, every listed name can be read.
- The temporary archive is modelled as written when the `with` block closes, since partial zip writes are not modelled.
- `RfLogger.Logger.RotatePair`: a failing stamp write is modelled as the open failing before anything is written. A partly written `.latest.log` is not modelled.
- `RfLogger.Logger.WriteFirstStamp`: in `warm_up` too, a failing stamp write is modelled as the open failing before anything is written.
- `ArchiveEngine.ArchivePass`: scanning a folder with `glob` (line 98), the `exists` tests and removing the temporary archive during cleanup (lines 176-177) are assumed not to raise.
- `RotationEngine.WarmUpRaises`, `RotationEngine.RotationRaises`, `RfLogger.Logger.WarmUp` and `RfLogger.Logger.RotateLogFiles`: the `exists` tests at lines 187, 189, 210 and 248 are assumed not to raise.
- `RfLogger.Logger.CloseHandler`: closing a handler (lines 231 and 235) is assumed not to raise.
- `strptime` leniency is not modelled: the parsers accept only the fixed-width text the formatter produces. Examples of lenient input are single-digit fields such as `2024-1-5`, and whitespace.
- `datetime` years below 1000, and `OverflowError` when the cutoff date falls before year 1, are not modelled. The cutoff is an ordinal that may be below 1.
- `UnicodeDecodeError` on a non-UTF-8 `.latest.log` is not modelled. Files are text.
- Path normalisation, `mkdir(parents=True)` and case-insensitive globbing are not modelled. A path is a folder string and a name.
- Rename follows POSIX, where `os.rename` replaces an existing target. On Windows it raises instead, which is why lines 161-162 remove the old archive first.
- `RfLogger.Logger.constructor`: the `__init__` call to `warm_up` at line 76 is made by the caller as `WarmUp`.
- Concurrency and multiple processes are not modelled. The model assumes a single writer.
