# XVI archive tool — a verified model of its core

The XVI archive tool tidies the patient data directories of Elekta XVI
(cone-beam CT) workstations. It works in three steps:

1. It scans the configured XVI locations for patient directories, named
   `patient_<MRN>`.
2. It asks the oncology information system (OIS) which patients:
   - have finished treatment;
   - are on a clinical trial;
   - have 4D imaging.
3. It gives every directory an action:
   - KEEP;
   - ARCHIVE: copy to the archive location, check the copy's size, then delete;
   - DELETE;
   - IGNORE.

   An operator then runs the archive or delete step from the main window, and
   each directory removed is logged to `actioned.yaml`.

This project models that core as immutable Dafny datatypes and pure functions.

| file | models |
|---|---|
| `records.dfy` | the directory record, actions, treatment and person rows, the action filter |
| `text.dfy` | `str.split`, `str.join`, ASCII `lower`, `os.path.join` on Windows |
| `scanner.dfy` | `ScanPathsTask.get_directories`: the directory-name classifier and the scan loop |
| `classifier.dfy` | `ScanPathsTask.fetch_patient_info`: the treatment, trial and 4D rules |
| `scantask.dfy` | `ScanPathsTask.run`: cancellation and the messages queued |
| `auditlog.dfy` | the `actioned.yaml` read-append-write cycle |
| `executor.dfy` | `PerformActionTask.run`: the archive/delete executor over an abstract file store |
| `mainwindow.dfy` | `MainApplication`: counts, labels, buttons, list filter, export, scan queue handler |
| `dialogs.dfy` | `ActionDialog` checks, progress and pruning; `IgnoreMRNsDialog.add_mrn` |
| `datastore.dfy` | `get_datastore` default-filling |

Effects are replaced by inputs:

- **File store.** A map from directory path to the size `get_size` reports.
- **Copies, deletes and dates.** What `copytree` and `rmtree` do, and the date
  each audit entry carries, come from one oracle per directory.
- **Cancellation.** The point at which the worker first sees the cancel flag
  is a number. The flag is only ever set, so every later check also sees it.
- **Database replies.** Plain inputs. `None` stands for a failed
  treatment query.
- **Queue.** Its messages are a sequence, and a GUI poll reads any batch of
  them.

The database backup that precedes an archive or delete (tools.py:357-359)
is unguarded: if it raises, the worker thread ends without queueing
anything. `Executor.RunAction` models exactly that.

## Model

| member | source | states |
|---|---|---|
| Text.Split | tools.py:224 | `str.split` on one character: never empty, and no part contains the separator |
| Text.JoinSplit | tools.py:224 | joining the parts of a split with the separator gives the original name back |
| Text.SplitJoin | tools.py:224 | splitting a join of separator-free parts gives the parts back |
| Text.PathJoin | tools.py:368-374 | `os.path.join` keeps the directory as a prefix and the name as a suffix, with nothing or exactly one `\` between them |
| Text.PathJoinSeparator | tools.py:368-374 | the `\` is left out exactly when the directory is empty, ends in `\` or `/`, or is a bare drive such as `E:`; otherwise exactly one `\` is inserted |
| Text.PathJoinSameDir | dialogs.py:730 | within one directory two joined paths are equal exactly when the names are |
| Records.WithAction | tools.py:355 | the defensive filter keeps exactly the records with the requested action |
| Records.WithActionAppend | tools.py:355 | the filter distributes over concatenation, so it keeps the input order |
| Records.RowsFor | tools.py:274 | the rows selected for a patient are exactly the reply's rows carrying that MRN, and no row is invented |
| Records.RowsForAppend | tools.py:274 | the selection distributes over concatenation and keeps a single row iff its MRN matches, so it keeps reply order and multiplicity; the trial and 4D selections (tools.py:307, 315) are the same function |
| Scanner.ParseMrn | tools.py:224-236 | an accepted name yields a 7-character MRN with no underscore |
| Scanner.ParseMrnAccepts | tools.py:224-229 | every name `patient_<7 chars>` (prefix in any case, optionally followed by `_` and more) is accepted with that MRN |
| Scanner.ParseMrnShape | tools.py:224-229 | conversely, every accepted name has that shape |
| Scanner.NewRecord | tools.py:209-239 | a scanned directory starts KEEP or IGNORE with all flags false, no date and empty name; it is KEEP iff its name parses to an MRN not on the ignore list; an ignored patient still carries its MRN; size is 0 under quick scan |
| Scanner.RootRecords | tools.py:198-203 | an unreadable location contributes nothing, a readable one one record per subdirectory in listing order |
| Scanner.ScanIsPrefix | tools.py:196-207 | the scan yields exactly the first `cancelAt` records of the uncancelled scan, in order: none is added once the flag is seen |
| Scanner.ScanRecordsFresh | tools.py:209-239 | every record a possibly cancelled scan yields satisfies the fresh-record facts |
| Classifier.ApplyTreatmentRows | tools.py:284-299 | the field loop leaves the name of the last row, the latest fraction date (the maximum over rows and prior date), and clears the finished flag iff some field is not fully delivered; nothing else changes |
| Classifier.ClassifyRecord | tools.py:266-329 | an IGNORE record is left untouched; every record keeps its path, directory name, MRN and size |
| Classifier.WithTreatment | tools.py:277-304 | the treatment step changes only the name, fraction date and finished flag: the name of the last row, the latest fraction date, and finished iff every field is delivered and no fraction is within 14 days |
| Classifier.WithPeople | tools.py:307-321 | the trial and 4D step changes only the two flags and the name: each flag is raised by any row, the name comes from the first 4D row, else the first trial row |
| Classifier.ClassifyTreatment | tools.py:277-304 | a non-IGNORE record with treatment rows gets the latest fraction date over those rows and its prior date, and is finished iff every field of those rows is delivered and no fraction is recent; one without rows keeps its date and is finished only if it already was and its date is not recent |
| Classifier.ClassifyFlags | tools.py:307-321 | the trial and 4D flags are set iff the patient has a trial row, respectively a 4D row, or already had the flag |
| Classifier.ClassifyName | tools.py:284-321 | the name comes from the first 4D row, else the first trial row, else the last treatment row, else stays as it was |
| Classifier.ClassifyAction | tools.py:323-329 | a finished patient gets ARCHIVE with a trial or 4D flag and DELETE without; an unfinished one keeps its action |
| Classifier.QueryMrns | tools.py:255 | the MRN list sent to the database holds the MRN of every record carrying one, ignored ones included |
| Classifier.Classify | tools.py:266-270 | one classified record per scanned record, in order |
| Classifier.DecisionTable | tools.py:279-329 | a fresh record is finished iff it has a treatment row, every field is fully delivered and every fraction is older than 14 days; finished with trial or 4D gives ARCHIVE, finished without gives DELETE, otherwise KEEP |
| Classifier.GracePeriodKeeps | tools.py:301-304 | any fraction within the last 14 days, bound included, keeps the patient |
| ScanTask.RunScan | tools.py:170-189 | the queue ends with exactly one list, preceded only by error messages |
| ScanTask.TerminalEmptyOrComplete | tools.py:182-189 | the final list is empty when the flag was seen at any check, and otherwise the complete classified list; never a partial list |
| ScanTask.QueryFailureKeepsScan | tools.py:261-264 | a failed treatment query queues the error, then the scan-time list unchanged |
| ScanTask.QueryAlwaysIssued | tools.py:255-259 | an uncancelled scan queries the database with all scanned MRNs, even when there is none |
| AuditLog.Load | tools.py:437-450 | an unreadable file or missing ARCHIVED key starts from two empty lists; a missing DELETED key keeps ARCHIVED and empties DELETED; a key present with a null value gives an empty list for that key and the other key is still read |
| AuditLog.LoadWellFormed | tools.py:457-459 | a file the executor wrote reads back exactly as written |
| AuditLog.Record | tools.py:433-459 | one write appends one "MRN on date" entry to the list the directory's action names and keeps the other list |
| AuditLog.RecordAllAppends | tools.py:433-459 | after several writes the lists are those read first, followed by the new entries in order, each in its own list |
| Executor.CopyTree | tools.py:376-391 | `copytree` fails without touching the store on a missing source or existing destination, and otherwise creates the destination |
| Executor.RemoveTree | tools.py:409-421 | `rmtree` removes the source exactly when it succeeds, and touches no other directory |
| Executor.ProcessOne | tools.py:365-459 | one directory yields one outcome; it is actioned and logged iff its delete succeeded; archive and delete runs queue one progress string per directory |
| Executor.ProcessOneReports | tools.py:380-428 | the line an archive or delete step queues names that patient, announces success iff the delete succeeded, and is the copy error, the size-mismatch error or the delete error exactly for those outcomes |
| Executor.ProgressText | tools.py:389-428 | every progress line starts with "MRN - name: ", then "Successfully" for an archive or delete that succeeded and "Error" for any failure |
| Executor.ProcessOneStore | tools.py:370-412 | the source disappears iff the delete succeeded; the source is changed at all only by a delete, and in an archive that delete is attempted only after a copy to a fresh destination whose recorded size equals the source's; a failed or mismatched copy leaves the source; nothing but source and destination changes |
| Executor.ProcessOneArchiveVerified | tools.py:374-412 | in an archive, any directory one step removed or changed is that step's source, whose copy succeeded with the source's own size before the delete |
| Executor.ProcessFromCounts | tools.py:363-366 | the loop processes exactly the directories before the cancellation point, one outcome and one progress string each |
| Executor.ProcessFromActioned | tools.py:431 | the actioned list gains the successful directories, in order |
| Executor.ProcessFromEntries | tools.py:449-455 | the audit entries gained are those of the successful directories, in order, each with its own date |
| Executor.ProcessFromAudit | tools.py:433-459 | the audit file is the start file with the recorded entries written in order |
| Executor.ProcessOneTracks | tools.py:433-459 | one directory keeps the audit file equal to the start file with the entries recorded since then written in order |
| Executor.ProcessFromTracks | tools.py:363-459 | the whole loop keeps that correspondence between the audit file and the recorded entries |
| Executor.ProcessFromRemovals | tools.py:409-412 | a directory gone after the loop was the source of a processed directory whose delete succeeded |
| Executor.ArchiveSafeStep | tools.py:374-412 | one more archived directory keeps the run-level fact that every removed or changed directory was copied with its own size first |
| Executor.ProcessFromArchiveSafe | tools.py:363-412 | the archive loop keeps that fact from its start to wherever it stops |
| Executor.RunAction | tools.py:347-462 | the backup runs iff some record has the action; a raising backup queues nothing; otherwise progress strings then exactly one final list, holding only records with the action |
| Executor.RunFacts | tools.py:355-431 | the loop over the filtered records processes `min(cancelAt, n)` of them and actions only records that were given with the run's action |
| Executor.ProcessFromReports | tools.py:363-428 | the archive or delete loop keeps every progress line in step with the directory and outcome at its position |
| Executor.RunActionReports | tools.py:380-428 | in an archive or delete run the i-th message reports the i-th processed directory: it names that patient, announces success iff its delete succeeded, and is the size-mismatch error iff its copy's size differed |
| Executor.RunActionProcesses | tools.py:355-431 | the final list is the successful directories among the first `min(cancelAt, n)` filtered ones, in order; archive and delete queue one progress string for each of those |
| Executor.RunActionRemovesOnlyActioned | tools.py:409-431 | every directory of the file store that the action loop removes is the source of a directory in the final list |
| Executor.RunActionArchiveVerified | tools.py:355-431 | after an archive run, every directory removed or changed, including one whose delete failed part-way, is the source of a processed directory whose copy succeeded with that directory's size |
| AuditLog.RecordAll | tools.py:433-459 | no entries leave the audit file untouched; any entries leave it with both keys present |
| Executor.RunActionAudit | tools.py:433-459 | no success leaves the audit file unchanged; otherwise it holds the lists read at the start followed by one dated entry per actioned directory, in order |
| MainWindow.Bucket | application.py:344-347 | each record is in the bucket of its action and in no other |
| MainWindow.BucketCounts | application.py:344-357 | the four counts add up to the number of records |
| MainWindow.Truncate | application.py:361-364 | a path of at most 30 characters is shown unchanged; a longer one as its first 15, "...", its last 15 (33 characters) |
| MainWindow.TruncateBounded | application.py:363 | the label never exceeds 33 characters and always keeps the path's first and last 15 characters |
| MainWindow.UpdateGui | application.py:340-379 | the ignored, to-archive and to-delete labels show the sizes of the IGNORE, ARCHIVE and DELETE buckets and the two size labels their byte totals; the archive button is enabled iff an ARCHIVE record exists, the delete button iff a DELETE record exists; the archive label changes only when a path is configured, to the truncated path |
| MainWindow.InitialFilterHidesIgnored | application.py:64-69 | the window opens showing every action except IGNORE |
| MainWindow.Toggle | application.py:413-421 | a filter click flips the clicked action and no other |
| MainWindow.ToggleTwice | application.py:413-421 | two clicks on one button restore the filter; clicks on different buttons commute |
| MainWindow.Shown | application.py:386-390 | the list holds exactly the records whose action is shown |
| MainWindow.ShownAppend | application.py:386-390 | the list distributes over concatenation and shows a single record iff its action is ticked, so it keeps the order and multiplicity of the directory list |
| MainWindow.ShownSingle | application.py:386-390 | with a single action shown the list is exactly that action's records, in order |
| MainWindow.RowFor | application.py:392-395 | an IGNORE row leaves the MRN-to-date columns blank, any other row shows that record's own MRN, name, finished, trial and 4D flags and last fraction date |
| MainWindow.ListRows | application.py:382-395 | one row per shown record, in order |
| MainWindow.InitialListing | application.py:382-395 | on opening, the list shows every non-ignored record and no blank row |
| MainWindow.ExportSelection | application.py:281 | the export holds exactly the non-ignored records |
| MainWindow.ExportSelectionAppend | application.py:281 | the export distributes over concatenation and keeps a single record iff it is not IGNORE, so it keeps the order and multiplicity of the directory list |
| MainWindow.ExportMatchesInitialList | application.py:281 | the export is, record for record, the list as the window first shows it |
| MainWindow.ExportAsWritten | application.py:283-286 | the export warns iff nothing is exportable; when it does not warn it writes the non-ignored records in list order |
| MainWindow.ExportAsWrittenRaises | application.py:283-286 | every warning is followed by an `IndexError` |
| MainWindow.Export | application.py:277-290 | export that returns after the warning: never raises, warns iff nothing is exportable, writes exactly the non-ignored records in list order (ExportSelection) |
| MainWindow.DeliverEffect | application.py:313-334 | one poll shows its batch's errors in order after the earlier ones, closes the scanning dialog iff the batch holds a list, and sets `task_done` iff some list in it ends the scan |
| MainWindow.ScanPollAsWritten | application.py:313-336 | the handler as written shows the batch's errors and stops iff the batch holds a non-empty list |
| MainWindow.ScanPoll | application.py:313-336 | the corrected handler shows the batch's errors and stops iff the batch holds any list |
| MainWindow.PollStops | application.py:304-336 | polling stops at the batch holding the final list, however messages are batched: always with the corrected handler, and with the handler as written when that list is non-empty |
| MainWindow.AsWrittenKeepsPolling | application.py:313-336 | the handler as written keeps polling, and keeps the list on display, while every list it receives is empty |
| MainWindow.CancelledScanPollsForever | application.py:313-336 | after a cancelled scan the handler as written polls for ever |
| MainWindow.ScanAsWrittenCompletes | application.py:304-336 | with the handler as written, a scan that completes with a non-empty result stops the polling, closes the dialog, shows its errors in order and displays the result |
| MainWindow.ScanEndsPolling | application.py:304-336 | with the corrected handler every scan ends the polling, shows its errors in order, and replaces the list exactly when the scan completed with a non-empty result |
| Dialogs.AddMrn | dialogs.py:196-204 | the entered MRN is appended only when the prompt returned a non-empty string |
| Dialogs.AddedMrnIsIgnored | dialogs.py:199-201 | after adding an MRN, later scans mark that patient's directories IGNORE, keeping the MRN, and treat every other directory as before |
| Dialogs.SetPatientList | dialogs.py:613-668 | closes on a running XVI, then (for ARCHIVE) on a missing or absent archive path, then on an empty list; otherwise lists "MRN - name" per patient and keeps the action only if the first patient is ARCHIVE, else DELETE |
| Dialogs.SelectionKeepsAction | application.py:426-443 | the archive and delete buttons hand the dialog exactly their records, the dialog runs the button's action, and the executor's filter keeps every record |
| Dialogs.Read | dialogs.py:703-716 | a poll adds one to the progress value per progress string and keeps the last final list seen |
| Dialogs.Poll | dialogs.py:696-745 | a poll reschedules itself iff its batch held no final list |
| Dialogs.PollAllCounts | dialogs.py:696-745 | however the executor's messages are batched, polling stops at the final list with the value equal to the number of progress strings |
| Dialogs.RunShape | tools.py:355-462 | when every patient carries the dialog's action the executor's filter keeps them all, and the queue is one progress string per processed patient followed by the list |
| Dialogs.Completion | dialogs.py:720-724 | the dialog says "Complete" iff the bar's value reached its maximum, and "Cancelled" otherwise |
| Dialogs.PollRun | dialogs.py:703-724 | polling such a queue from an empty bar stops with the value equal to the number processed, and "Complete" iff the flag was not seen before the last patient |
| Dialogs.ActionOutcome | dialogs.py:720-724 | after an archive or delete whose backup succeeded, the value is the number of directories processed and the dialog says "Complete" iff the flag was not seen before the last patient, failures notwithstanding |
| Dialogs.RemovePath | dialogs.py:729-730 | one pass keeps exactly the records whose full path differs from the actioned one |
| Dialogs.WithoutPaths | dialogs.py:728-730 | the records whose full path is none of the given paths |
| Dialogs.Prune | dialogs.py:728-730 | the passes keep exactly the records whose full path is that of no actioned directory, and never add a record |
| Dialogs.PruneKeepsUnactioned | dialogs.py:728-730 | the repeated passes keep, in original order, exactly the records whose full path differs from every actioned directory's |
| Datastore.Fill | datastore.py:33-43 | the four keys are present; existing keys keep their values; missing list keys get `[]` and map keys `{}`; no other key is added |
| Datastore.FillIdempotent | datastore.py:33-45 | filling twice is filling once |
| Datastore.GetDatastoreAsWritten | datastore.py:25-45 | a read failure yields exactly the four defaults; a mapping is filled; an empty document, a number or a boolean raises |
| Datastore.EmptyFileCrashes | datastore.py:27-33 | an empty settings file makes the reader raise, where a missing one does not |
| Datastore.GetDatastore | datastore.py:25-45 | the corrected reader gives the defaults for a missing or empty file and fills a mapping |
| Datastore.GetDatastoreAgrees | datastore.py:25-45 | the corrected reader differs from the original only on the empty document |
| Datastore.GetDatastoreFills | datastore.py:33-45 | settings read from any mapping carry the four keys, and saving and reading them back changes nothing |

## Left out

- Tk widgets, layout, sorting, and the configuration, About and Report dialogs. Only the values the main window and the action dialog display are modelled.
- Threads, the `Queue` object and `after` scheduling. The queue is a sequence of messages and each poll reads a batch of it.
- `get_size`, `os.listdir`, `copytree` and `rmtree` internals. These are a size map and per-directory oracles.
- A failed copy can leave a partial destination. The model keeps the store unchanged on a failed copy, because `copytree`'s partial work is not observable by the rest of the tool except through a later "destination exists" failure.
- `backup_xvi_sql` internals: copying the database files and pruning backups older than 60 days. Only whether it raises is modelled.
- `is_xvi_running` (the `tasklist` subprocess). It is a boolean input.
- database.py (pymssql and SQL). Only its contract is modelled: `None` for a failed treatment query, and rows otherwise. A `None` reply to the trial or 4D query would crash the worker; those replies are always row sequences in the model.
- Rows whose last fraction date is NULL. Dates are integer seconds, and the 14-day period is 14 × 86400 seconds.
- Date formatting (`strftime`). Each audit entry's date is an opaque string from that directory's oracle, and the timestamps prefixed to dialog log lines are dropped.
- GB size formatting (float division). The model keeps sizes as byte totals.
- YAML serialisation of `settings.yaml` and `actioned.yaml`, and a failure while writing `actioned.yaml`. A settings document is null, a number or boolean, a string, a list or a mapping; an `actioned.yaml` document is unreadable or two keys, each missing, null or a list of strings.
- AuditLog.Load: a key of `actioned.yaml` holding anything other than null or a list of strings (a string, a number, a mapping) is not modelled. A truthy non-list value there makes the later `.append` (tools.py:451-453) raise outside the `try`, ending the worker thread.
- `set_datastore` and `remove_mrn`. They only write the settings back or remove list entries by index.
- The CSV writing of `export_list`, and the save dialog returning no file name.
- Email reports (`send_email_report`), run.py (logging setup, options, shutdown), and the log messages.
- The OIS configuration key mismatch between the dialogs and the database module. It is configuration plumbing.
- Text.PathJoin: models `os.path.join` only for a relative second argument with no drive letter, which is how every caller uses it; a first argument that is a bare drive (`E:`) is joined without a separator.
- Text.Split: `lower` is ASCII lower-casing, as for Python 2 byte strings; non-ASCII case mapping is not modelled.
- `get_size` raising: `os.path.getsize` (tools.py:44) can raise on a file that vanishes or cannot be read, during a scan (tools.py:221) or after a copy (tools.py:393-394). That ends the worker thread with nothing queued, and the GUI keeps polling. The model's size map is total, so a size is always available.
- Executor.RunAction: a raising backup leaves the action dialog polling for ever. The model states only that nothing is queued.

## Findings

| source | as written | input that shows it | evidently intended | confidence | as-written member | corrected member |
|---|---|---|---|---|---|---|
| application.py:283-286 | after the "Nothing to export!" warning the method goes on to `export_dirs[0].keys()` | an export with no records, or with only IGNORE records | return after the warning | high; not executed | MainWindow.ExportAsWritten | MainWindow.Export |
| application.py:313-336 | `task_done` is set only for a non-empty list, so the empty list a cancelled scan queues never stops the 100 ms polling | cancel a scan, then wait: no further message ever arrives | stop polling on any list, empty or not | high; not executed | MainWindow.ScanPollAsWritten | MainWindow.ScanPoll |
| datastore.py:27-33 | `yaml.load` of an empty file returns `None`, and `'xvi_paths' in None` raises `TypeError` outside the `try` | an empty `settings.yaml` | treat an empty document like a missing file | high; not executed | Datastore.GetDatastoreAsWritten | Datastore.GetDatastore |
