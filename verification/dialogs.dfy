/** The decision logic of the dialogs (dialogs.py): `IgnoreMRNsDialog.add_mrn`,
    and `ActionDialog`'s checks before an action, its reading of the executor's
    queue, and its removal of the actioned directories from the main list. */
module Dialogs {
  import opened Records
  import opened Text
  import opened Scanner
  import opened Executor
  import opened MainWindow

  /** `add_mrn` (dialogs.py:196-204): the entered MRN joins the ignore list unless
      the prompt was cancelled or left empty. */
  function AddMrn(ignoreMrns: seq<string>, entered: Option<string>): (r: seq<string>)
    ensures entered.Some? && |entered.value| > 0 ==> r == ignoreMrns + [entered.value]
    ensures !(entered.Some? && |entered.value| > 0) ==> r == ignoreMrns
  {
    if entered.Some? && |entered.value| > 0 then ignoreMrns + [entered.value] else ignoreMrns
  }

  /** Once an MRN is added, every later scan ignores the directories of that
      patient while still recording their MRN, and treats all others as before. */
  lemma AddedMrnIsIgnored(ignoreMrns: seq<string>, mrn: string, root: string, d: SubDir, quick: bool)
    requires ParseMrn(d.name).Some?
    ensures var r := NewRecord(root, d, AddMrn(ignoreMrns, Some(mrn)), quick);
            ParseMrn(d.name) == Some(mrn) && |mrn| > 0 ==> r.action == Ignore && r.mrn == mrn
    ensures ParseMrn(d.name) != Some(mrn) ==>
              NewRecord(root, d, AddMrn(ignoreMrns, Some(mrn)), quick) == NewRecord(root, d, ignoreMrns, quick)
  {
    var added := AddMrn(ignoreMrns, Some(mrn));
    if ParseMrn(d.name) != Some(mrn) {
      var m := ParseMrn(d.name).value;
      assert m in added <==> m in ignoreMrns;
    }
  }

  const XviRunningTitle: string := "XVI Running"
  const ArchivePathTitle: string := "Archive Path"
  const ArchivePathText: string :=
    "The archive path cannot be found. Make sure the directory exists and the network location is available."
  const NoPatientsTitle: string := "No Patient Locations"
  const NoPatientsText: string := "There are no patients for this action"
  const ArchiveButton: string := "ARCHIVE PATIENT DATA"
  const DeleteButton: string := "DELETE PATIENT DATA"
  const DeleteInstructions: string := "All data for the following patients will be deleted."

  function XviRunningText(action: Action): string {
    "Please close the XVI application before performing " + Lower(ActionName(action)) + "."
  }

  function ArchiveInstructions(archivePath: string): string {
    "All data for the following patients will be copied to:\n\n" + archivePath
    + "\n\nOnce successfully copied the data will be deleted."
  }

  /** The line the dialog lists for one patient. */
  function Entry(d: DirectoryRecord): string {
    d.mrn + " - " + d.name
  }

  /** The settings `set_patient_list` consults: the configured archive path, if
      any, and whether it exists; and whether the XVI process is running. */
  datatype Environment = Environment(xviRunning: bool, archivePath: Option<string>, archivePathExists: bool)

  /** How `set_patient_list` leaves the dialog: closed after a warning, failed
      on the missing archive path key, or ready with the action it will run. */
  datatype Setup =
    | Closed(warning: Warning)
    | MissingArchivePath
    | Ready(action: Action, entries: seq<string>, instructions: string, button: string)

  predicate ArchivePathUsable(env: Environment) {
    env.archivePath.Some? && env.archivePathExists
  }

  /** `ActionDialog.set_patient_list` (dialogs.py:613-668). A running XVI closes
      the dialog; so does an archive without a usable archive path, and an empty
      list. Otherwise the action is kept only when the first patient is to be
      archived and becomes DELETE in every other case. */
  function SetPatientList(patients: seq<DirectoryRecord>, action: Action, env: Environment): (s: Setup)
    ensures env.xviRunning ==> s == Closed(Warning(XviRunningTitle, XviRunningText(action)))
    ensures !env.xviRunning && action == Archive && !ArchivePathUsable(env) ==>
              s == Closed(Warning(ArchivePathTitle, ArchivePathText))
    ensures !env.xviRunning && (action == Archive ==> ArchivePathUsable(env)) && |patients| == 0 ==>
              s == Closed(Warning(NoPatientsTitle, NoPatientsText))
    ensures s.MissingArchivePath? <==>
              !env.xviRunning && action != Archive && |patients| > 0 && patients[0].action == Archive && env.archivePath.None?
    ensures s.Ready? ==>
              && !env.xviRunning && |patients| > 0
              && (s.action == Archive <==> action == Archive && patients[0].action == Archive)
              && (patients[0].action == Archive ==>
                    s.action == action && s.button == ArchiveButton && s.instructions == ArchiveInstructions(env.archivePath.value))
              && (patients[0].action != Archive ==>
                    s.action == Delete && s.button == DeleteButton && s.instructions == DeleteInstructions)
              && |s.entries| == |patients|
              && forall i :: 0 <= i < |patients| ==> s.entries[i] == Entry(patients[i])
  {
    if env.xviRunning then Closed(Warning(XviRunningTitle, XviRunningText(action)))
    else if action == Archive && !ArchivePathUsable(env) then Closed(Warning(ArchivePathTitle, ArchivePathText))
    else if |patients| == 0 then Closed(Warning(NoPatientsTitle, NoPatientsText))
    else
      var entries := seq(|patients|, i requires 0 <= i < |patients| => Entry(patients[i]));
      if patients[0].action == Archive then
        if env.archivePath.None? then MissingArchivePath
        else Ready(action, entries, ArchiveInstructions(env.archivePath.value), ArchiveButton)
      else Ready(Delete, entries, DeleteInstructions, DeleteButton)
  }

  lemma {:induction false} WithActionAll(ds: seq<DirectoryRecord>, a: Action)
    requires forall i :: 0 <= i < |ds| ==> ds[i].action == a
    ensures WithAction(ds, a) == ds
    decreases |ds|
  {
    if |ds| > 0 {
      WithActionAll(ds[1..], a);
    }
  }

  /** What the archive and delete buttons hand the dialog (application.py:425-443):
      the dialog lists exactly those records and runs the button's own action, and
      the executor's own filter then keeps every one of them. */
  lemma SelectionKeepsAction(dirs: seq<DirectoryRecord>, a: Action, env: Environment)
    requires a == Archive || a == Delete
    requires !env.xviRunning && (a == Archive ==> ArchivePathUsable(env))
    requires exists d :: d in dirs && d.action == a
    ensures var patients := WithAction(dirs, a);
            var s := SetPatientList(patients, a, env);
            && s.Ready? && s.action == a && |s.entries| == |patients|
            && WithAction(patients, s.action) == patients
  {
    var patients := WithAction(dirs, a);
    var d :| d in dirs && d.action == a;
    assert d in patients;
    WithActionAll(patients, a);
  }

  /** What the dialog shows once the executor's final list arrives. */
  function Completion(value: nat, maximum: nat): (r: string)
    ensures r == "Complete" <==> value == maximum
    ensures r == "Complete" || r == "Cancelled"
  {
    if value == maximum then "Complete" else "Cancelled"
  }

  /** What `ActionDialog.process_queue` keeps between polls: the progress bar's
      value, the log lines (without their timestamps), the final list once seen,
      and whether the handler is still scheduled. */
  datatype Monitor = Monitor(value: nat, log: seq<string>, actioned: Option<seq<DirectoryRecord>>, polling: bool)

  /** The messages of one poll, in queue order (dialogs.py:703-716). */
  function Read(m: Monitor, batch: seq<ExecMessage>): (r: Monitor)
    ensures r.value == m.value + |batch| - |FinalLists(batch)|
    ensures FinalLists(batch) == [] ==> r.actioned == m.actioned
    ensures FinalLists(batch) != [] ==> r.actioned == Some(FinalLists(batch)[|FinalLists(batch)| - 1])
    decreases |batch|
  {
    if |batch| == 0 then m
    else match batch[0]
      case Step(p) => Read(m.(value := m.value + 1, log := m.log + [ProgressText(p)]), batch[1..])
      case Finished(l) => Read(m.(actioned := Some(l)), batch[1..])
  }

  /** The final lists among some messages, in order. */
  function FinalLists(batch: seq<ExecMessage>): (ls: seq<seq<DirectoryRecord>>)
    ensures |ls| <= |batch|
    decreases |batch|
  {
    if |batch| == 0 then []
    else (if batch[0].Finished? then [batch[0].actioned] else []) + FinalLists(batch[1..])
  }

  /** One call of `process_queue`: a final list in this batch stops the polling. */
  function Poll(m: Monitor, batch: seq<ExecMessage>): (r: Monitor)
    ensures r.polling <==> FinalLists(batch) == []
  {
    var r := Read(m.(actioned := None), batch);
    r.(polling := r.actioned.None?)
  }

  /** Polls in order until one stops the handler. */
  function PollAll(m: Monitor, batches: seq<seq<ExecMessage>>): Monitor
    decreases |batches|
  {
    if |batches| == 0 then m
    else
      var m' := Poll(m, batches[0]);
      if m'.polling then PollAll(m', batches[1..]) else m'
  }

  lemma {:induction false} FinalListsAppend(a: seq<ExecMessage>, b: seq<ExecMessage>)
    ensures FinalLists(a + b) == FinalLists(a) + FinalLists(b)
    decreases |a|
  {
    if |a| > 0 {
      assert (a + b)[1..] == a[1..] + b;
      FinalListsAppend(a[1..], b);
    } else {
      assert a + b == b;
    }
  }

  /** The shape of the executor's queue when its backup succeeded: progress
      strings, then one final list. */
  predicate StepsThenList(ms: seq<ExecMessage>) {
    && |ms| > 0 && ms[|ms| - 1].Finished?
    && forall i :: 0 <= i < |ms| - 1 ==> ms[i].Step?
  }

  lemma {:induction false} ListsOfSteps(ms: seq<ExecMessage>)
    requires forall i :: 0 <= i < |ms| ==> ms[i].Step?
    ensures FinalLists(ms) == []
    decreases |ms|
  {
    if |ms| > 0 {
      ListsOfSteps(ms[1..]);
    }
  }

  lemma ListsOfRun(ms: seq<ExecMessage>)
    requires StepsThenList(ms)
    ensures FinalLists(ms) == [ms[|ms| - 1].actioned]
  {
    var n := |ms| - 1;
    assert ms == ms[..n] + [ms[n]];
    ListsOfSteps(ms[..n]);
    FinalListsAppend(ms[..n], [ms[n]]);
  }

  /** However the executor's messages are spread over polls, the handler stops
      at the poll that delivers the final list, having counted one step per
      progress string and kept that list. */
  lemma {:induction false} PollAllCounts(m: Monitor, batches: seq<seq<ExecMessage>>, ms: seq<ExecMessage>)
    requires Flatten(batches) == ms && StepsThenList(ms)
    ensures var r := PollAll(m, batches);
            && !r.polling
            && r.value == m.value + |ms| - 1
            && r.actioned == Some(ms[|ms| - 1].actioned)
    decreases |batches|
  {
    var b := batches[0];
    var rest := Flatten(batches[1..]);
    assert ms == b + rest;
    FinalListsAppend(b, rest);
    ListsOfRun(ms);
    if FinalLists(b) == [] {
      assert |b| < |ms|;
      assert StepsThenList(rest) by {
        assert forall i :: 0 <= i < |rest| ==> rest[i] == ms[|b| + i];
      }
      ListsOfRun(rest);
      PollAllCounts(Poll(m, b), batches[1..], rest);
    } else {
      FinalListsWitness(b);
      var i :| 0 <= i < |b| && b[i].Finished?;
      assert ms[i] == b[i];
      assert |b| == |ms|;
      assert b == ms;
      assert FinalLists(b) == [ms[|ms| - 1].actioned];
      assert PollAll(m, batches) == Poll(m, b);
    }
  }

  lemma {:induction false} FinalListsWitness(b: seq<ExecMessage>)
    requires FinalLists(b) != []
    ensures exists i :: 0 <= i < |b| && b[i].Finished?
    decreases |b|
  {
    if !b[0].Finished? {
      FinalListsWitness(b[1..]);
      var i :| 0 <= i < |b[1..]| && b[1..][i].Finished?;
      assert b[i + 1].Finished?;
    }
  }

  /** The dialog after an action whose backup succeeded: polling stops, the
      progress bar counts every processed directory, and the outcome is
      "Complete" exactly when the flag was not seen before the last patient. */
  lemma ActionOutcome(dirs: seq<DirectoryRecord>, a: Action, archivePath: string, fs: FileSystem,
                      audit: AuditLog.AuditFile, backupRaises: bool, oracles: seq<ItemOracle>, cancelAt: nat,
                      m: Monitor, batches: seq<seq<ExecMessage>>)
    requires a == Archive || a == Delete
    requires var patients := WithAction(dirs, a);
             |patients| <= |oracles| && !(|patients| > 0 && backupRaises)
    requires m.value == 0
    requires Flatten(batches) == RunAction(WithAction(dirs, a), a, archivePath, fs, audit, backupRaises, oracles, cancelAt).messages
    ensures var patients := WithAction(dirs, a);
            var r := PollAll(m, batches);
            && !r.polling
            && r.value == Min(cancelAt, |patients|)
            && (Completion(r.value, |patients|) == "Complete" <==> cancelAt >= |patients|)
  {
    RunShape(WithAction(dirs, a), a, archivePath, fs, audit, backupRaises, oracles, cancelAt);
    PollRun(m, batches, RunAction(WithAction(dirs, a), a, archivePath, fs, audit, backupRaises, oracles, cancelAt).messages,
            |WithAction(dirs, a)|, cancelAt);
  }

  /** Polling a run that processed `Min(cancelAt, n)` patients from an empty bar. */
  lemma PollRun(m: Monitor, batches: seq<seq<ExecMessage>>, ms: seq<ExecMessage>, n: nat, cancelAt: nat)
    requires m.value == 0
    requires Flatten(batches) == ms && |ms| == Min(cancelAt, n) + 1 && StepsThenList(ms)
    ensures var r := PollAll(m, batches);
            && !r.polling
            && r.value == Min(cancelAt, n)
            && (Completion(r.value, n) == "Complete" <==> cancelAt >= n)
  {
    PollAllCounts(m, batches, ms);
  }

  /** The queue of an archive or delete run over the dialog's patients, when the
      backup succeeded: one progress string per processed patient, then the list. */
  lemma RunShape(patients: seq<DirectoryRecord>, a: Action, archivePath: string, fs: FileSystem,
                 audit: AuditLog.AuditFile, backupRaises: bool, oracles: seq<ItemOracle>, cancelAt: nat)
    requires a == Archive || a == Delete
    requires forall i :: 0 <= i < |patients| ==> patients[i].action == a
    requires |patients| <= |oracles| && !(|patients| > 0 && backupRaises)
    ensures WithAction(patients, a) == patients
    ensures var run := RunAction(patients, a, archivePath, fs, audit, backupRaises, oracles, cancelAt);
            |run.messages| == Min(cancelAt, |patients|) + 1 && StepsThenList(run.messages)
  {
    WithActionAll(patients, a);
    RunActionProcesses(patients, a, archivePath, fs, audit, backupRaises, oracles, cancelAt);
  }

  /** The records whose full path is not `p`, in order. */
  function RemovePath(dirs: seq<DirectoryRecord>, p: string): (r: seq<DirectoryRecord>)
    ensures |r| <= |dirs|
    ensures forall d :: d in r <==> d in dirs && FullPath(d) != p
    decreases |dirs|
  {
    if |dirs| == 0 then []
    else (if FullPath(dirs[0]) != p then [dirs[0]] else []) + RemovePath(dirs[1..], p)
  }

  /** The pruning loop of dialogs.py:728-730: one pass over the main list for
      each actioned directory. */
  function Prune(dirs: seq<DirectoryRecord>, actioned: seq<DirectoryRecord>): (r: seq<DirectoryRecord>)
    ensures |r| <= |dirs|
    ensures forall d :: d in r <==> d in dirs && forall i :: 0 <= i < |actioned| ==> FullPath(d) != FullPath(actioned[i])
    decreases |actioned|
  {
    if |actioned| == 0 then dirs
    else
      assert forall i :: 0 <= i < |actioned[1..]| ==> actioned[1..][i] == actioned[i + 1];
      Prune(RemovePath(dirs, FullPath(actioned[0])), actioned[1..])
  }

  /** The records whose full path is none of `ps`, in order. */
  function WithoutPaths(dirs: seq<DirectoryRecord>, ps: seq<string>): (r: seq<DirectoryRecord>)
    ensures forall d :: d in r <==> d in dirs && FullPath(d) !in ps
    decreases |dirs|
  {
    if |dirs| == 0 then []
    else (if FullPath(dirs[0]) !in ps then [dirs[0]] else []) + WithoutPaths(dirs[1..], ps)
  }

  lemma {:induction false} RemoveThenWithout(dirs: seq<DirectoryRecord>, p: string, ps: seq<string>)
    ensures WithoutPaths(RemovePath(dirs, p), ps) == WithoutPaths(dirs, [p] + ps)
    decreases |dirs|
  {
    if |dirs| > 0 {
      RemoveThenWithout(dirs[1..], p, ps);
      var head := if FullPath(dirs[0]) != p then [dirs[0]] else [];
      assert RemovePath(dirs, p) == head + RemovePath(dirs[1..], p);
      WithoutPathsAppend(head, RemovePath(dirs[1..], p), ps);
    }
  }

  lemma {:induction false} WithoutPathsAppend(a: seq<DirectoryRecord>, b: seq<DirectoryRecord>, ps: seq<string>)
    ensures WithoutPaths(a + b, ps) == WithoutPaths(a, ps) + WithoutPaths(b, ps)
    decreases |a|
  {
    if |a| > 0 {
      assert (a + b)[1..] == a[1..] + b;
      WithoutPathsAppend(a[1..], b, ps);
    } else {
      assert a + b == b;
    }
  }

  /** The repeated passes keep, in their original order, exactly the records
      whose full path differs from that of every actioned directory. */
  lemma {:induction false} PruneKeepsUnactioned(dirs: seq<DirectoryRecord>, actioned: seq<DirectoryRecord>)
    ensures Prune(dirs, actioned) == WithoutPaths(dirs, Paths(actioned))
    decreases |actioned|
  {
    if |actioned| == 0 {
      WithoutNothing(dirs);
    } else {
      var p := FullPath(actioned[0]);
      PruneKeepsUnactioned(RemovePath(dirs, p), actioned[1..]);
      RemoveThenWithout(dirs, p, Paths(actioned[1..]));
      PathsCons(actioned);
    }
  }

  lemma PathsCons(ds: seq<DirectoryRecord>)
    requires |ds| > 0
    ensures Paths(ds) == [FullPath(ds[0])] + Paths(ds[1..])
  {
    var q := [FullPath(ds[0])] + Paths(ds[1..]);
    forall i | 0 <= i < |ds|
      ensures Paths(ds)[i] == q[i]
    {
      if i > 0 {
        assert q[i] == Paths(ds[1..])[i - 1];
        assert ds[1..][i - 1] == ds[i];
      }
    }
    assert |Paths(ds)| == |q|;
  }

  lemma {:induction false} WithoutNothing(dirs: seq<DirectoryRecord>)
    ensures WithoutPaths(dirs, []) == dirs
    decreases |dirs|
  {
    if |dirs| > 0 {
      WithoutNothing(dirs[1..]);
    }
  }
}
