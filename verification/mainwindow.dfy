/** The list logic of `MainApplication` (application.py): the counts, labels and
    button states of `update_gui`, the rows `update_list` shows under the action
    filter, the selections handed to export, archive and delete, and the handling
    of the scan task's queue. Widgets are replaced by the values they display. */
module MainWindow {
  import opened Records
  import opened ScanTask

  /** The records of each action, as `update_gui` partitions them. */
  datatype Buckets = Buckets(ignored: seq<DirectoryRecord>, keep: seq<DirectoryRecord>,
                             archive: seq<DirectoryRecord>, delete: seq<DirectoryRecord>)

  /** Every record lands in the bucket of its action and in no other. */
  function Bucket(dirs: seq<DirectoryRecord>): (b: Buckets)
    ensures forall d :: d in b.ignored <==> d in dirs && d.action == Ignore
    ensures forall d :: d in b.keep <==> d in dirs && d.action == Keep
    ensures forall d :: d in b.archive <==> d in dirs && d.action == Archive
    ensures forall d :: d in b.delete <==> d in dirs && d.action == Delete
  {
    Buckets(WithAction(dirs, Ignore), WithAction(dirs, Keep), WithAction(dirs, Archive), WithAction(dirs, Delete))
  }

  /** The four counts add up to the number of records scanned. */
  lemma {:induction false} BucketCounts(dirs: seq<DirectoryRecord>)
    ensures var b := Bucket(dirs);
            |b.ignored| + |b.keep| + |b.archive| + |b.delete| == |dirs|
    decreases |dirs|
  {
    if |dirs| > 0 {
      BucketCounts(dirs[1..]);
      assert WithAction(dirs, Ignore) == (if dirs[0].action == Ignore then [dirs[0]] else []) + WithAction(dirs[1..], Ignore);
      assert WithAction(dirs, Keep) == (if dirs[0].action == Keep then [dirs[0]] else []) + WithAction(dirs[1..], Keep);
      assert WithAction(dirs, Archive) == (if dirs[0].action == Archive then [dirs[0]] else []) + WithAction(dirs[1..], Archive);
      assert WithAction(dirs, Delete) == (if dirs[0].action == Delete then [dirs[0]] else []) + WithAction(dirs[1..], Delete);
    }
  }

  const LabelLimit: nat := 30
  const LabelEnd: nat := 15

  /** The archive path as the label shows it: unchanged up to 30 characters,
      otherwise its first and last 15 characters around "...". */
  function Truncate(ap: string): (r: string)
    ensures |ap| <= LabelLimit ==> r == ap
    ensures |ap| > LabelLimit ==>
              && |r| == 2 * LabelEnd + 3
              && r[..LabelEnd] == ap[..LabelEnd]
              && r[LabelEnd..LabelEnd + 3] == "..."
              && r[LabelEnd + 3..] == ap[|ap| - LabelEnd..]
  {
    if |ap| > LabelLimit then ap[..LabelEnd] + "..." + ap[|ap| - LabelEnd..] else ap
  }

  /** A label never grows past 33 characters, and a long path keeps its two ends. */
  lemma TruncateBounded(ap: string)
    ensures |Truncate(ap)| <= 2 * LabelEnd + 3
    ensures |ap| >= LabelEnd ==> Truncate(ap)[..LabelEnd] == ap[..LabelEnd]
    ensures |ap| >= LabelEnd ==> Truncate(ap)[|Truncate(ap)| - LabelEnd..] == ap[|ap| - LabelEnd..]
  {
  }

  /** Total size in bytes of some records. */
  function TotalSize(ds: seq<DirectoryRecord>): nat
    decreases |ds|
  {
    if |ds| == 0 then 0 else ds[0].dirSize + TotalSize(ds[1..])
  }

  /** What `update_gui` displays. `archiveLabel` is `None` when the label is left
      as it was because no archive path is configured; sizes are in bytes. */
  datatype Gui = Gui(searchPaths: nat, scanned: nat, ignored: nat, toArchive: nat, archiveBytes: nat,
                     archiveLabel: Option<string>, toDelete: nat, deleteBytes: nat,
                     archiveEnabled: bool, deleteEnabled: bool)

  /** `update_gui` (application.py:340-379). */
  function UpdateGui(dirs: seq<DirectoryRecord>, xviPaths: nat, archivePath: Option<string>): (g: Gui)
    ensures g.scanned == |dirs| && g.searchPaths == xviPaths
    ensures g.ignored + g.toArchive + g.toDelete <= g.scanned
    ensures g.archiveEnabled <==> exists d :: d in dirs && d.action == Archive
    ensures g.deleteEnabled <==> exists d :: d in dirs && d.action == Delete
    ensures g.archiveEnabled <==> g.toArchive > 0
    ensures g.deleteEnabled <==> g.toDelete > 0
    ensures archivePath.None? ==> g.archiveLabel.None?
    ensures archivePath.Some? ==> g.archiveLabel == Some("Archive Path: " + Truncate(archivePath.value))
    ensures var b := Bucket(dirs);
            && g.ignored == |b.ignored| && g.toArchive == |b.archive| && g.toDelete == |b.delete|
            && g.archiveBytes == TotalSize(b.archive) && g.deleteBytes == TotalSize(b.delete)
  {
    var b := Bucket(dirs);
    BucketCounts(dirs);
    assert |b.archive| > 0 ==> b.archive[0] in b.archive;
    assert |b.delete| > 0 ==> b.delete[0] in b.delete;
    Gui(xviPaths, |dirs|, |b.ignored|, |b.archive|, TotalSize(b.archive),
        if archivePath.Some? then Some("Archive Path: " + Truncate(archivePath.value)) else None,
        |b.delete|, TotalSize(b.delete), |b.archive| > 0, |b.delete| > 0)
  }

  /** Which actions the list shows. */
  datatype Filter = Filter(keep: bool, archive: bool, delete: bool, ignore: bool)

  function Shows(f: Filter, a: Action): bool {
    match a
    case Keep => f.keep
    case Archive => f.archive
    case Delete => f.delete
    case Ignore => f.ignore
  }

  /** The filter the window opens with (application.py:64-69). */
  const InitialFilter: Filter := Filter(true, true, true, false)

  lemma InitialFilterHidesIgnored(a: Action)
    ensures Shows(InitialFilter, a) <==> a != Ignore
  {
  }

  /** A click on the button of action `a` (application.py:413-421). */
  function Toggle(f: Filter, a: Action): (g: Filter)
    ensures Shows(g, a) == !Shows(f, a)
    ensures forall b :: b != a ==> Shows(g, b) == Shows(f, b)
  {
    match a
    case Keep => f.(keep := !f.keep)
    case Archive => f.(archive := !f.archive)
    case Delete => f.(delete := !f.delete)
    case Ignore => f.(ignore := !f.ignore)
  }

  /** Two clicks on the same button restore the filter, and clicks on different
      buttons commute. */
  lemma ToggleTwice(f: Filter, a: Action, b: Action)
    ensures Toggle(Toggle(f, a), a) == f
    ensures Toggle(Toggle(f, a), b) == Toggle(Toggle(f, b), a)
  {
  }

  /** The records whose action the filter shows, in order. */
  function Shown(dirs: seq<DirectoryRecord>, f: Filter): (r: seq<DirectoryRecord>)
    ensures forall d :: d in r <==> d in dirs && Shows(f, d.action)
    decreases |dirs|
  {
    if |dirs| == 0 then []
    else (if Shows(f, dirs[0].action) then [dirs[0]] else []) + Shown(dirs[1..], f)
  }

  /** The list keeps the order of the directory list: filtering distributes over
      concatenation, and one record is shown exactly when its action is ticked. */
  lemma {:induction false} ShownAppend(a: seq<DirectoryRecord>, b: seq<DirectoryRecord>, f: Filter)
    ensures Shown(a + b, f) == Shown(a, f) + Shown(b, f)
    ensures |a| == 1 ==> Shown(a, f) == (if Shows(f, a[0].action) then a else [])
    decreases |a|
  {
    if |a| > 0 {
      assert (a + b)[1..] == a[1..] + b;
      ShownAppend(a[1..], b, f);
      var h := if Shows(f, a[0].action) then [a[0]] else [];
      calc {
        Shown(a + b, f);
        h + Shown(a[1..] + b, f);
        h + (Shown(a[1..], f) + Shown(b, f));
        (h + Shown(a[1..], f)) + Shown(b, f);
      }
      if |a| == 1 {
        assert a[1..] == [];
        assert a == [a[0]];
      }
    } else {
      assert a + b == b;
    }
  }

  /** With a single action shown the list is exactly that action's bucket. */
  lemma {:induction false} ShownSingle(dirs: seq<DirectoryRecord>, f: Filter, a: Action)
    requires forall b :: Shows(f, b) <==> b == a
    ensures Shown(dirs, f) == WithAction(dirs, a)
    decreases |dirs|
  {
    if |dirs| > 0 {
      ShownSingle(dirs[1..], f, a);
    }
  }

  /** The columns after the action; blank for an ignored record. */
  datatype Details = Details(mrn: string, name: string, finished: bool, trial: bool, has4d: bool,
                             lastFraction: Option<int>)

  /** One row of the list. */
  datatype Row = Row(action: Action, details: Option<Details>, dirName: string, path: string, dirSize: nat)

  function RowFor(d: DirectoryRecord): (row: Row)
    ensures row.action == d.action && row.dirName == d.dirName && row.path == d.path && row.dirSize == d.dirSize
    ensures row.details.None? <==> d.action == Ignore
    ensures d.action != Ignore ==>
              row.details == Some(Details(d.mrn, d.name, d.finishedTreatment, d.clinicalTrial, d.has4d, d.lastFraction))
  {
    Row(d.action,
        if d.action == Ignore then None
        else Some(Details(d.mrn, d.name, d.finishedTreatment, d.clinicalTrial, d.has4d, d.lastFraction)),
        d.dirName, d.path, d.dirSize)
  }

  /** `update_list` (application.py:382-395): one row per shown record, in order. */
  function ListRows(dirs: seq<DirectoryRecord>, f: Filter): (rows: seq<Row>)
    ensures |rows| == |Shown(dirs, f)|
    ensures forall i :: 0 <= i < |rows| ==> rows[i] == RowFor(Shown(dirs, f)[i])
    ensures forall i :: 0 <= i < |rows| ==> Shows(f, rows[i].action)
  {
    var shown := Shown(dirs, f);
    assert forall i :: 0 <= i < |shown| ==> shown[i] in shown;
    seq(|shown|, i requires 0 <= i < |shown| => RowFor(shown[i]))
  }

  /** With the initial filter no ignored record is listed, and every other is. */
  lemma InitialListing(dirs: seq<DirectoryRecord>)
    ensures forall d :: d in Shown(dirs, InitialFilter) <==> d in dirs && d.action != Ignore
    ensures forall row :: row in ListRows(dirs, InitialFilter) ==> row.details.Some?
  {
    var rows := ListRows(dirs, InitialFilter);
    forall row | row in rows
      ensures row.details.Some?
    {
      var i :| 0 <= i < |rows| && rows[i] == row;
    }
  }

  /** The records `export_list` writes (application.py:281): all but the ignored. */
  function ExportSelection(dirs: seq<DirectoryRecord>): (r: seq<DirectoryRecord>)
    ensures forall d :: d in r <==> d in dirs && d.action != Ignore
    decreases |dirs|
  {
    if |dirs| == 0 then []
    else (if dirs[0].action == Delete || dirs[0].action == Archive || dirs[0].action == Keep then [dirs[0]] else [])
         + ExportSelection(dirs[1..])
  }

  /** The export keeps the order of the directory list: the selection distributes
      over concatenation, and one record is exported exactly when it is not IGNORE. */
  lemma ExportSelectionAppend(a: seq<DirectoryRecord>, b: seq<DirectoryRecord>)
    ensures ExportSelection(a + b) == ExportSelection(a) + ExportSelection(b)
    ensures |a| == 1 ==> ExportSelection(a) == (if a[0].action != Ignore then a else [])
  {
    ExportMatchesInitialList(a + b);
    ExportMatchesInitialList(a);
    ExportMatchesInitialList(b);
    ShownAppend(a, b, InitialFilter);
  }

  /** The export selection is, record for record, what the list shows when the
      window opens. */
  lemma {:induction false} ExportMatchesInitialList(dirs: seq<DirectoryRecord>)
    ensures ExportSelection(dirs) == Shown(dirs, InitialFilter)
    decreases |dirs|
  {
    if |dirs| > 0 {
      ExportMatchesInitialList(dirs[1..]);
    }
  }

  /** What an export does: whether it warned, whether it raised, and the records
      written to the file. */
  datatype ExportResult = ExportResult(warned: bool, raised: bool, written: seq<DirectoryRecord>)

  /** `export_list` as written (application.py:276-291): an empty selection shows
      the warning and then reads the keys of its first element anyway. */
  function ExportAsWritten(dirs: seq<DirectoryRecord>): (e: ExportResult)
    ensures e.warned <==> forall d :: d in dirs ==> d.action == Ignore
    ensures !e.warned ==> !e.raised && e.written == ExportSelection(dirs)
  {
    var sel := ExportSelection(dirs);
    assert |sel| > 0 ==> sel[0] in sel;
    if |sel| == 0 then ExportResult(true, true, []) else ExportResult(false, false, sel)
  }

  /** Every warning of the export is followed by an `IndexError`: an empty list of
      records shows it. */
  lemma ExportAsWrittenRaises(dirs: seq<DirectoryRecord>)
    ensures ExportAsWritten(dirs).warned ==> ExportAsWritten(dirs).raised
    ensures ExportAsWritten([]).raised
  {
  }

  /** `export_list` returning after the warning: it never raises, warns exactly
      when nothing is exportable, and writes exactly the non-ignored records. */
  function Export(dirs: seq<DirectoryRecord>): (e: ExportResult)
    ensures !e.raised
    ensures e.warned <==> forall d :: d in dirs ==> d.action == Ignore
    ensures forall d :: d in e.written <==> d in dirs && d.action != Ignore
    ensures e.written == ExportSelection(dirs)
  {
    var sel := ExportSelection(dirs);
    assert |sel| > 0 ==> sel[0] in sel;
    if |sel| == 0 then ExportResult(true, false, []) else ExportResult(false, false, sel)
  }

  /** A warning dialog. */
  datatype Warning = Warning(title: string, text: string)

  /** What the scan's queue handler keeps between polls: the list on display,
      the warnings shown, whether the scanning dialog is open, and whether the
      handler is still scheduled. */
  datatype ScanView = ScanView(directories: seq<DirectoryRecord>, warnings: seq<Warning>,
                               dialogOpen: bool, polling: bool)

  /** The messages of one poll, in queue order; `done` is `task_done`. A list
      closes the dialog and, when non-empty, replaces the directories. Only a
      non-empty list sets `done`, unless `emptyEnds`. */
  function Deliver(v: ScanView, batch: seq<ScanMessage>, done: bool, emptyEnds: bool): (r: (ScanView, bool))
    ensures done ==> r.1
    decreases |batch|
  {
    if |batch| == 0 then (v, done)
    else match batch[0]
      case QueryError(title, text) =>
        Deliver(v.(warnings := v.warnings + [Warning(title, text)]), batch[1..], done, emptyEnds)
      case ScanDone(dirs) =>
        var v' := if |dirs| > 0 then v.(directories := dirs, dialogOpen := false) else v.(dialogOpen := false);
        Deliver(v', batch[1..], done || |dirs| > 0 || emptyEnds, emptyEnds)
  }

  /** A list that sets `task_done`: any list when `emptyEnds`, else a non-empty one. */
  predicate Ends(m: ScanMessage, emptyEnds: bool) {
    m.ScanDone? && (|m.dirs| > 0 || emptyEnds)
  }

  /** Delivering a batch shows its errors in order after the earlier warnings,
      closes the dialog exactly when the batch holds a list, and sets `done`
      exactly when some list in it ends the scan. */
  lemma {:induction false} DeliverEffect(v: ScanView, batch: seq<ScanMessage>, done: bool, emptyEnds: bool)
    ensures var r := Deliver(v, batch, done, emptyEnds);
            && r.0.warnings == v.warnings + Errors(batch)
            && r.0.polling == v.polling
            && (r.0.dialogOpen <==> v.dialogOpen && forall i :: 0 <= i < |batch| ==> batch[i].QueryError?)
            && (r.1 <==> done || exists i :: 0 <= i < |batch| && Ends(batch[i], emptyEnds))
    decreases |batch|
  {
    if |batch| > 0 {
      var m := batch[0];
      var rest := batch[1..];
      var shown := if m.QueryError? then [Warning(m.title, m.text)] else [];
      var v' := if m.QueryError? then v.(warnings := v.warnings + shown)
                else if |m.dirs| > 0 then v.(directories := m.dirs, dialogOpen := false)
                else v.(dialogOpen := false);
      var done' := done || Ends(m, emptyEnds);
      assert Deliver(v, batch, done, emptyEnds) == Deliver(v', rest, done', emptyEnds);
      DeliverEffect(v', rest, done', emptyEnds);
      assert forall i :: 0 <= i < |rest| ==> rest[i] == batch[i + 1];
      assert Errors(batch) == shown + Errors(rest);
      assert v'.warnings == v.warnings + shown;
      if exists i :: 0 <= i < |batch| && Ends(batch[i], emptyEnds) {
        var i :| 0 <= i < |batch| && Ends(batch[i], emptyEnds);
        assert i == 0 || Ends(rest[i - 1], emptyEnds);
      }
      if !m.QueryError? {
        assert !(forall i :: 0 <= i < |batch| ==> batch[i].QueryError?);
      }
      if (forall i :: 0 <= i < |rest| ==> rest[i].QueryError?) && m.QueryError? {
        assert forall i :: 0 <= i < |batch| ==> batch[i].QueryError? by {
          forall i | 0 <= i < |batch| ensures batch[i].QueryError? {
            if i > 0 { assert batch[i] == rest[i - 1]; }
          }
        }
      }
    }
  }

  /** `process_queue` as written (application.py:313-336): reschedules itself
      unless this poll saw a non-empty list. */
  function ScanPollAsWritten(v: ScanView, batch: seq<ScanMessage>): (r: ScanView)
    ensures r.warnings == v.warnings + Errors(batch)
    ensures !r.polling <==> exists i :: 0 <= i < |batch| && Ends(batch[i], false)
  {
    DeliverEffect(v, batch, false, false);
    var (v', done) := Deliver(v, batch, false, false);
    v'.(polling := !done)
  }

  /** `process_queue` stopping at any final list, empty or not. */
  function ScanPoll(v: ScanView, batch: seq<ScanMessage>): (r: ScanView)
    ensures r.warnings == v.warnings + Errors(batch)
    ensures !r.polling <==> exists i :: 0 <= i < |batch| && batch[i].ScanDone?
  {
    DeliverEffect(v, batch, false, true);
    var (v', done) := Deliver(v, batch, false, true);
    v'.(polling := !done)
  }

  /** One poll with the handler as written or the corrected one. */
  function PollOnce(v: ScanView, batch: seq<ScanMessage>, corrected: bool): ScanView {
    if corrected then ScanPoll(v, batch) else ScanPollAsWritten(v, batch)
  }

  /** Polls in order until one stops the handler. */
  function PollUntilDone(v: ScanView, batches: seq<seq<ScanMessage>>, corrected: bool): ScanView
    decreases |batches|
  {
    if |batches| == 0 then v
    else
      var v' := PollOnce(v, batches[0], corrected);
      if v'.polling then PollUntilDone(v', batches[1..], corrected) else v'
  }

  /** The warnings a batch shows, in order. */
  function Errors(batch: seq<ScanMessage>): seq<Warning>
    decreases |batch|
  {
    if |batch| == 0 then []
    else (if batch[0].QueryError? then [Warning(batch[0].title, batch[0].text)] else []) + Errors(batch[1..])
  }

  /** Delivering a batch whose lists are all empty changes nothing but the
      warnings and the dialog, and leaves `done` as it was unless `emptyEnds`. */
  lemma {:induction false} DeliverEmptyLists(v: ScanView, batch: seq<ScanMessage>, done: bool, emptyEnds: bool)
    requires forall i :: 0 <= i < |batch| && batch[i].ScanDone? ==> batch[i].dirs == []
    ensures var r := Deliver(v, batch, done, emptyEnds);
            && r.0.directories == v.directories
            && r.0.warnings == v.warnings + Errors(batch)
            && ((!emptyEnds || forall i :: 0 <= i < |batch| ==> batch[i].QueryError?) ==> r.1 == done)
    decreases |batch|
  {
    if |batch| > 0 {
      var m := batch[0];
      var rest := batch[1..];
      var shown := if m.QueryError? then [Warning(m.title, m.text)] else [];
      var v' := if m.QueryError? then v.(warnings := v.warnings + shown) else v.(dialogOpen := false);
      var done' := if m.QueryError? then done else done || emptyEnds;
      assert Deliver(v, batch, done, emptyEnds) == Deliver(v', rest, done', emptyEnds);
      assert forall i :: 0 <= i < |rest| ==> rest[i] == batch[i + 1];
      DeliverEmptyLists(v', rest, done', emptyEnds);
      assert Errors(batch) == shown + Errors(rest);
      assert v'.warnings == v.warnings + shown;
    }
  }

  /** Delivering a batch that ends in the final list: the directories become that
      list when it is non-empty, and the handler stops when the list ends the scan. */
  lemma {:induction false} DeliverFinal(v: ScanView, batch: seq<ScanMessage>, done: bool, emptyEnds: bool)
    requires |batch| > 0 && batch[|batch| - 1].ScanDone?
    requires forall i :: 0 <= i < |batch| - 1 ==> batch[i].QueryError?
    ensures var r := Deliver(v, batch, done, emptyEnds);
            var last := batch[|batch| - 1].dirs;
            && (r.1 <==> done || emptyEnds || |last| > 0)
            && !r.0.dialogOpen
            && r.0.directories == (if |last| > 0 then last else v.directories)
            && r.0.warnings == v.warnings + Errors(batch)
    decreases |batch|
  {
    if |batch| == 1 {
      var last := batch[0].dirs;
      var v' := if |last| > 0 then v.(directories := last, dialogOpen := false) else v.(dialogOpen := false);
      assert batch[1..] == [];
      assert Deliver(v, batch, done, emptyEnds) == (v', done || |last| > 0 || emptyEnds);
      assert Errors(batch) == [] by {
        assert Errors(batch) == Errors(batch[1..]);
      }
    } else {
      var w := Warning(batch[0].title, batch[0].text);
      var v' := v.(warnings := v.warnings + [w]);
      assert Deliver(v, batch, done, emptyEnds) == Deliver(v', batch[1..], done, emptyEnds);
      assert batch[1..][|batch[1..]| - 1] == batch[|batch| - 1];
      assert forall i :: 0 <= i < |batch[1..]| - 1 ==> batch[1..][i] == batch[i + 1];
      DeliverFinal(v', batch[1..], done, emptyEnds);
      assert Errors(batch) == [w] + Errors(batch[1..]);
    }
  }

  lemma {:induction false} ErrorsAppend(a: seq<ScanMessage>, b: seq<ScanMessage>)
    ensures Errors(a + b) == Errors(a) + Errors(b)
    decreases |a|
  {
    if |a| > 0 {
      assert (a + b)[1..] == a[1..] + b;
      ErrorsAppend(a[1..], b);
    } else {
      assert a + b == b;
    }
  }

  /** The shape of every scan's queue: errors, then one final list. */
  predicate ErrorsThenList(ms: seq<ScanMessage>) {
    && |ms| > 0 && ms[|ms| - 1].ScanDone?
    && forall i :: 0 <= i < |ms| - 1 ==> ms[i].QueryError?
  }

  /** Polling stops at the poll that delivers the final list, however the
      messages are spread over polls, when that list ends the scan: always with
      the corrected handler, and for a non-empty list with the handler as written. */
  lemma {:induction false} PollStops(v: ScanView, batches: seq<seq<ScanMessage>>, ms: seq<ScanMessage>, corrected: bool)
    requires Flatten(batches) == ms && ErrorsThenList(ms)
    requires corrected || |ms[|ms| - 1].dirs| > 0
    ensures var r := PollUntilDone(v, batches, corrected);
            var last := ms[|ms| - 1].dirs;
            && !r.polling && !r.dialogOpen
            && r.directories == (if |last| > 0 then last else v.directories)
            && r.warnings == v.warnings + Errors(ms)
    decreases |batches|
  {
    var b := batches[0];
    var rest := Flatten(batches[1..]);
    assert ms == b + rest;
    if |b| == |ms| {
      assert b == ms;
      FinalBatchStops(v, batches, ms, corrected);
    } else {
      var v' := PollOnce(v, b, corrected);
      PollStopsStep(v, b, rest, ms, corrected);
      assert PollUntilDone(v, batches, corrected) == PollUntilDone(v', batches[1..], corrected);
      PollStops(v', batches[1..], rest, corrected);
      assert Errors(ms) == Errors(b) + Errors(rest) by {
        ErrorsAppend(b, rest);
      }
    }
  }

  /** A poll that delivers a strict prefix of a scan's queue shows its errors and
      keeps polling, and leaves a queue of the same shape. */
  lemma PollStopsStep(v: ScanView, b: seq<ScanMessage>, rest: seq<ScanMessage>, ms: seq<ScanMessage>, corrected: bool)
    requires ms == b + rest && ErrorsThenList(ms) && |b| < |ms|
    ensures var v' := PollOnce(v, b, corrected);
            && ErrorsThenList(rest) && rest[|rest| - 1] == ms[|ms| - 1]
            && v'.polling && v'.directories == v.directories && v'.warnings == v.warnings + Errors(b)
  {
    assert ms[..|b|] == b && ms[|b|..] == rest;
    ErrorsThenListSuffix(ms, |b|);
    assert forall i :: 0 <= i < |b| ==> b[i].QueryError? by {
      assert forall i :: 0 <= i < |b| ==> b[i] == ms[i];
    }
    ErrorsOnlyPoll(v, b, corrected);
  }

  /** A first poll that delivers the whole queue stops the handler. */
  lemma FinalBatchStops(v: ScanView, batches: seq<seq<ScanMessage>>, ms: seq<ScanMessage>, corrected: bool)
    requires |batches| > 0 && batches[0] == ms && ErrorsThenList(ms)
    requires corrected || |ms[|ms| - 1].dirs| > 0
    ensures var r := PollUntilDone(v, batches, corrected);
            var last := ms[|ms| - 1].dirs;
            && !r.polling && !r.dialogOpen
            && r.directories == (if |last| > 0 then last else v.directories)
            && r.warnings == v.warnings + Errors(ms)
  {
    DeliverFinal(v, ms, false, corrected);
    assert PollUntilDone(v, batches, corrected) == PollOnce(v, ms, corrected);
  }

  /** A poll that delivers only errors shows them and keeps polling. */
  lemma ErrorsOnlyPoll(v: ScanView, b: seq<ScanMessage>, corrected: bool)
    requires forall i :: 0 <= i < |b| ==> b[i].QueryError?
    ensures var v' := PollOnce(v, b, corrected);
            v'.polling && v'.directories == v.directories && v'.warnings == v.warnings + Errors(b)
  {
    DeliverEmptyLists(v, b, false, corrected);
  }

  /** What is left of a scan's queue after a strict prefix has been read has the
      same shape and the same final list. */
  lemma ErrorsThenListSuffix(ms: seq<ScanMessage>, k: nat)
    requires ErrorsThenList(ms) && k < |ms|
    ensures ErrorsThenList(ms[k..]) && ms[k..][|ms| - k - 1] == ms[|ms| - 1]
  {
    assert forall i :: 0 <= i < |ms| - k ==> ms[k..][i] == ms[k + i];
  }

  /** Polling as written never stops, and keeps the directories, while every list
      it sees is empty. */
  lemma {:induction false} AsWrittenKeepsPolling(v: ScanView, batches: seq<seq<ScanMessage>>)
    requires v.polling
    requires forall i :: 0 <= i < |Flatten(batches)| && Flatten(batches)[i].ScanDone? ==> Flatten(batches)[i].dirs == []
    ensures PollUntilDone(v, batches, false).polling
    ensures PollUntilDone(v, batches, false).directories == v.directories
    decreases |batches|
  {
    if |batches| > 0 {
      var b := batches[0];
      var all := Flatten(batches);
      var rest := Flatten(batches[1..]);
      assert all == b + rest;
      assert forall i :: 0 <= i < |b| ==> b[i] == all[i];
      assert forall i :: 0 <= i < |rest| ==> rest[i] == all[|b| + i];
      DeliverEmptyLists(v, b, false, false);
      AsWrittenKeepsPolling(ScanPollAsWritten(v, b), batches[1..]);
    }
  }

  /** A cancelled scan queues an empty list, and the handler as written then
      polls every 100 ms for ever, however many polls are made. */
  lemma CancelledScanPollsForever(roots: seq<Scanner.Root>, ignoreMrns: seq<string>, quick: bool,
                                  replies: OisReplies, now: int, cancelAt: nat,
                                  v: ScanView, batches: seq<seq<ScanMessage>>)
    requires Flatten(batches) == RunScan(roots, ignoreMrns, quick, replies, now, cancelAt).messages
    ensures v.polling && cancelAt < ChecksMade(roots, ignoreMrns, quick, replies) ==>
              PollUntilDone(v, batches, false).polling && PollUntilDone(v, batches, false).directories == v.directories
  {
    if v.polling && cancelAt < ChecksMade(roots, ignoreMrns, quick, replies) {
      TerminalEmptyOrComplete(roots, ignoreMrns, quick, replies, now, cancelAt);
      AsWrittenKeepsPolling(v, batches);
    }
  }

  /** With the corrected handler a scan, cancelled or not, ends the polling once
      its messages are delivered: the errors are shown in order, and the list on
      display becomes the scan's result unless the scan was cancelled. */
  lemma ScanEndsPolling(roots: seq<Scanner.Root>, ignoreMrns: seq<string>, quick: bool,
                        replies: OisReplies, now: int, cancelAt: nat,
                        v: ScanView, batches: seq<seq<ScanMessage>>)
    requires Flatten(batches) == RunScan(roots, ignoreMrns, quick, replies, now, cancelAt).messages
    ensures var run := RunScan(roots, ignoreMrns, quick, replies, now, cancelAt);
            var r := PollUntilDone(v, batches, true);
            var result := ExpectedResult(roots, ignoreMrns, quick, replies, now);
            && !r.polling && !r.dialogOpen
            && r.warnings == v.warnings + Errors(run.messages)
            && (cancelAt < ChecksMade(roots, ignoreMrns, quick, replies) ==> r.directories == v.directories)
            && (cancelAt >= ChecksMade(roots, ignoreMrns, quick, replies) && |result| > 0 ==> r.directories == result)
  {
    TerminalEmptyOrComplete(roots, ignoreMrns, quick, replies, now, cancelAt);
    PollStops(v, batches, RunScan(roots, ignoreMrns, quick, replies, now, cancelAt).messages, true);
  }

  /** The handler as written ends an uncancelled scan that found directories
      as intended: it stops polling, closes the dialog, shows the errors in
      order and displays the scan's result. */
  lemma ScanAsWrittenCompletes(roots: seq<Scanner.Root>, ignoreMrns: seq<string>, quick: bool,
                               replies: OisReplies, now: int, cancelAt: nat,
                               v: ScanView, batches: seq<seq<ScanMessage>>)
    requires Flatten(batches) == RunScan(roots, ignoreMrns, quick, replies, now, cancelAt).messages
    ensures var run := RunScan(roots, ignoreMrns, quick, replies, now, cancelAt);
            var r := PollUntilDone(v, batches, false);
            var result := ExpectedResult(roots, ignoreMrns, quick, replies, now);
            cancelAt >= ChecksMade(roots, ignoreMrns, quick, replies) && |result| > 0 ==>
              && !r.polling && !r.dialogOpen
              && r.warnings == v.warnings + Errors(run.messages)
              && r.directories == result
  {
    var result := ExpectedResult(roots, ignoreMrns, quick, replies, now);
    if cancelAt >= ChecksMade(roots, ignoreMrns, quick, replies) && |result| > 0 {
      TerminalEmptyOrComplete(roots, ignoreMrns, quick, replies, now, cancelAt);
      PollStops(v, batches, RunScan(roots, ignoreMrns, quick, replies, now, cancelAt).messages, false);
    }
  }
}
