/** `PerformActionTask.run` (tools.py): the verified archive/delete executor.
    The file store is a map from directory path to its size; the outcome of each
    copy and each delete, and the date of each audit entry, come from one oracle
    per directory; cancellation is the flag being seen before directory number
    `cancelAt` of the filtered list. */
module Executor {
  import opened Records
  import opened Text
  import opened AuditLog

  /** Directories that exist, with the size `get_size` reports for each. */
  type FileSystem = map<string, nat>

  /** `get_size` walks nothing under a missing path and reports 0. */
  function SizeOf(fs: FileSystem, p: string): nat {
    if p in fs then fs[p] else 0
  }

  /** What `copytree` does when source and destination allow it: the copy
      completes with the size the destination ends up with, or raises. */
  datatype CopyOutcome = Copied(size: nat) | CopyFailed(reason: string)

  /** What `rmtree` does to an existing directory: removes it, or raises part way
      leaving `remaining` bytes behind. */
  datatype RemoveOutcome = Removed | RemoveFailed(reason: string, remaining: nat)

  /** The oracle for one directory, and the date its audit entry would carry. */
  datatype ItemOracle = ItemOracle(copy: CopyOutcome, remove: RemoveOutcome, date: string)

  const SourceMissing: string := "source directory does not exist"
  const DestinationExists: string := "destination directory already exists"

  /** The result of one file-store operation: the store afterwards, and the error
      raised if it failed. */
  datatype Attempt = Failed(reason: string, fs: FileSystem) | Succeeded(fs: FileSystem)

  /** `shutil.copytree(src, dst)`: refuses a missing source or an existing
      destination, and otherwise creates the destination or raises. */
  function CopyTree(fs: FileSystem, src: string, dst: string, outcome: CopyOutcome): (a: Attempt)
    ensures a.Failed? ==> a.fs == fs
    ensures a.Succeeded? ==> src in fs && dst !in fs && outcome.Copied? && a.fs == fs[dst := outcome.size]
  {
    if src !in fs then Failed(SourceMissing, fs)
    else if dst in fs then Failed(DestinationExists, fs)
    else match outcome
      case Copied(size) => Succeeded(fs[dst := size])
      case CopyFailed(reason) => Failed(reason, fs)
  }

  /** `shutil.rmtree(src)`: the directory is gone exactly when the call succeeds. */
  function RemoveTree(fs: FileSystem, src: string, outcome: RemoveOutcome): (a: Attempt)
    ensures a.Succeeded? <==> src in fs && outcome.Removed?
    ensures a.Succeeded? ==> a.fs == fs - {src}
    ensures a.Failed? ==> src in a.fs <==> src in fs
    ensures forall p :: p != src ==> (p in a.fs <==> p in fs) && (p in fs ==> a.fs[p] == fs[p])
  {
    if src !in fs then Failed(SourceMissing, fs)
    else match outcome
      case Removed => Succeeded(fs - {src})
      case RemoveFailed(reason, remaining) => Failed(reason, fs[src := remaining])
  }

  /** The progress strings put on the queue. */
  datatype Progress =
    | CopyError(mrn: string, name: string, dst: string, reason: string)
    | SizeMismatch(mrn: string, name: string)
    | DeleteError(mrn: string, name: string, reason: string)
    | Archived(mrn: string, name: string, dst: string)
    | Deleted(mrn: string, name: string)

  /** The text queued for a progress message: every line names the patient first,
      then says whether the step succeeded or failed. */
  function ProgressText(p: Progress): (r: string)
    ensures Head(p) <= r
    ensures (p.Archived? || p.Deleted?) <==> "Successfully" <= r[|Head(p)|..]
    ensures !(p.Archived? || p.Deleted?) <==> "Error" <= r[|Head(p)|..]
  {
    var (word, rest) := match p
      case CopyError(_, _, dst, reason) => ("Error", " copying to " + dst + " - " + reason)
      case SizeMismatch(_, _) => ("Error", ": Src and Dst directory sizes do not match.")
      case DeleteError(_, _, reason) => ("Error", " deleting " + reason)
      case Archived(_, _, dst) => ("Successfully", " Archived to " + dst)
      case Deleted(_, _) => ("Successfully", " Deleted");
    var r := Head(p) + (word + rest);
    assert r[|Head(p)|..] == word + rest;
    assert (word + rest)[..|word|] == word;
    assert (word + rest)[0] == word[0];
    r
  }

  /** The patient prefix of every progress line. */
  function Head(p: Progress): string {
    p.mrn + " - " + p.name + ": "
  }

  /** How one directory ended. */
  datatype Outcome = CopyFailure | SizeFailure | RemoveFailure | Success

  /** The executor's state between directories. `entries` lists the audit entries
      recorded so far, in order. */
  datatype State = State(fs: FileSystem, progress: seq<Progress>, outcomes: seq<Outcome>,
                         actioned: seq<DirectoryRecord>, entries: seq<AuditEntry>, audit: AuditFile)

  /** Progress line `m` reports directory `d`, which ended with outcome `x`: it
      names the patient, and it announces success exactly when the delete
      succeeded; a failed copy, a size mismatch and a failed delete each have
      their own error line. */
  predicate Reports(m: Progress, d: DirectoryRecord, x: Outcome, action: Action) {
    && m.mrn == d.mrn && m.name == d.name
    && (m.Archived? <==> x == Success && action == Archive)
    && (m.Deleted? <==> x == Success && action == Delete)
    && (x == CopyFailure <==> m.CopyError?)
    && (x == SizeFailure <==> m == SizeMismatch(d.mrn, d.name))
    && (x == RemoveFailure <==> m.DeleteError?)
  }

  function ArchiveDest(archivePath: string, d: DirectoryRecord): string {
    PathJoin(archivePath, d.dirName)
  }

  /** The source delete and, on success, the success message, the actioned list and
      the audit file (tools.py:409-459). */
  function RemoveSource(st: State, d: DirectoryRecord, action: Action, dst: string, o: ItemOracle): (st': State)
  {
    match RemoveTree(st.fs, FullPath(d), o.remove)
    case Failed(reason, fs') =>
      st.(fs := fs', progress := st.progress + [DeleteError(d.mrn, d.name, reason)],
          outcomes := st.outcomes + [RemoveFailure])
    case Succeeded(fs') =>
      var message := if action == Archive then [Archived(d.mrn, d.name, dst)]
                     else if action == Delete then [Deleted(d.mrn, d.name)]
                     else [];
      var entry := AuditEntry(d.action, d.mrn, o.date);
      st.(fs := fs', progress := st.progress + message, outcomes := st.outcomes + [Success],
          actioned := st.actioned + [d], entries := st.entries + [entry], audit := Record(st.audit, entry))
  }

  /** One directory (tools.py:368-459). An archive first copies the tree and
      compares the two sizes; the source is deleted only after both succeed.
      Any other action deletes the source directly. */
  function ProcessOne(st: State, d: DirectoryRecord, action: Action, archivePath: string, o: ItemOracle): (st': State)
    ensures |st'.outcomes| == |st.outcomes| + 1 && st'.outcomes[..|st.outcomes|] == st.outcomes
    ensures st'.outcomes[|st.outcomes|] == Success ==>
              && st'.actioned == st.actioned + [d]
              && st'.entries == st.entries + [AuditEntry(d.action, d.mrn, o.date)]
              && st'.audit == Record(st.audit, AuditEntry(d.action, d.mrn, o.date))
    ensures st'.outcomes[|st.outcomes|] != Success ==>
              st'.actioned == st.actioned && st'.entries == st.entries && st'.audit == st.audit
    ensures st.progress <= st'.progress
    ensures (action == Archive || action == Delete) ==> |st'.progress| == |st.progress| + 1
  {
    var src := FullPath(d);
    if action == Archive then
      var dst := ArchiveDest(archivePath, d);
      match CopyTree(st.fs, src, dst, o.copy)
      case Failed(reason, _) =>
        st.(progress := st.progress + [CopyError(d.mrn, d.name, dst, reason)],
            outcomes := st.outcomes + [CopyFailure])
      case Succeeded(fs1) =>
        if SizeOf(fs1, src) != SizeOf(fs1, dst) then
          st.(fs := fs1, progress := st.progress + [SizeMismatch(d.mrn, d.name)],
              outcomes := st.outcomes + [SizeFailure])
        else
          RemoveSource(st.(fs := fs1), d, action, dst, o)
    else
      RemoveSource(st, d, action, "", o)
  }

  /** What one directory does to the file store: the source disappears exactly
      when its delete succeeded; the source is touched only by a delete, and in
      an archive the delete is attempted only after a copy to a fresh destination
      whose size matched the source's; a failed or mismatched copy leaves the
      source as it was; and nothing but the source and the destination changes. */
  lemma ProcessOneStore(st: State, d: DirectoryRecord, action: Action, archivePath: string, o: ItemOracle)
    ensures var st' := ProcessOne(st, d, action, archivePath, o);
            var src := FullPath(d);
            var dst := ArchiveDest(archivePath, d);
            var outcome := st'.outcomes[|st.outcomes|];
            && (src in st.fs && src !in st'.fs <==> outcome == Success)
            && (src in st.fs && (src !in st'.fs || st'.fs[src] != st.fs[src]) ==>
                  outcome == Success || outcome == RemoveFailure)
            && (action == Archive && (outcome == Success || outcome == RemoveFailure) ==>
                  && src in st.fs && dst !in st.fs && src != dst
                  && o.copy.Copied? && o.copy.size == st.fs[src]
                  && dst in st'.fs && st'.fs[dst] == st.fs[src])
            && (outcome == CopyFailure ==> st'.fs == st.fs)
            && ((outcome == CopyFailure || outcome == SizeFailure) ==>
                  action == Archive && (src in st'.fs <==> src in st.fs) && (src in st.fs ==> st'.fs[src] == st.fs[src]))
            && (forall p :: p != src && (action == Archive ==> p != dst) ==>
                  (p in st'.fs <==> p in st.fs) && (p in st.fs ==> st'.fs[p] == st.fs[p]))
  {
  }

  /** The line one archive or delete step queues reports that directory: it names
      the patient, announces success exactly when the delete succeeded, and is
      the copy error, the size-mismatch error or the delete error exactly for
      those outcomes. */
  lemma ProcessOneReports(st: State, d: DirectoryRecord, action: Action, archivePath: string, o: ItemOracle)
    requires action == Archive || action == Delete
    ensures var st' := ProcessOne(st, d, action, archivePath, o);
            && |st'.progress| == |st.progress| + 1
            && st'.progress == st.progress + [st'.progress[|st.progress|]]
            && Reports(st'.progress[|st.progress|], d, st'.outcomes[|st.outcomes|], action)
  {
  }

  /** The removal fact alone, in the form the loop lemmas use. */
  lemma ProcessOneRemoves(st: State, d: DirectoryRecord, action: Action, archivePath: string, o: ItemOracle, p: string)
    requires p in st.fs && p !in ProcessOne(st, d, action, archivePath, o).fs
    ensures p == FullPath(d) && ProcessOne(st, d, action, archivePath, o).outcomes[|st.outcomes|] == Success
  {
    ProcessOneStore(st, d, action, archivePath, o);
  }

  /** In an archive, a directory that existed and was removed or changed by one
      step is that step's source, copied with its own size before the delete. */
  lemma ProcessOneArchiveVerified(st: State, d: DirectoryRecord, archivePath: string, o: ItemOracle)
    ensures var st' := ProcessOne(st, d, Archive, archivePath, o);
            var outcome := st'.outcomes[|st.outcomes|];
            forall p :: p in st.fs && (p !in st'.fs || st'.fs[p] != st.fs[p]) ==>
              p == FullPath(d) && o.copy == Copied(st.fs[p]) && (outcome == Success || outcome == RemoveFailure)
  {
    ProcessOneStore(st, d, Archive, archivePath, o);
  }

  /** The loop over the filtered directories from position `k`: the flag is
      checked before each one, and a set flag ends the loop (tools.py:363-366). */
  function ProcessFrom(st: State, dirs: seq<DirectoryRecord>, k: nat, action: Action, archivePath: string,
                       oracles: seq<ItemOracle>, cancelAt: nat): State
    requires k <= |dirs| <= |oracles|
    decreases |dirs| - k
  {
    if k == |dirs| || cancelAt <= k then st
    else ProcessFrom(ProcessOne(st, dirs[k], action, archivePath, oracles[k]), dirs, k + 1,
                     action, archivePath, oracles, cancelAt)
  }

  /** Where the loop started at `k` stops. */
  function StopAt(cancelAt: nat, k: nat, n: nat): nat {
    if cancelAt <= k then k else if cancelAt < n then cancelAt else n
  }

  /** The directories whose outcome was a success, in order. */
  function Successful(ds: seq<DirectoryRecord>, os: seq<Outcome>): (r: seq<DirectoryRecord>)
    requires |ds| == |os|
    ensures |r| <= |ds|
    ensures forall d :: d in r ==> d in ds
    decreases |ds|
  {
    if |ds| == 0 then []
    else (if os[0] == Success then [ds[0]] else []) + Successful(ds[1..], os[1..])
  }

  /** The audit entries of the successful directories, in order. */
  function SuccessEntries(ds: seq<DirectoryRecord>, oracles: seq<ItemOracle>, os: seq<Outcome>): (r: seq<AuditEntry>)
    requires |ds| == |os| == |oracles|
    decreases |ds|
  {
    if |ds| == 0 then []
    else (if os[0] == Success then [AuditEntry(ds[0].action, ds[0].mrn, oracles[0].date)] else [])
         + SuccessEntries(ds[1..], oracles[1..], os[1..])
  }

  /** One step of the actioned list: the first directory joins it when its
      outcome `x` is a success. */
  lemma SuccessfulStep(act0: seq<DirectoryRecord>, act1: seq<DirectoryRecord>, act2: seq<DirectoryRecord>,
                       ds: seq<DirectoryRecord>, os: seq<Outcome>, x: Outcome, rest: seq<Outcome>)
    requires |ds| == |os| && os == [x] + rest
    requires x == Success ==> act1 == act0 + [ds[0]]
    requires x != Success ==> act1 == act0
    requires act2 == act1 + Successful(ds[1..], rest)
    ensures act2 == act0 + Successful(ds, os)
  {
    var head := if x == Success then [ds[0]] else [];
    SuccessfulCons(ds, os, x, rest);
    ConcatStep(act0, act1, act2, head, Successful(ds[1..], rest), Successful(ds, os));
  }

  /** `Successful` unfolded once, on outcomes given as a head and a rest. */
  lemma SuccessfulCons(ds: seq<DirectoryRecord>, os: seq<Outcome>, x: Outcome, rest: seq<Outcome>)
    requires |ds| == |os| && os == [x] + rest
    ensures Successful(ds, os) == (if x == Success then [ds[0]] else []) + Successful(ds[1..], rest)
  {
    assert os[0] == x && os[1..] == rest;
  }

  /** One step of the recorded entries: the first directory's entry joins them
      when its outcome `x` is a success. */
  lemma EntriesStep(e0: seq<AuditEntry>, e1: seq<AuditEntry>, e2: seq<AuditEntry>,
                    ds: seq<DirectoryRecord>, oracles: seq<ItemOracle>, os: seq<Outcome>, x: Outcome, rest: seq<Outcome>)
    requires |ds| == |os| == |oracles| && os == [x] + rest
    requires x == Success ==> e1 == e0 + [AuditEntry(ds[0].action, ds[0].mrn, oracles[0].date)]
    requires x != Success ==> e1 == e0
    requires e2 == e1 + SuccessEntries(ds[1..], oracles[1..], rest)
    ensures e2 == e0 + SuccessEntries(ds, oracles, os)
  {
    var head := if x == Success then [AuditEntry(ds[0].action, ds[0].mrn, oracles[0].date)] else [];
    EntriesCons(ds, oracles, os, x, rest);
    ConcatStep(e0, e1, e2, head, SuccessEntries(ds[1..], oracles[1..], rest), SuccessEntries(ds, oracles, os));
  }

  /** `SuccessEntries` unfolded once, on outcomes given as a head and a rest. */
  lemma EntriesCons(ds: seq<DirectoryRecord>, oracles: seq<ItemOracle>, os: seq<Outcome>, x: Outcome, rest: seq<Outcome>)
    requires |ds| == |os| == |oracles| && os == [x] + rest
    ensures SuccessEntries(ds, oracles, os)
         == (if x == Success then [AuditEntry(ds[0].action, ds[0].mrn, oracles[0].date)] else [])
            + SuccessEntries(ds[1..], oracles[1..], rest)
  {
    assert os[0] == x && os[1..] == rest;
  }

  /** Appending `head` and then `tail` appends `head + tail`. */
  lemma ConcatStep<T>(a0: seq<T>, a1: seq<T>, a2: seq<T>, head: seq<T>, tail: seq<T>, whole: seq<T>)
    requires a1 == a0 + head && a2 == a1 + tail && whole == head + tail
    ensures a2 == a0 + whole
  {
  }

  /** Once `b` extends `a` by `x` and `c` extends `b`, what `c` adds to `a` is `x`
      followed by what it adds to `b`. */
  lemma SliceAfterStep<T>(a: seq<T>, b: seq<T>, c: seq<T>, x: T)
    requires b == a + [x] && b <= c
    ensures c[|a|..] == [x] + c[|b|..]
  {
    assert c == a + [x] + c[|b|..];
  }

  lemma {:induction false} RecordAllConcat(f: AuditFile, a: seq<AuditEntry>, b: seq<AuditEntry>)
    ensures RecordAll(f, a + b) == RecordAll(RecordAll(f, a), b)
    decreases |a|
  {
    if |a| > 0 {
      assert (a + b)[1..] == a[1..] + b;
      RecordAllConcat(Record(f, a[0]), a[1..], b);
    } else {
      assert a + b == b;
    }
  }

  /** The loop processes exactly the directories before the stop position, one
      outcome each, and archive and delete runs report one message per directory
      processed. */
  lemma {:induction false} ProcessFromCounts(st: State, dirs: seq<DirectoryRecord>, k: nat, action: Action,
                                             archivePath: string, oracles: seq<ItemOracle>, cancelAt: nat)
    requires k <= |dirs| <= |oracles|
    ensures var st' := ProcessFrom(st, dirs, k, action, archivePath, oracles, cancelAt);
            var e := StopAt(cancelAt, k, |dirs|);
            && k <= e <= |dirs|
            && |st'.outcomes| == |st.outcomes| + (e - k)
            && st'.outcomes[..|st.outcomes|] == st.outcomes
            && st.progress <= st'.progress
            && ((action == Archive || action == Delete) ==> |st'.progress| == |st.progress| + (e - k))
    decreases |dirs| - k
  {
    if k < |dirs| && k < cancelAt {
      var st1 := ProcessOne(st, dirs[k], action, archivePath, oracles[k]);
      ProcessFromCounts(st1, dirs, k + 1, action, archivePath, oracles, cancelAt);
      var st' := ProcessFrom(st1, dirs, k + 1, action, archivePath, oracles, cancelAt);
      var e := StopAt(cancelAt, k, |dirs|);
      assert Extends(st, st1, 1, action);
      assert Extends(st1, st', e - (k + 1), action);
      ExtendsTrans(st, st1, st', e - (k + 1), action);
    }
  }

  /** `st'` is `st` with `m` more outcomes and, in an archive or delete, `m` more
      progress lines. */
  predicate Extends(st: State, st': State, m: nat, action: Action) {
    && |st'.outcomes| == |st.outcomes| + m && st'.outcomes[..|st.outcomes|] == st.outcomes
    && st.progress <= st'.progress
    && ((action == Archive || action == Delete) ==> |st'.progress| == |st.progress| + m)
  }

  lemma ExtendsTrans(st: State, st1: State, st2: State, m: nat, action: Action)
    requires Extends(st, st1, 1, action) && Extends(st1, st2, m, action)
    ensures Extends(st, st2, m + 1, action)
  {
    assert st2.outcomes[..|st.outcomes|] == st2.outcomes[..|st1.outcomes|][..|st.outcomes|];
  }

  /** What `c` adds to `a`, when `b` is `a` plus one element and `c` extends `b`. */
  lemma SliceAfterOne<T>(a: seq<T>, b: seq<T>, c: seq<T>)
    requires |b| == |a| + 1 && b[..|a|] == a && b <= c
    ensures c[|a|..] == [b[|a|]] + c[|b|..]
  {
    assert b == a + [b[|a|]];
    SliceAfterStep(a, b, c, b[|a|]);
  }

  /** The actioned list grows by the successful directories, in input order. */
  lemma {:induction false} ProcessFromActioned(st: State, dirs: seq<DirectoryRecord>, k: nat, action: Action,
                                               archivePath: string, oracles: seq<ItemOracle>, cancelAt: nat)
    requires k <= |dirs| <= |oracles|
    ensures var st' := ProcessFrom(st, dirs, k, action, archivePath, oracles, cancelAt);
            var e := StopAt(cancelAt, k, |dirs|);
            && k <= e <= |dirs|
            && |st'.outcomes| == |st.outcomes| + (e - k)
            && st'.actioned == st.actioned + Successful(dirs[k..e], st'.outcomes[|st.outcomes|..])
    decreases |dirs| - k
  {
    ProcessFromCounts(st, dirs, k, action, archivePath, oracles, cancelAt);
    var e := StopAt(cancelAt, k, |dirs|);
    var st' := ProcessFrom(st, dirs, k, action, archivePath, oracles, cancelAt);
    if k == |dirs| || cancelAt <= k {
      assert dirs[k..e] == [];
    } else {
      var st1 := ProcessOne(st, dirs[k], action, archivePath, oracles[k]);
      ProcessFromActioned(st1, dirs, k + 1, action, archivePath, oracles, cancelAt);
      ProcessFromCounts(st1, dirs, k + 1, action, archivePath, oracles, cancelAt);
      assert st' == ProcessFrom(st1, dirs, k + 1, action, archivePath, oracles, cancelAt);
      assert dirs[k..e][1..] == dirs[k + 1..e];
      SliceAfterOne(st.outcomes, st1.outcomes, st'.outcomes);
      SuccessfulStep(st.actioned, st1.actioned, st'.actioned, dirs[k..e], st'.outcomes[|st.outcomes|..],
                     st1.outcomes[|st.outcomes|], st'.outcomes[|st1.outcomes|..]);
    }
  }

  /** The recorded audit entries grow by those of the successful directories, in
      input order, each dated by its own oracle. */
  lemma {:induction false} ProcessFromEntries(st: State, dirs: seq<DirectoryRecord>, k: nat, action: Action,
                                              archivePath: string, oracles: seq<ItemOracle>, cancelAt: nat)
    requires k <= |dirs| <= |oracles|
    ensures var st' := ProcessFrom(st, dirs, k, action, archivePath, oracles, cancelAt);
            var e := StopAt(cancelAt, k, |dirs|);
            && k <= e <= |dirs|
            && |st'.outcomes| == |st.outcomes| + (e - k)
            && st'.entries == st.entries + SuccessEntries(dirs[k..e], oracles[k..e], st'.outcomes[|st.outcomes|..])
    decreases |dirs| - k
  {
    ProcessFromCounts(st, dirs, k, action, archivePath, oracles, cancelAt);
    var e := StopAt(cancelAt, k, |dirs|);
    var st' := ProcessFrom(st, dirs, k, action, archivePath, oracles, cancelAt);
    if k == |dirs| || cancelAt <= k {
      assert dirs[k..e] == [] && oracles[k..e] == [];
    } else {
      var st1 := ProcessOne(st, dirs[k], action, archivePath, oracles[k]);
      ProcessFromEntries(st1, dirs, k + 1, action, archivePath, oracles, cancelAt);
      ProcessFromCounts(st1, dirs, k + 1, action, archivePath, oracles, cancelAt);
      assert st' == ProcessFrom(st1, dirs, k + 1, action, archivePath, oracles, cancelAt);
      assert dirs[k..e][1..] == dirs[k + 1..e];
      assert oracles[k..e][1..] == oracles[k + 1..e];
      SliceAfterOne(st.outcomes, st1.outcomes, st'.outcomes);
      EntriesStep(st.entries, st1.entries, st'.entries, dirs[k..e], oracles[k..e], st'.outcomes[|st.outcomes|..],
                  st1.outcomes[|st.outcomes|], st'.outcomes[|st1.outcomes|..]);
    }
  }

  /** The audit file is `a0` with the entries recorded since `e0` written in order. */
  predicate AuditTracks(st: State, a0: AuditFile, e0: seq<AuditEntry>) {
    e0 <= st.entries && st.audit == RecordAll(a0, st.entries[|e0|..])
  }

  /** One directory keeps the audit file in step with the recorded entries. */
  lemma ProcessOneTracks(st: State, d: DirectoryRecord, action: Action, archivePath: string, o: ItemOracle,
                         a0: AuditFile, e0: seq<AuditEntry>)
    requires AuditTracks(st, a0, e0)
    ensures AuditTracks(ProcessOne(st, d, action, archivePath, o), a0, e0)
  {
    var st1 := ProcessOne(st, d, action, archivePath, o);
    if st1.outcomes[|st.outcomes|] == Success {
      var entry := AuditEntry(d.action, d.mrn, o.date);
      var done := st.entries[|e0|..];
      assert st1.entries[|e0|..] == done + [entry];
      RecordAllConcat(a0, done, [entry]);
      assert RecordAll(st.audit, [entry]) == RecordAll(Record(st.audit, entry), []);
    }
  }

  lemma {:induction false} ProcessFromTracks(st: State, dirs: seq<DirectoryRecord>, k: nat, action: Action,
                                             archivePath: string, oracles: seq<ItemOracle>, cancelAt: nat,
                                             a0: AuditFile, e0: seq<AuditEntry>)
    requires k <= |dirs| <= |oracles|
    requires AuditTracks(st, a0, e0)
    ensures AuditTracks(ProcessFrom(st, dirs, k, action, archivePath, oracles, cancelAt), a0, e0)
    decreases |dirs| - k
  {
    if k < |dirs| && k < cancelAt {
      var st1 := ProcessOne(st, dirs[k], action, archivePath, oracles[k]);
      ProcessOneTracks(st, dirs[k], action, archivePath, oracles[k], a0, e0);
      ProcessFromTracks(st1, dirs, k + 1, action, archivePath, oracles, cancelAt, a0, e0);
    }
  }

  /** The audit file ends as the recorded entries, appended in order, make it. */
  lemma ProcessFromAudit(st: State, dirs: seq<DirectoryRecord>, k: nat, action: Action,
                         archivePath: string, oracles: seq<ItemOracle>, cancelAt: nat)
    requires k <= |dirs| <= |oracles|
    ensures var st' := ProcessFrom(st, dirs, k, action, archivePath, oracles, cancelAt);
            && st.entries <= st'.entries
            && st'.audit == RecordAll(st.audit, st'.entries[|st.entries|..])
  {
    assert st.entries[|st.entries|..] == [];
    ProcessFromTracks(st, dirs, k, action, archivePath, oracles, cancelAt, st.audit, st.entries);
  }

  /** The source paths of some directories, in order. */
  function Paths(ds: seq<DirectoryRecord>): (r: seq<string>)
    ensures |r| == |ds| && forall i :: 0 <= i < |ds| ==> r[i] == FullPath(ds[i])
  {
    seq(|ds|, i requires 0 <= i < |ds| => FullPath(ds[i]))
  }

  lemma PathsConcat(a: seq<DirectoryRecord>, b: seq<DirectoryRecord>, p: string)
    requires p in Paths(a) || p in Paths(b)
    ensures p in Paths(a + b)
  {
    assert Paths(a + b) == Paths(a) + Paths(b);
  }

  /** One step of the removal argument: a path removed by the first directory, or
      by a later successful one, is the source of a successful directory. */
  lemma RemovalStep(p: string, ds: seq<DirectoryRecord>, out0: seq<Outcome>, out1: seq<Outcome>, out2: seq<Outcome>)
    requires |ds| > 0 && |out1| == |out0| + 1 && out1[..|out0|] == out0 && out1 <= out2
    requires |out2| == |out0| + |ds|
    requires (p == FullPath(ds[0]) && out1[|out0|] == Success) || p in Paths(Successful(ds[1..], out2[|out1|..]))
    ensures p in Paths(Successful(ds, out2[|out0|..]))
  {
    SliceAfterOne(out0, out1, out2);
    var os := out2[|out0|..];
    assert os[0] == out1[|out0|] && os[1..] == out2[|out1|..];
    var head := if os[0] == Success then [ds[0]] else [];
    assert Successful(ds, os) == head + Successful(ds[1..], os[1..]);
    if p == FullPath(ds[0]) && os[0] == Success {
      assert Paths(head)[0] == p;
    }
    PathsConcat(head, Successful(ds[1..], os[1..]), p);
  }

  /** A directory that existed and is gone after the loop was the source of a
      processed directory whose delete succeeded. */
  lemma {:induction false} ProcessFromRemovals(st: State, dirs: seq<DirectoryRecord>, k: nat, action: Action,
                                               archivePath: string, oracles: seq<ItemOracle>, cancelAt: nat, p: string)
    requires k <= |dirs| <= |oracles|
    ensures var st' := ProcessFrom(st, dirs, k, action, archivePath, oracles, cancelAt);
            var e := StopAt(cancelAt, k, |dirs|);
            && k <= e <= |dirs|
            && |st'.outcomes| == |st.outcomes| + (e - k)
            && (p in st.fs && p !in st'.fs ==> p in Paths(Successful(dirs[k..e], st'.outcomes[|st.outcomes|..])))
    decreases |dirs| - k
  {
    ProcessFromCounts(st, dirs, k, action, archivePath, oracles, cancelAt);
    var e := StopAt(cancelAt, k, |dirs|);
    var st' := ProcessFrom(st, dirs, k, action, archivePath, oracles, cancelAt);
    if p in st.fs && p !in st'.fs {
      assert k < |dirs| && k < cancelAt;
      var st1 := ProcessOne(st, dirs[k], action, archivePath, oracles[k]);
      assert st' == ProcessFrom(st1, dirs, k + 1, action, archivePath, oracles, cancelAt);
      ProcessFromCounts(st1, dirs, k + 1, action, archivePath, oracles, cancelAt);
      assert dirs[k..e][1..] == dirs[k + 1..e];
      if p in st1.fs {
        ProcessFromRemovals(st1, dirs, k + 1, action, archivePath, oracles, cancelAt, p);
      } else {
        ProcessOneRemoves(st, dirs[k], action, archivePath, oracles[k], p);
      }
      RemovalStep(p, dirs[k..e], st.outcomes, st1.outcomes, st'.outcomes);
    }
  }

  /** The archive safety invariant from the store `fs0` on: every directory of
      `fs0` that is gone or changed is the source of one of the directories
      processed since (the `k0`-th onwards, whose outcomes start at position
      `n0`), and that directory's copy, with the size the directory had in
      `fs0`, succeeded before its delete was attempted. */
  predicate ArchiveSafe(fs0: FileSystem, st: State, n0: nat, dirs: seq<DirectoryRecord>, k0: nat,
                        oracles: seq<ItemOracle>) {
    && n0 <= |st.outcomes| && k0 + (|st.outcomes| - n0) <= |dirs| <= |oracles|
    && forall p :: p in fs0 && (p !in st.fs || st.fs[p] != fs0[p]) ==>
         exists i :: k0 <= i < k0 + (|st.outcomes| - n0) && FullPath(dirs[i]) == p
                     && oracles[i].copy == Copied(fs0[p])
                     && (st.outcomes[n0 + (i - k0)] == Success || st.outcomes[n0 + (i - k0)] == RemoveFailure)
  }

  /** One more directory keeps the invariant, given what one archive step does
      to the store. */
  lemma ArchiveSafeStep(fs0: FileSystem, st: State, st1: State, n0: nat, dirs: seq<DirectoryRecord>, k0: nat,
                        oracles: seq<ItemOracle>)
    requires ArchiveSafe(fs0, st, n0, dirs, k0, oracles)
    requires k0 + (|st.outcomes| - n0) < |dirs|
    requires |st1.outcomes| == |st.outcomes| + 1 && st1.outcomes[..|st.outcomes|] == st.outcomes
    requires var k := k0 + (|st.outcomes| - n0);
             var outcome := st1.outcomes[|st.outcomes|];
             forall p :: p in st.fs && (p !in st1.fs || st1.fs[p] != st.fs[p]) ==>
               p == FullPath(dirs[k]) && oracles[k].copy == Copied(st.fs[p]) && (outcome == Success || outcome == RemoveFailure)
    ensures ArchiveSafe(fs0, st1, n0, dirs, k0, oracles)
  {
    var k := k0 + (|st.outcomes| - n0);
    forall p | p in fs0 && (p !in st1.fs || st1.fs[p] != fs0[p])
      ensures exists i :: k0 <= i < k0 + (|st1.outcomes| - n0) && FullPath(dirs[i]) == p
                          && oracles[i].copy == Copied(fs0[p])
                          && (st1.outcomes[n0 + (i - k0)] == Success || st1.outcomes[n0 + (i - k0)] == RemoveFailure)
    {
      if p in st.fs && st.fs[p] == fs0[p] {
        assert n0 + (k - k0) == |st.outcomes|;
        assert k0 <= k < k0 + (|st1.outcomes| - n0);
      } else {
        var i :| k0 <= i < k0 + (|st.outcomes| - n0) && FullPath(dirs[i]) == p
                 && oracles[i].copy == Copied(fs0[p])
                 && (st.outcomes[n0 + (i - k0)] == Success || st.outcomes[n0 + (i - k0)] == RemoveFailure);
        assert st1.outcomes[n0 + (i - k0)] == st.outcomes[n0 + (i - k0)];
      }
    }
  }

  /** An archive loop keeps the invariant. */
  lemma {:induction false} ProcessFromArchiveSafe(st: State, dirs: seq<DirectoryRecord>, k: nat, archivePath: string,
                                                  oracles: seq<ItemOracle>, cancelAt: nat,
                                                  fs0: FileSystem, n0: nat, k0: nat)
    requires k <= |dirs| <= |oracles|
    requires ArchiveSafe(fs0, st, n0, dirs, k0, oracles) && k == k0 + (|st.outcomes| - n0)
    ensures ArchiveSafe(fs0, ProcessFrom(st, dirs, k, Archive, archivePath, oracles, cancelAt), n0, dirs, k0, oracles)
    decreases |dirs| - k
  {
    if k < |dirs| && k < cancelAt {
      var st1 := ProcessOne(st, dirs[k], Archive, archivePath, oracles[k]);
      ProcessOneArchiveVerified(st, dirs[k], archivePath, oracles[k]);
      ArchiveSafeStep(fs0, st, st1, n0, dirs, k0, oracles);
      ProcessFromArchiveSafe(st1, dirs, k + 1, archivePath, oracles, cancelAt, fs0, n0, k0);
    }
  }

  /** What the executor puts on its queue: a progress string per directory, then
      the list of directories actioned. */
  datatype ExecMessage = Step(progress: Progress) | Finished(actioned: seq<DirectoryRecord>)

  /** A run of the executor: whether it backed up the XVI database first, the
      queue messages, the file store and audit file afterwards, and the outcome
      of each directory processed (which the source only logs). */
  datatype ExecRun = ExecRun(backupCalled: bool, messages: seq<ExecMessage>, fs: FileSystem,
                             audit: AuditFile, outcomes: seq<Outcome>)

  function Steps(ps: seq<Progress>): (ms: seq<ExecMessage>)
    ensures |ms| == |ps| && forall i :: 0 <= i < |ps| ==> ms[i] == Step(ps[i])
  {
    seq(|ps|, i requires 0 <= i < |ps| => Step(ps[i]))
  }

  /** The run before the final message. */
  function Run(patients: seq<DirectoryRecord>, action: Action, archivePath: string, fs: FileSystem,
               audit: AuditFile, oracles: seq<ItemOracle>, cancelAt: nat): State
    requires |WithAction(patients, action)| <= |oracles|
  {
    ProcessFrom(State(fs, [], [], [], [], audit), WithAction(patients, action), 0, action, archivePath, oracles, cancelAt)
  }

  /** `PerformActionTask.run` (tools.py:344-462). Only the records whose action is
      the task's action are processed; the XVI database is backed up first when
      there is any. The backup is not guarded, so when it raises the thread ends
      with nothing on the queue. Otherwise the progress strings are followed by
      exactly one final list. */
  function RunAction(patients: seq<DirectoryRecord>, action: Action, archivePath: string, fs: FileSystem,
                     audit: AuditFile, backupRaises: bool, oracles: seq<ItemOracle>, cancelAt: nat): (r: ExecRun)
    requires |WithAction(patients, action)| <= |oracles|
    ensures r.backupCalled <==> exists d :: d in patients && d.action == action
    ensures r.backupCalled && backupRaises ==> r.messages == [] && r.fs == fs && r.audit == audit
    ensures !(r.backupCalled && backupRaises) ==>
              && |r.messages| > 0 && r.messages[|r.messages| - 1].Finished?
              && (forall i :: 0 <= i < |r.messages| - 1 ==> r.messages[i].Step?)
              && (forall d :: d in r.messages[|r.messages| - 1].actioned ==> d in patients && d.action == action)
              && |r.outcomes| == Min(cancelAt, |WithAction(patients, action)|)
  {
    var dirs := WithAction(patients, action);
    var called := |dirs| > 0;
    assert called <==> exists d :: d in patients && d.action == action by {
      if called { assert dirs[0] in patients; }
    }
    if called && backupRaises then ExecRun(true, [], fs, audit, [])
    else
      var st := Run(patients, action, archivePath, fs, audit, oracles, cancelAt);
      RunFacts(patients, action, archivePath, fs, audit, oracles, cancelAt);
      ExecRun(called, Steps(st.progress) + [Finished(st.actioned)], st.fs, st.audit, st.outcomes)
  }

  /** The loop over the filtered records processes `min(cancelAt, n)` of them and
      actions only records it was given. */
  lemma RunFacts(patients: seq<DirectoryRecord>, action: Action, archivePath: string, fs: FileSystem,
                 audit: AuditFile, oracles: seq<ItemOracle>, cancelAt: nat)
    requires |WithAction(patients, action)| <= |oracles|
    ensures var st := Run(patients, action, archivePath, fs, audit, oracles, cancelAt);
            && |st.outcomes| == Min(cancelAt, |WithAction(patients, action)|)
            && forall d :: d in st.actioned ==> d in patients && d.action == action
  {
    var dirs := WithAction(patients, action);
    var init := State(fs, [], [], [], [], audit);
    var st := Run(patients, action, archivePath, fs, audit, oracles, cancelAt);
    ProcessFromActioned(init, dirs, 0, action, archivePath, oracles, cancelAt);
    ProcessFromCounts(init, dirs, 0, action, archivePath, oracles, cancelAt);
    var n := StopAt(cancelAt, 0, |dirs|);
    assert st.actioned == Successful(dirs[0..n], st.outcomes);
    assert forall d :: d in st.actioned ==> d in dirs;
  }

  /** The run's outcome, directory by directory: the directories before the one
      at which the flag was seen are processed in order, archive and delete runs
      report one progress string for each, and the final list holds the ones
      whose delete succeeded, in order. */
  lemma RunActionProcesses(patients: seq<DirectoryRecord>, action: Action, archivePath: string, fs: FileSystem,
                           audit: AuditFile, backupRaises: bool, oracles: seq<ItemOracle>, cancelAt: nat)
    requires |WithAction(patients, action)| <= |oracles|
    ensures var r := RunAction(patients, action, archivePath, fs, audit, backupRaises, oracles, cancelAt);
            var dirs := WithAction(patients, action);
            var n := Min(cancelAt, |dirs|);
            !(r.backupCalled && backupRaises) ==>
              && |r.outcomes| == n
              && r.messages[|r.messages| - 1].actioned == Successful(dirs[..n], r.outcomes)
              && ((action == Archive || action == Delete) ==> |r.messages| == n + 1)
  {
    var dirs := WithAction(patients, action);
    var init := State(fs, [], [], [], [], audit);
    ProcessFromCounts(init, dirs, 0, action, archivePath, oracles, cancelAt);
    ProcessFromActioned(init, dirs, 0, action, archivePath, oracles, cancelAt);
    assert dirs[0..Min(cancelAt, |dirs|)] == dirs[..Min(cancelAt, |dirs|)];
  }

  /** Every directory processed so far is reported by the progress line at its
      own position. */
  predicate ReportsAll(st: State, dirs: seq<DirectoryRecord>, action: Action) {
    && |st.progress| == |st.outcomes| <= |dirs|
    && forall i :: 0 <= i < |st.outcomes| ==> Reports(st.progress[i], dirs[i], st.outcomes[i], action)
  }

  lemma ReportsStep(st: State, st1: State, dirs: seq<DirectoryRecord>, action: Action)
    requires ReportsAll(st, dirs, action) && |st.outcomes| < |dirs|
    requires |st1.outcomes| == |st.outcomes| + 1 && st1.outcomes[..|st.outcomes|] == st.outcomes
    requires st.progress <= st1.progress && |st1.progress| == |st.progress| + 1
    requires Reports(st1.progress[|st.progress|], dirs[|st.outcomes|], st1.outcomes[|st.outcomes|], action)
    ensures ReportsAll(st1, dirs, action)
  {
    forall i | 0 <= i < |st1.outcomes|
      ensures Reports(st1.progress[i], dirs[i], st1.outcomes[i], action)
    {
      if i < |st.outcomes| {
        assert st1.progress[i] == st.progress[i];
        assert st1.outcomes[i] == st.outcomes[i];
      }
    }
  }

  /** An archive or delete loop keeps every progress line in step with the
      directory and outcome at its position. */
  lemma {:induction false} ProcessFromReports(st: State, dirs: seq<DirectoryRecord>, k: nat, action: Action,
                                              archivePath: string, oracles: seq<ItemOracle>, cancelAt: nat)
    requires action == Archive || action == Delete
    requires k <= |dirs| <= |oracles| && |st.outcomes| == k && ReportsAll(st, dirs, action)
    ensures ReportsAll(ProcessFrom(st, dirs, k, action, archivePath, oracles, cancelAt), dirs, action)
    decreases |dirs| - k
  {
    if k < |dirs| && k < cancelAt {
      var st1 := ProcessOne(st, dirs[k], action, archivePath, oracles[k]);
      ProcessOneReports(st, dirs[k], action, archivePath, oracles[k]);
      ReportsStep(st, st1, dirs, action);
      ProcessFromReports(st1, dirs, k + 1, action, archivePath, oracles, cancelAt);
    }
  }

  /** In an archive or delete run, the i-th message reports the i-th processed
      directory: it names that patient, announces success exactly when its delete
      succeeded, and is the size-mismatch error exactly when its copy's size
      differed. */
  lemma RunActionReports(patients: seq<DirectoryRecord>, action: Action, archivePath: string, fs: FileSystem,
                         audit: AuditFile, backupRaises: bool, oracles: seq<ItemOracle>, cancelAt: nat)
    requires |WithAction(patients, action)| <= |oracles|
    ensures var r := RunAction(patients, action, archivePath, fs, audit, backupRaises, oracles, cancelAt);
            var dirs := WithAction(patients, action);
            (action == Archive || action == Delete) && !(r.backupCalled && backupRaises) ==>
              && |r.messages| == |r.outcomes| + 1
              && forall i :: 0 <= i < |r.outcomes| ==>
                   i < |dirs| && r.messages[i].Step? && Reports(r.messages[i].progress, dirs[i], r.outcomes[i], action)
  {
    var r := RunAction(patients, action, archivePath, fs, audit, backupRaises, oracles, cancelAt);
    if (action == Archive || action == Delete) && !(r.backupCalled && backupRaises) {
      var dirs := WithAction(patients, action);
      var init := State(fs, [], [], [], [], audit);
      ProcessFromReports(init, dirs, 0, action, archivePath, oracles, cancelAt);
      var st := Run(patients, action, archivePath, fs, audit, oracles, cancelAt);
      assert r.messages == Steps(st.progress) + [Finished(st.actioned)] && r.outcomes == st.outcomes;
      assert forall i :: 0 <= i < |st.progress| ==> r.messages[i] == Step(st.progress[i]);
    }
  }

  /** A directory present before the run and gone after it is the source of a
      directory in the final list. */
  lemma RunActionRemovesOnlyActioned(patients: seq<DirectoryRecord>, action: Action, archivePath: string, fs: FileSystem,
                                     audit: AuditFile, backupRaises: bool, oracles: seq<ItemOracle>, cancelAt: nat,
                                     p: string)
    requires |WithAction(patients, action)| <= |oracles|
    requires p in fs && p !in RunAction(patients, action, archivePath, fs, audit, backupRaises, oracles, cancelAt).fs
    ensures var r := RunAction(patients, action, archivePath, fs, audit, backupRaises, oracles, cancelAt);
            p in Paths(r.messages[|r.messages| - 1].actioned)
  {
    var dirs := WithAction(patients, action);
    var init := State(fs, [], [], [], [], audit);
    var r := RunAction(patients, action, archivePath, fs, audit, backupRaises, oracles, cancelAt);
    var st := Run(patients, action, archivePath, fs, audit, oracles, cancelAt);
    assert !(|dirs| > 0 && backupRaises);
    assert r.fs == st.fs && r.messages[|r.messages| - 1].actioned == st.actioned;
    ProcessFromRemovals(init, dirs, 0, action, archivePath, oracles, cancelAt, p);
    ProcessFromActioned(init, dirs, 0, action, archivePath, oracles, cancelAt);
    var done := Successful(dirs[0..StopAt(cancelAt, 0, |dirs|)], st.outcomes[0..]);
    assert st.actioned == [] + done == done;
  }

  /** The archive safety of a whole run: every directory that existed before an
      archive run and is gone or changed after it is the source of a processed
      directory whose copy, with the directory's original size, succeeded before
      its delete was attempted. */
  lemma RunActionArchiveVerified(patients: seq<DirectoryRecord>, archivePath: string, fs: FileSystem,
                                 audit: AuditFile, backupRaises: bool, oracles: seq<ItemOracle>, cancelAt: nat)
    requires |WithAction(patients, Archive)| <= |oracles|
    ensures var r := RunAction(patients, Archive, archivePath, fs, audit, backupRaises, oracles, cancelAt);
            var dirs := WithAction(patients, Archive);
            forall p :: p in fs && (p !in r.fs || r.fs[p] != fs[p]) ==>
              exists i :: 0 <= i < |r.outcomes| && i < |dirs| && FullPath(dirs[i]) == p
                          && oracles[i].copy == Copied(fs[p])
                          && (r.outcomes[i] == Success || r.outcomes[i] == RemoveFailure)
  {
    var dirs := WithAction(patients, Archive);
    var r := RunAction(patients, Archive, archivePath, fs, audit, backupRaises, oracles, cancelAt);
    if !(|dirs| > 0 && backupRaises) {
      var st := Run(patients, Archive, archivePath, fs, audit, oracles, cancelAt);
      assert r.fs == st.fs && r.outcomes == st.outcomes;
      assert ArchiveSafe(fs, st, 0, dirs, 0, oracles) by {
        ProcessFromArchiveSafe(State(fs, [], [], [], [], audit), dirs, 0, archivePath, oracles, cancelAt, fs, 0, 0);
      }
      ArchiveSafeFromStart(fs, st, dirs, oracles);
    }
  }

  /** The invariant from the start of a run, read with plain positions. */
  lemma ArchiveSafeFromStart(fs: FileSystem, st: State, dirs: seq<DirectoryRecord>, oracles: seq<ItemOracle>)
    requires ArchiveSafe(fs, st, 0, dirs, 0, oracles)
    ensures forall p :: p in fs && (p !in st.fs || st.fs[p] != fs[p]) ==>
              exists i :: 0 <= i < |st.outcomes| && i < |dirs| && FullPath(dirs[i]) == p
                          && oracles[i].copy == Copied(fs[p])
                          && (st.outcomes[i] == Success || st.outcomes[i] == RemoveFailure)
  {
    forall p | p in fs && (p !in st.fs || st.fs[p] != fs[p])
      ensures exists i :: 0 <= i < |st.outcomes| && i < |dirs| && FullPath(dirs[i]) == p
                          && oracles[i].copy == Copied(fs[p])
                          && (st.outcomes[i] == Success || st.outcomes[i] == RemoveFailure)
    {
      var i :| 0 <= i < 0 + (|st.outcomes| - 0) && FullPath(dirs[i]) == p && oracles[i].copy == Copied(fs[p])
               && (st.outcomes[0 + (i - 0)] == Success || st.outcomes[0 + (i - 0)] == RemoveFailure);
      assert 0 + (i - 0) == i;
    }
  }

  /** The audit file after the run: unchanged when nothing was actioned, and
      otherwise the lists read at the start followed by one dated entry per
      actioned directory, in order, in the list its action names. */
  lemma RunActionAudit(patients: seq<DirectoryRecord>, action: Action, archivePath: string, fs: FileSystem,
                       audit: AuditFile, backupRaises: bool, oracles: seq<ItemOracle>, cancelAt: nat)
    requires |WithAction(patients, action)| <= |oracles|
    ensures var r := RunAction(patients, action, archivePath, fs, audit, backupRaises, oracles, cancelAt);
            var dirs := WithAction(patients, action);
            var n := Min(cancelAt, |dirs|);
            !(r.backupCalled && backupRaises) ==>
              var entries := SuccessEntries(dirs[..n], oracles[..n], r.outcomes);
              && (entries == [] ==> r.audit == audit)
              && (entries != [] ==>
                    Load(r.audit) == Lists(Load(audit).archived + TextsFor(entries, Archive),
                                           Load(audit).deleted + TextsFor(entries, Delete)))
  {
    var dirs := WithAction(patients, action);
    var init := State(fs, [], [], [], [], audit);
    var n := Min(cancelAt, |dirs|);
    ProcessFromAudit(init, dirs, 0, action, archivePath, oracles, cancelAt);
    ProcessFromEntries(init, dirs, 0, action, archivePath, oracles, cancelAt);
    assert dirs[0..n] == dirs[..n] && oracles[0..n] == oracles[..n];
    var st := Run(patients, action, archivePath, fs, audit, oracles, cancelAt);
    assert st.entries[0..] == st.entries;
    if st.entries != [] {
      RecordAllAppends(audit, st.entries);
    }
  }
}
