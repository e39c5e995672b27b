/** `ScanPathsTask.run` (tools.py): scan, query the treatment database, classify,
    and queue the result. The queue is the sequence of messages the task puts on it;
    cancellation is the flag being seen first at check number `cancelAt`, counting
    one check per directory scanned, one at the start of the database step, one per
    record in the classification loop and one before the result is queued. */
module ScanTask {
  import opened Records
  import opened Scanner
  import opened Classifier

  /** The three database replies. `treatment == None` is a failed query
      (no connection configured or the query raised). */
  datatype OisReplies = OisReplies(treatment: Option<seq<TreatmentRow>>, trials: seq<PersonRow>, fourD: seq<PersonRow>)

  /** What the task puts on its queue: the error dictionary, or the final list. */
  datatype ScanMessage = QueryError(title: string, text: string) | ScanDone(dirs: seq<DirectoryRecord>)

  /** The queued messages, and the MRN list sent to the database if it was queried. */
  datatype ScanRun = ScanRun(query: Option<seq<string>>, messages: seq<ScanMessage>)

  const OisErrorTitle: string := "Could not query OIS"
  const OisErrorText: string := "OIS could not be queried. Check connection settings."

  function RunScan(roots: seq<Root>, ignoreMrns: seq<string>, quick: bool, replies: OisReplies,
                   now: int, cancelAt: nat): (run: ScanRun)
    ensures |run.messages| >= 1 && run.messages[|run.messages| - 1].ScanDone?
    ensures forall i :: 0 <= i < |run.messages| - 1 ==> run.messages[i].QueryError?
  {
    var scanned := GetDirectories(roots, ignoreMrns, quick, cancelAt);
    var n := |scanned|;
    if cancelAt <= n then
      ScanRun(None, [ScanDone([])])
    else
      var query := Some(QueryMrns(scanned));
      match replies.treatment
      case None =>
        ScanRun(query, [QueryError(OisErrorTitle, OisErrorText),
                        ScanDone(if cancelAt <= n + 1 then [] else scanned)])
      case Some(rows) =>
        ScanRun(query, [ScanDone(if cancelAt <= n + n + 1 then []
                                 else Classify(scanned, rows, replies.trials, replies.fourD, now))])
  }

  /** The list an uncancelled run queues last. */
  function ExpectedResult(roots: seq<Root>, ignoreMrns: seq<string>, quick: bool,
                          replies: OisReplies, now: int): seq<DirectoryRecord>
  {
    var all := AllRecords(roots, ignoreMrns, quick);
    match replies.treatment
    case None => all
    case Some(rows) => Classify(all, rows, replies.trials, replies.fourD, now)
  }

  /** The number of cancellation checks an uncancelled run makes. */
  function ChecksMade(roots: seq<Root>, ignoreMrns: seq<string>, quick: bool, replies: OisReplies): nat {
    var n := |AllRecords(roots, ignoreMrns, quick)|;
    if replies.treatment.None? then n + 2 else n + n + 2
  }

  /** The final list is empty when cancellation was seen at any check, and the
      full classified list otherwise; it is never a partial list. */
  lemma TerminalEmptyOrComplete(roots: seq<Root>, ignoreMrns: seq<string>, quick: bool,
                                replies: OisReplies, now: int, cancelAt: nat)
    ensures var run := RunScan(roots, ignoreMrns, quick, replies, now, cancelAt);
            var last := run.messages[|run.messages| - 1].dirs;
            && (cancelAt < ChecksMade(roots, ignoreMrns, quick, replies) ==> last == [])
            && (cancelAt >= ChecksMade(roots, ignoreMrns, quick, replies) ==>
                  last == ExpectedResult(roots, ignoreMrns, quick, replies, now))
  {
    ScanIsPrefix(roots, ignoreMrns, quick, cancelAt);
    var all := AllRecords(roots, ignoreMrns, quick);
    if cancelAt >= ChecksMade(roots, ignoreMrns, quick, replies) {
      assert GetDirectories(roots, ignoreMrns, quick, cancelAt) == all;
    }
  }

  /** A failed treatment query queues the error and then the scan-time list
      unchanged: no action, flag or name is altered. */
  lemma QueryFailureKeepsScan(roots: seq<Root>, ignoreMrns: seq<string>, quick: bool,
                              replies: OisReplies, now: int, cancelAt: nat)
    requires replies.treatment.None?
    requires cancelAt >= ChecksMade(roots, ignoreMrns, quick, replies)
    ensures var run := RunScan(roots, ignoreMrns, quick, replies, now, cancelAt);
            && run.messages == [QueryError(OisErrorTitle, OisErrorText),
                                ScanDone(AllRecords(roots, ignoreMrns, quick))]
            && forall r :: r in run.messages[1].dirs ==> Fresh(r, ignoreMrns, quick)
  {
    ScanIsPrefix(roots, ignoreMrns, quick, cancelAt);
    ScanRecordsFresh(roots, ignoreMrns, quick, cancelAt);
    assert GetDirectories(roots, ignoreMrns, quick, cancelAt) == AllRecords(roots, ignoreMrns, quick);
  }

  /** Once the scan has completed uncancelled, the database is queried with every
      scanned MRN (ignored ones included), even when there is none. */
  lemma QueryAlwaysIssued(roots: seq<Root>, ignoreMrns: seq<string>, quick: bool,
                          replies: OisReplies, now: int, cancelAt: nat)
    requires cancelAt > |AllRecords(roots, ignoreMrns, quick)|
    ensures RunScan(roots, ignoreMrns, quick, replies, now, cancelAt).query
            == Some(QueryMrns(AllRecords(roots, ignoreMrns, quick)))
  {
    ScanIsPrefix(roots, ignoreMrns, quick, cancelAt);
    assert GetDirectories(roots, ignoreMrns, quick, cancelAt) == AllRecords(roots, ignoreMrns, quick);
  }
}
